/** Where quoted text and comments end, said by counting instead of scanning. */
module SqlGuards {
  import opened SqlScanner

  // Quoted text, read from `e`: the backslashes right before a character decide whether it is escaped.

  /** How many backslashes stand right before `k`, from `e` on. */
  function Backslashes(s: string, e: nat, k: nat): nat
    requires k <= |s|
  {
    if k <= e || s[k - 1] != '\\' then 0 else 1 + Backslashes(s, e, k - 1)
  }

  /** A quote that no backslash escapes. */
  predicate IsLive(s: string, e: nat, k: nat, quote: char, escaped: bool)
    requires k < |s|
  {
    s[k] == quote && (escaped ==> Backslashes(s, e, k) % 2 == 0)
  }

  function LiveQuotes(s: string, e: nat, k: nat, quote: char, escaped: bool): nat
    requires k <= |s|
  {
    if k <= e then 0
    else LiveQuotes(s, e, k - 1, quote, escaped) + if IsLive(s, e, k - 1, quote, escaped) then 1 else 0
  }

  /** The quote at `q` is live, ends its run of quotes, and an even number of live ones stand before it. */
  predicate Closes(s: string, e: nat, q: nat, quote: char, escaped: bool) {
    && e <= q < |s| && IsLive(s, e, q, quote, escaped) && !PairAt(s, q, quote, quote)
    && LiveQuotes(s, e, q, quote, escaped) % 2 == 0
  }

  /** The scan stands at `p`, with no closing quote before it and only whole pairs behind it. */
  ghost predicate BetweenUnits(s: string, e: nat, p: nat, quote: char, escaped: bool)
    requires p <= |s|
  {
    && (escaped ==> Backslashes(s, e, p) % 2 == 0)
    && LiveQuotes(s, e, p, quote, escaped) % 2 == 0
    && forall q: nat :: q < p ==> !Closes(s, e, q, quote, escaped)
  }

  lemma TwoOn(s: string, e: nat, p: nat, quote: char, escaped: bool)
    requires e <= p && p + 2 <= |s| && quote != '\\' && BetweenUnits(s, e, p, quote, escaped)
    requires (escaped && s[p] == '\\') || PairAt(s, p, quote, quote)
    ensures BetweenUnits(s, e, p + 2, quote, escaped)
  {
    assert Backslashes(s, e, p + 1) == if s[p] == '\\' then 1 + Backslashes(s, e, p) else 0;
    assert LiveQuotes(s, e, p + 1, quote, escaped)
           == LiveQuotes(s, e, p, quote, escaped) + if IsLive(s, e, p, quote, escaped) then 1 else 0;
    assert !Closes(s, e, p, quote, escaped) && !Closes(s, e, p + 1, quote, escaped);
  }

  lemma OneOn(s: string, e: nat, p: nat, quote: char, escaped: bool)
    requires e <= p < |s| && BetweenUnits(s, e, p, quote, escaped)
    requires s[p] != quote && !(escaped && s[p] == '\\')
    ensures BetweenUnits(s, e, p + 1, quote, escaped)
  {
    assert !Closes(s, e, p, quote, escaped);
  }

  lemma {:induction false} ScanCloses(s: string, e: nat, p: nat, quote: char, escaped: bool)
    requires e <= p <= |s| && quote != '\\' && BetweenUnits(s, e, p, quote, escaped)
    ensures var end := LiteralEnd(s, p, quote, escaped);
            (end == |s| && forall q: nat :: !Closes(s, e, q, quote, escaped))
            || (end >= 1 && Closes(s, e, end - 1, quote, escaped)
                && forall q: nat :: q < end - 1 ==> !Closes(s, e, q, quote, escaped))
    decreases |s| - p
  {
    if p < |s| {
      if (escaped && s[p] == '\\') || PairAt(s, p, quote, quote) {
        if p + 2 <= |s| {
          TwoOn(s, e, p, quote, escaped);
          ScanCloses(s, e, p + 2, quote, escaped);
        }
      } else if s[p] != quote {
        OneOn(s, e, p, quote, escaped);
        ScanCloses(s, e, p + 1, quote, escaped);
      }
    }
  }

  /** Quoted text ends behind its first closing quote, or with the text when there is none. */
  lemma LiteralEndsAtFirstClose(s: string, e: nat, quote: char, escaped: bool)
    requires e <= |s| && quote != '\\'
    ensures var end := LiteralEnd(s, e, quote, escaped);
            if exists q :: Closes(s, e, q, quote, escaped)
            then end >= 1 && Closes(s, e, end - 1, quote, escaped)
                 && forall q: nat :: q < end - 1 ==> !Closes(s, e, q, quote, escaped)
            else end == |s|
  {
    ScanCloses(s, e, e, quote, escaped);
  }

  // Block comments, read from `e`: in a chain of overlapping marks such as `/*/*` every second one counts.

  predicate MarkAt(s: string, k: nat) {
    PairAt(s, k, '/', '*') || PairAt(s, k, '*', '/')
  }

  /** How many marks overlap in a chain that reaches `k`, from `e` on. */
  function Overlapping(s: string, e: nat, k: nat): nat {
    if k <= e || !MarkAt(s, k - 1) then 0 else 1 + Overlapping(s, e, k - 1)
  }

  predicate Counts(s: string, e: nat, k: nat) {
    MarkAt(s, k) && Overlapping(s, e, k) % 2 == 0
  }

  /** Opening marks less closing ones among those that count before `k`, on top of `depth`. */
  function Nesting(s: string, e: nat, k: nat, depth: nat): int {
    if k <= e then depth
    else Nesting(s, e, k - 1, depth)
         + if !Counts(s, e, k - 1) then 0 else if PairAt(s, k - 1, '/', '*') then 1 else -1
  }

  /** The mark at `k` counts, and brings the nesting to zero. */
  predicate Unnests(s: string, e: nat, k: nat, depth: nat) {
    e <= k && Counts(s, e, k) && Nesting(s, e, k + 1, depth) == 0
  }

  /** The scan stands at `p` with the nesting `now`, which has not been zero yet. */
  ghost predicate BetweenMarks(s: string, e: nat, p: nat, depth: nat, now: nat) {
    && Overlapping(s, e, p) % 2 == 0 && Nesting(s, e, p, depth) == now
    && forall k: nat :: k < p ==> !Unnests(s, e, k, depth)
  }

  lemma MarkOn(s: string, e: nat, p: nat, depth: nat, now: nat, next: int)
    requires e <= p && BetweenMarks(s, e, p, depth, now) && MarkAt(s, p)
    requires next == now + if PairAt(s, p, '/', '*') then 1 else -1
    ensures Overlapping(s, e, p + 2) % 2 == 0 && Nesting(s, e, p + 2, depth) == next
    ensures Unnests(s, e, p, depth) <==> next == 0
    ensures !Unnests(s, e, p + 1, depth)
  {
    assert Overlapping(s, e, p + 1) == 1 + Overlapping(s, e, p);
    assert Nesting(s, e, p + 1, depth) == next;
    assert !Counts(s, e, p + 1);
  }

  lemma {:induction false} ScanUnnests(s: string, e: nat, p: nat, depth: nat, now: nat)
    requires e <= p <= |s| && now > 0 && BetweenMarks(s, e, p, depth, now)
    ensures var end := CommentEnd(s, p, now);
            (end == |s| && forall k: nat :: !Unnests(s, e, k, depth))
            || (end >= 2 && Unnests(s, e, end - 2, depth)
                && forall k: nat :: k < end - 2 ==> !Unnests(s, e, k, depth))
    decreases |s| - p
  {
    if p == |s| {
    } else if MarkAt(s, p) {
      var next := now + if PairAt(s, p, '/', '*') then 1 else -1;
      MarkOn(s, e, p, depth, now, next);
      if next > 0 {
        ScanUnnests(s, e, p + 2, depth, next);
      }
    } else {
      ScanUnnests(s, e, p + 1, depth, now);
    }
  }

  /** A comment ends behind the first mark that brings its nesting to zero, or with the text when none does. */
  lemma CommentEndsUnnested(s: string, e: nat, depth: nat)
    requires e <= |s| && depth > 0
    ensures var end := CommentEnd(s, e, depth);
            if exists k :: Unnests(s, e, k, depth)
            then end >= 2 && Unnests(s, e, end - 2, depth)
                 && forall k: nat :: k < end - 2 ==> !Unnests(s, e, k, depth)
            else end == |s|
  {
    ScanUnnests(s, e, e, depth, depth);
  }
}
