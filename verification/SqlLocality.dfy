/** Cutting a text where the scanner reads code does not change how either side is read. */
module SqlLocality {
  import opened Wrappers
  import opened SqlScanner

  // Reading a suffix.

  lemma StartsInSuffix(s: string, p: nat, t: string, j: nat)
    requires p <= |s|
    ensures StartsAt(s, t, p + j) <==> StartsAt(s[p..], t, j)
  {
    if p + j + |t| <= |s| {
      assert s[p..][j..j + |t|] == s[p + j..p + j + |t|];
    }
  }

  lemma {:induction false} FindInSuffix(s: string, p: nat, t: string, j: nat)
    requires p <= |s|
    ensures FindFrom(s, t, p + j) == if FindFrom(s[p..], t,
                                                 j).None? then None else Some(p + FindFrom(s[p..], t, j).value)
    decreases |s| - j
  {
    StartsInSuffix(s, p, t, j);
    if !StartsAt(s, t, p + j) && p + j < |s| {
      FindInSuffix(s, p, t, j + 1);
    }
  }

  lemma {:induction false} CommentInSuffix(s: string, p: nat, e: nat, depth: nat)
    requires p <= p + e <= |s|
    ensures CommentEnd(s, p + e, depth) == p + CommentEnd(s[p..], e, depth)
    decreases |s| - e
  {
    if p + e < |s| && depth > 0 {
      if PairAt(s, p + e, '/', '*') {
        CommentInSuffix(s, p, e + 2, depth + 1);
      } else if PairAt(s, p + e, '*', '/') {
        CommentInSuffix(s, p, e + 2, depth - 1);
      } else {
        CommentInSuffix(s, p, e + 1, depth);
      }
    }
  }

  lemma {:induction false} LiteralInSuffix(s: string, p: nat, e: nat, quote: char, escaped: bool)
    requires p <= |s|
    ensures LiteralEnd(s, p + e, quote, escaped) == p + LiteralEnd(s[p..], e, quote, escaped)
    decreases |s| - e
  {
    var b := s[p..];
    if p + e < |s| {
      assert b[e] == s[p + e] && (PairAt(b, e, quote, quote) <==> PairAt(s, p + e, quote, quote));
      if escaped && b[e] == '\\' {
        LiteralInSuffix(s, p, e + 2, quote, escaped);
      } else if b[e] != quote {
        LiteralInSuffix(s, p, e + 1, quote, escaped);
      } else if PairAt(b, e, quote, quote) {
        LiteralInSuffix(s, p, e + 2, quote, escaped);
      }
    }
  }

  lemma SliceInSuffix(s: string, p: nat, i: nat, j: nat)
    requires i <= j && p + j <= |s|
    ensures s[p..][i..j] == s[p + i..p + j]
  {
  }

  lemma TagEndingInSuffix(a: Alphabet, s: string, p: nat, j: nat, end: nat)
    requires p + j < p + end < |s| && s[p + j] == '$' && s[p + end] == '$'
    ensures TagEnding(a, s, p + j, Some(p + end)) == TagEnding(a, s[p..], j, Some(end))
  {
    SliceInSuffix(s, p, j + 1, end);
    SliceInSuffix(s, p, j, end + 1);
  }

  lemma TagInSuffix(a: Alphabet, s: string, p: nat, j: nat)
    requires p + j < |s| && s[p + j] == '$'
    ensures DollarTagAt(a, s, p + j) == DollarTagAt(a, s[p..], j)
  {
    FindInSuffix(s, p, "$", j + 1);
    var end := FindFrom(s[p..], "$", j + 1);
    if end.Some? {
      assert s[p..][end.value] == "$"[0] && s[p + end.value] == s[p..][end.value];
      TagEndingInSuffix(a, s, p, j, end.value);
    }
  }

  lemma ClosedInSuffix(s: string, p: nat, j: nat, tag: Option<string>)
    requires p + j <= |s| && (tag.Some? ==> p + j + |tag.value| <= |s|)
    ensures ClosedEnd(s, p + j, tag) == p + ClosedEnd(s[p..], j, tag)
  {
    if tag.Some? {
      FindInSuffix(s, p, tag.value, j + |tag.value|);
    }
  }

  lemma DollarInSuffix(a: Alphabet, s: string, p: nat, j: nat)
    requires p + j < |s| && s[p + j] == '$'
    ensures DollarEnd(a, s, p + j) == p + DollarEnd(a, s[p..], j)
  {
    TagInSuffix(a, s, p, j);
    ClosedInSuffix(s, p, j, DollarTagAt(a, s, p + j));
  }

  /** Reading starts afresh anywhere that does not follow an E: only the character before a quote is looked back at. */
  lemma EndInSuffix(a: Alphabet, s: string, p: nat, j: nat)
    requires p + j < |s|
    requires p == 0 || j > 0 || !IsE(s[p - 1])
    ensures ProtectedEnd(a, s, p + j) == p + ProtectedEnd(a, s[p..], j)
  {
    var b := s[p..];
    assert b[j] == s[p + j];
    if PairAt(b, j, '-', '-') {
      FindInSuffix(s, p, "\n", j);
    } else if PairAt(b, j, '/', '*') {
      CommentInSuffix(s, p, j + 2, 1);
    } else if IsQuote(b[j]) {
      assert j > 0 ==> b[j - 1] == s[p + j - 1];
      LiteralInSuffix(s, p, j + 1, s[p + j], OpensEscaped(b, j));
    } else if b[j] == '$' {
      DollarInSuffix(a, s, p, j);
    }
  }

  // Reading a prefix that ends before a semicolon.

  lemma StartsInPrefix(s: string, k: nat, t: string, i: nat)
    requires i + |t| <= k <= |s|
    ensures StartsAt(s, t, i) <==> StartsAt(s[..k], t, i)
  {
    assert s[..k][i..i + |t|] == s[i..i + |t|];
  }

  lemma {:induction false} FindInPrefix(s: string, k: nat, t: string, i: nat)
    requires k <= |s|
    ensures FindFrom(s[..k], t, i)
            == if FindFrom(s, t, i).Some? && FindFrom(s, t, i).value + |t| <= k then FindFrom(s, t, i) else None
  {
    var whole, part := FindFrom(s, t, i), FindFrom(s[..k], t, i);
    FindFromIsFirst(s, t, i);
    FindFromIsFirst(s[..k], t, i);
    if part.Some? {
      StartsInPrefix(s, k, t, part.value);
    }
    if whole.Some? && whole.value + |t| <= k {
      StartsInPrefix(s, k, t, whole.value);
    }
  }

  lemma {:induction false} CommentInPrefix(s: string, k: nat, e: nat, depth: nat)
    requires e <= k < |s| && s[k] == ';'
    ensures CommentEnd(s, e, depth) <= k ==> CommentEnd(s[..k], e, depth) == CommentEnd(s, e, depth)
    decreases k - e
  {
    if depth > 0 && e < k {
      if PairAt(s, e, '/', '*') {
        CommentInPrefix(s, k, e + 2, depth + 1);
      } else if PairAt(s, e, '*', '/') {
        CommentInPrefix(s, k, e + 2, depth - 1);
      } else {
        CommentInPrefix(s, k, e + 1, depth);
      }
    }
  }

  lemma {:induction false} LiteralInPrefix(s: string, k: nat, e: nat, quote: char, escaped: bool)
    requires e <= k < |s| && s[k] == ';' && IsQuote(quote)
    ensures LiteralEnd(s, e, quote, escaped) <= k
            ==> LiteralEnd(s[..k], e, quote, escaped) == LiteralEnd(s, e, quote, escaped)
    decreases k - e
  {
    if e < k {
      LiteralInPrefix(s, k, e + 1, quote, escaped);
      if e + 2 <= k {
        LiteralInPrefix(s, k, e + 2, quote, escaped);
      }
    }
  }

  /** No tag runs across a semicolon. */
  lemma NoTagAcross(a: Alphabet, s: string, k: nat, i: nat, end: nat)
    requires AlphabetFits(a) && i < k < end < |s| && s[k] == ';' && s[i] == '$' && StartsAt(s, "$", end)
    ensures TagEnding(a, s, i, Some(end)) == None
  {
    assert s[i + 1..end][k - i - 1] == ';';
  }

  lemma TagEndingInPrefix(a: Alphabet, s: string, k: nat, i: nat, end: nat)
    requires i < end < k <= |s| && s[i] == '$' && StartsAt(s, "$", end) && StartsAt(s[..k], "$", end)
    ensures TagEnding(a, s[..k], i, Some(end)) == TagEnding(a, s, i, Some(end))
  {
    assert s[..k][i + 1..end] == s[i + 1..end];
    assert s[..k][i..end + 1] == s[i..end + 1];
  }

  lemma TagInPrefix(a: Alphabet, s: string, k: nat, i: nat)
    requires AlphabetFits(a) && i < k < |s| && s[k] == ';' && s[i] == '$'
    ensures DollarTagAt(a, s[..k], i) == DollarTagAt(a, s, i)
  {
    FindInPrefix(s, k, "$", i + 1);
    var end := FindFrom(s, "$", i + 1);
    if end.Some? {
      assert s[end.value] == "$"[0];
      if end.value < k {
        TagEndingInPrefix(a, s, k, i, end.value);
      } else {
        NoTagAcross(a, s, k, i, end.value);
      }
    }
  }

  lemma ClosedInPrefix(s: string, k: nat, i: nat, tag: Option<string>)
    requires i <= k <= |s| && (tag.Some? ==> i + |tag.value| <= k) && ClosedEnd(s, i, tag) <= k
    ensures ClosedEnd(s[..k], i, tag) == ClosedEnd(s, i, tag)
  {
    if tag.Some? {
      FindInPrefix(s, k, tag.value, i + |tag.value|);
    }
  }

  lemma DollarInPrefix(a: Alphabet, s: string, k: nat, i: nat)
    requires AlphabetFits(a) && i < k < |s| && s[k] == ';' && s[i] == '$'
    requires DollarEnd(a, s, i) <= k
    ensures DollarEnd(a, s[..k], i) == DollarEnd(a, s, i)
  {
    TagInPrefix(a, s, k, i);
    ClosedInPrefix(s, k, i, DollarTagAt(a, s[..k], i));
  }

  /** What ends at or before a semicolon is read the same when the text stops there. */
  lemma EndInPrefix(a: Alphabet, s: string, k: nat, i: nat)
    requires AlphabetFits(a) && i < k < |s| && s[k] == ';'
    requires ProtectedEnd(a, s, i) <= k
    ensures ProtectedEnd(a, s[..k], i) == ProtectedEnd(a, s, i)
  {
    if PairAt(s, i, '-', '-') {
      FindInPrefix(s, k, "\n", i);
      assert s[k..k + 1][0] == ';';
    } else if PairAt(s, i, '/', '*') {
      CommentInPrefix(s, k, i + 2, 1);
    } else if IsQuote(s[i]) {
      LiteralInPrefix(s, k, i + 1, s[i], OpensEscaped(s, i));
    } else if s[i] == '$' {
      DollarInPrefix(a, s, k, i);
    }
  }

  // Reading as such: where the guarded text that opens at each position ends.

  type Reader = nat -> nat

  function Reading(a: Alphabet, s: string): Reader {
    (i: nat) => if i < |s| then ProtectedEnd(a, s, i) else i
  }

  /** The position read after `i`. */
  function Next(read: Reader, i: nat): (next: nat)
    ensures i < next
  {
    if read(i) > i then read(i) else i + 1
  }

  /** A guarded stretch of the text. */
  datatype Span = Span(first: nat, end: nat)

  /** The guarded stretches from `i` to `n`; everything between them is code. */
  function Spans(read: Reader, n: nat, i: nat): seq<Span>
    decreases n - i
  {
    if i >= n then []
    else if read(i) > i then [Span(i, read(i))] + Spans(read, n, read(i))
    else Spans(read, n, i + 1)
  }

  function Shifted(spans: seq<Span>, offset: nat): seq<Span> {
    if spans == [] then [] else [Span(spans[0].first + offset, spans[0].end + offset)] + Shifted(spans[1..], offset)
  }

  /** Reading on from `i` comes to `k`. */
  ghost predicate Reaches(read: Reader, i: nat, k: nat)
    decreases k - i
  {
    i == k || (i < k && Reaches(read, Next(read, i), k))
  }

  /** Reading on from `i` comes to `k` and finds code there. */
  ghost predicate ReadsCode(read: Reader, i: nat, k: nat) {
    Reaches(read, i, k) && read(k) == k
  }

  /** `later` reads after `p` what `read` reads from the start. */
  ghost predicate ReadsAfter(later: Reader, p: nat, read: Reader, n: nat) {
    forall j {:trigger read(j)} :: 0 <= j < n ==> later(p + j) == p + read(j)
  }

  /** `short` reads what `read` reads, as long as that ends by `k`. */
  ghost predicate ReadsBefore(short: Reader, read: Reader, k: nat) {
    forall j {:trigger short(j)} {:trigger read(j)} :: 0 <= j < k && read(j) <= k ==> short(j) == read(j)
  }

  lemma SuffixReadsAt(a: Alphabet, s: string, p: nat, j: nat)
    requires p <= |s| && (p == 0 || !IsE(s[p - 1])) && j < |s| - p
    ensures Reading(a, s)(p + j) == p + Reading(a, s[p..])(j)
  {
    EndInSuffix(a, s, p, j);
  }

  lemma SuffixReads(a: Alphabet, s: string, p: nat)
    requires p <= |s| && (p == 0 || !IsE(s[p - 1]))
    ensures ReadsAfter(Reading(a, s), p, Reading(a, s[p..]), |s| - p)
  {
    var later, read := Reading(a, s), Reading(a, s[p..]);
    forall j: nat | j < |s| - p ensures later(p + j) == p + read(j) {
      SuffixReadsAt(a, s, p, j);
    }
  }

  lemma PrefixReads(a: Alphabet, s: string, k: nat)
    requires AlphabetFits(a) && k < |s| && s[k] == ';'
    ensures ReadsBefore(Reading(a, s[..k]), Reading(a, s), k)
  {
    forall j: nat | j < k && Reading(a, s)(j) <= k ensures Reading(a, s[..k])(j) == Reading(a, s)(j) {
      EndInPrefix(a, s, k, j);
    }
  }

  lemma ShiftedMore(span: Span, spans: seq<Span>, offset: nat)
    ensures Shifted([span] + spans, offset) == [Span(span.first + offset, span.end + offset)] + Shifted(spans, offset)
  {
    assert ([span] + spans)[1..] == spans;
  }

  lemma SpanAfter(later: Reader, p: nat, n: nat, j: nat, end: nat, tail: seq<Span>)
    requires j < n && j < end && later(p + j) == p + end && Spans(later, p + n, p + end) == Shifted(tail, p)
    ensures Spans(later, p + n, p + j) == Shifted([Span(j, end)] + tail, p)
  {
    ShiftedMore(Span(j, end), tail, p);
  }

  lemma CodeAfter(later: Reader, p: nat, n: nat, j: nat)
    requires j < n && later(p + j) <= p + j
    ensures Spans(later, p + n, p + j) == Spans(later, p + n, p + (j + 1))
  {
  }

  lemma {:induction false} SpansAfter(later: Reader, p: nat, read: Reader, n: nat, j: nat)
    requires ReadsAfter(later, p, read, n)
    ensures Spans(later, p + n, p + j) == Shifted(Spans(read, n, j), p)
    decreases n - j
  {
    if j < n {
      assert later(p + j) == p + read(j);
      if read(j) > j {
        SpansAfter(later, p, read, n, read(j));
        SpanAfter(later, p, n, j, read(j), Spans(read, n, read(j)));
      } else {
        SpansAfter(later, p, read, n, j + 1);
        CodeAfter(later, p, n, j);
      }
    }
  }

  lemma SpanBefore(span: Span, spans: seq<Span>, rest: seq<Span>)
    ensures [span] + (spans + rest) == [span] + spans + rest
  {
  }

  lemma {:induction false} SpansBefore(short: Reader, read: Reader, n: nat, i: nat, k: nat)
    requires ReadsBefore(short, read, k) && i <= k < n && ReadsCode(read, i, k)
    ensures Spans(read, n, i) == Spans(short, k, i) + Spans(read, n, k + 1)
    decreases k - i
  {
    if i < k {
      var next := Next(read, i);
      assert Reaches(read, next, k);
      SpansBefore(short, read, n, next, k);
      assert short(i) == read(i);
      if read(i) > i {
        SpanBefore(Span(i, next), Spans(short, k, next), Spans(read, n, k + 1));
      }
    }
  }

  /** The guarded stretches of a text of length `n` are those of its two sides around `k`, each read alone. */
  ghost predicate Separates(read: Reader, left: Reader, right: Reader, n: nat, k: nat)
    requires k < n
  {
    Spans(read, n, 0) == Spans(left, k, 0) + Shifted(Spans(right, n - k - 1, 0), k + 1)
  }

  lemma SpansSeparate(read: Reader, left: Reader, right: Reader, n: nat, k: nat)
    requires k < n && ReadsCode(read, 0, k)
    requires ReadsBefore(left, read, k) && ReadsAfter(read, k + 1, right, n - k - 1)
    ensures Separates(read, left, right, n, k)
  {
    SpansBefore(left, read, n, 0, k);
    SpansAfter(read, k + 1, right, n - k - 1, 0);
  }

  /** Locality: cutting at a semicolon that the scanner calls code does not change how either side is read. */
  lemma CodeSemicolonSeparates(a: Alphabet, s: string, k: nat)
    requires AlphabetFits(a) && k < |s| && s[k] == ';' && ReadsCode(Reading(a, s), 0, k)
    ensures Separates(Reading(a, s), Reading(a, s[..k]), Reading(a, s[k + 1..]), |s|, k)
  {
    var read, left, right := Reading(a, s), Reading(a, s[..k]), Reading(a, s[k + 1..]);
    PrefixReads(a, s, k);
    SuffixReads(a, s, k + 1);
    SpansSeparate(read, left, right, |s|, k);
  }
}
