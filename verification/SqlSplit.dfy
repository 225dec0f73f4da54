/** Splitting SQL text into statements at code semicolons. */
module SqlSplit {
  import opened Wrappers
  import opened SqlScanner
  import opened SqlLocality

  /** The whitespace that Python's `strip` removes. */
  predicate IsSpace(c: char) {
    || c == ' ' || '\t' <= c <= '\r' || '\U{1C}' <= c <= '\U{1F}'
    || c == '\U{85}' || c == '\U{A0}' || c == '\U{1680}' || '\U{2000}' <= c <= '\U{200A}'
    || c == '\U{2028}' || c == '\U{2029}' || c == '\U{202F}' || c == '\U{205F}' || c == '\U{3000}'
  }

  function StripLeft(s: string): string {
    if s != "" && IsSpace(s[0]) then StripLeft(s[1..]) else s
  }

  function StripRight(s: string): string {
    if s != "" && IsSpace(s[|s| - 1]) then StripRight(s[..|s| - 1]) else s
  }

  function Strip(s: string): string {
    StripRight(StripLeft(s))
  }

  /** The first semicolon read as code from `i` on. */
  function FirstSemicolon(read: Reader, s: string, i: nat): (r: Option<nat>)
    ensures r.Some? ==> i <= r.value < |s| && s[r.value] == ';' && ReadsCode(read, i, r.value)
    decreases |s| - i
  {
    if i >= |s| then None
    else if read(i) == i && s[i] == ';' then Some(i)
    else FirstSemicolon(read, s, Next(read, i))
  }

  /** The statement texts, reading the whole in one pass from `i` with a statement begun at `start`. */
  function RawFrom(read: Reader, s: string, start: nat, i: nat): seq<string>
    requires start <= |s|
    decreases |s| - i
  {
    if i >= |s| then [s[start..]]
    else if read(i) == i && s[i] == ';' && start <= i then [s[start..i]] + RawFrom(read, s, i + 1, i + 1)
    else RawFrom(read, s, start, Next(read, i))
  }

  /** The statement texts, cutting at the first code semicolon and reading each side alone. */
  function Pieces(a: Alphabet, s: string): (pieces: seq<string>)
    ensures pieces != []
    decreases |s|
  {
    var k := FirstSemicolon(Reading(a, s), s, 0);
    if k.None? then [s] else [s[..k.value]] + Pieces(a, s[k.value + 1..])
  }

  function Joined(pieces: seq<string>): string {
    if pieces == [] then ""
    else if |pieces| == 1 then pieces[0]
    else pieces[0] + ";" + Joined(pieces[1..])
  }

  lemma {:induction false} RawFromFirst(read: Reader, s: string, start: nat, i: nat)
    requires start <= i && start <= |s|
    ensures var k := FirstSemicolon(read, s, i);
            RawFrom(read, s, start, i)
            == if k.None? then [s[start..]] else [s[start..k.value]] + RawFrom(read, s, k.value + 1, k.value + 1)
    decreases |s| - i
  {
    if i < |s| && !(read(i) == i && s[i] == ';') {
      RawFromFirst(read, s, start, Next(read, i));
    }
  }

  lemma RawFromCut(read: Reader, s: string, start: nat, j: nat)
    requires start <= j < |s| && read(j) == j && s[j] == ';'
    ensures RawFrom(read, s, start, j) == [s[start..j]] + RawFrom(read, s, j + 1, j + 1)
  {
  }

  lemma SidesInSuffix(s: string, p: nat, start: nat, j: nat)
    requires start <= j && p + j <= |s|
    ensures s[p..][start..j] == s[p + start..p + j] && s[p..][start..] == s[p + start..]
  {
  }

  lemma {:induction false} RawFromAfter(later: Reader, s: string, p: nat, read: Reader, start: nat, j: nat)
    requires p <= |s| && ReadsAfter(later, p, read, |s| - p) && start <= |s| - p
    ensures RawFrom(later, s, p + start, p + j) == RawFrom(read, s[p..], start, j)
    decreases |s| - j
  {
    var b := s[p..];
    if j >= |b| {
      SidesInSuffix(s, p, start, start);
    } else {
      assert later(p + j) == p + read(j) && b[j] == s[p + j];
      if read(j) == j && b[j] == ';' && start <= j {
        RawFromAfter(later, s, p, read, j + 1, j + 1);
        SidesInSuffix(s, p, start, j);
        RawFromCut(read, b, start, j);
        RawFromCut(later, s, p + start, p + j);
      } else {
        RawFromAfter(later, s, p, read, start, Next(read, j));
        assert Next(later, p + j) == p + Next(read, j);
      }
    }
  }

  /** The statement texts that one pass over the whole text finds. */
  ghost function OnePass(a: Alphabet, s: string): seq<string> {
    RawFrom(Reading(a, s), s, 0, 0)
  }

  lemma RawCut(read: Reader, rest: Reader, s: string, k: nat)
    requires FirstSemicolon(read, s, 0) == Some(k) && ReadsAfter(read, k + 1, rest, |s| - k - 1)
    ensures RawFrom(read, s, 0, 0) == [s[..k]] + RawFrom(rest, s[k + 1..], 0, 0)
  {
    RawFromFirst(read, s, 0, 0);
    RawFromAfter(read, s, k + 1, rest, 0, 0);
    assert s[0..k] == s[..k];
  }

  /** Reading on after the first code semicolon is reading the rest alone. */
  lemma CutOnce(a: Alphabet, s: string, k: nat)
    requires FirstSemicolon(Reading(a, s), s, 0) == Some(k)
    ensures OnePass(a, s) == [s[..k]] + OnePass(a, s[k + 1..])
  {
    SuffixReads(a, s, k + 1);
    RawCut(Reading(a, s), Reading(a, s[k + 1..]), s, k);
  }

  lemma CutNowhere(a: Alphabet, s: string)
    requires FirstSemicolon(Reading(a, s), s, 0) == None
    ensures OnePass(a, s) == [s]
  {
    RawFromFirst(Reading(a, s), s, 0, 0);
  }

  lemma PiecesStep(a: Alphabet, s: string, k: Option<nat>)
    requires FirstSemicolon(Reading(a, s), s, 0) == k
    ensures Pieces(a, s) == if k.Some? then [s[..k.value]] + Pieces(a, s[k.value + 1..]) else [s]
  {
  }

  /** One pass over the whole text gives what cutting and reading each side alone gives. */
  lemma {:induction false} OnePassIsCutting(a: Alphabet, s: string)
    ensures OnePass(a, s) == Pieces(a, s)
    decreases |s|
  {
    var k := FirstSemicolon(Reading(a, s), s, 0);
    PiecesStep(a, s, k);
    if k.Some? {
      CutOnce(a, s, k.value);
      OnePassIsCutting(a, s[k.value + 1..]);
    } else {
      CutNowhere(a, s);
    }
  }

  lemma RejoinAt(s: string, k: nat)
    requires k < |s| && s[k] == ';'
    ensures s[..k] + ";" + s[k + 1..] == s
  {
  }

  /** The texts between the semicolons rejoin to the input. */
  lemma {:induction false} PiecesJoin(a: Alphabet, s: string)
    ensures Joined(Pieces(a, s)) == s
    decreases |s|
  {
    var k := FirstSemicolon(Reading(a, s), s, 0);
    PiecesStep(a, s, k);
    if k.Some? {
      PiecesJoin(a, s[k.value + 1..]);
      RejoinAt(s, k.value);
    }
  }

  lemma {:induction false} NoneBefore(short: Reader, read: Reader, s: string, i: nat, k: nat)
    requires ReadsBefore(short, read, k) && FirstSemicolon(read, s, i) == Some(k)
    ensures FirstSemicolon(short, s[..k], i) == None
    decreases k - i
  {
    if i < k {
      NoneBefore(short, read, s, Next(read, i), k);
      assert short(i) == read(i);
    }
  }

  /** No text between the semicolons, read alone, has a code semicolon left. */
  lemma {:induction false} PiecesAreWhole(a: Alphabet, s: string, piece: string)
    requires AlphabetFits(a) && piece in Pieces(a, s)
    ensures FirstSemicolon(Reading(a, piece), piece, 0) == None
    decreases |s|
  {
    var k := FirstSemicolon(Reading(a, s), s, 0);
    if k.Some? {
      if piece == s[..k.value] {
        PrefixReads(a, s, k.value);
        NoneBefore(Reading(a, piece), Reading(a, s), s, 0, k.value);
      } else {
        PiecesAreWhole(a, s[k.value + 1..], piece);
      }
    }
  }
}
