/** The statements a script splits into, and why splitting one of them again gives it back. */
module SqlStatements {
  import opened Wrappers
  import opened SqlScanner
  import opened SqlLocality
  import opened SqlSplit

  predicate OpensComment(s: string, i: nat) {
    PairAt(s, i, '-', '-') || PairAt(s, i, '/', '*')
  }

  /** From `i` on there is nothing but comments and whitespace. */
  predicate CommentsFrom(read: Reader, s: string, i: nat)
    decreases |s| - i
  {
    i >= |s| || ((if read(i) > i then OpensComment(s, i) else IsSpace(s[i])) && CommentsFrom(read, s, Next(read, i)))
  }

  predicate OnlyComments(a: Alphabet, s: string) {
    CommentsFrom(Reading(a, s), s, 0)
  }

  predicate Blank(s: string) {
    forall k :: 0 <= k < |s| ==> IsSpace(s[k])
  }

  predicate PartIsComment(part: Part) {
    (part.guarded && OpensComment(part.text, 0)) || Blank(part.text)
  }

  /** The statements kept, stripped, from the texts between the semicolons. */
  function Kept(a: Alphabet, pieces: seq<string>): seq<string> {
    if pieces == [] then []
    else (if OnlyComments(a, pieces[0]) then [] else [Strip(pieces[0])]) + Kept(a, pieces[1..])
  }

  function Statements(a: Alphabet, s: string): seq<string> {
    Kept(a, Pieces(a, s))
  }

  // The end of reading when trailing whitespace is removed.

  lemma FindTrimmed(s: string, n: nat, t: string, i: nat)
    requires n <= |s| && t != "" && !IsSpace(t[|t| - 1]) && Blank(s[n..])
    ensures FindFrom(s[..n], t, i) == FindFrom(s, t, i)
  {
    FindInPrefix(s, n, t, i);
    var found := FindFrom(s, t, i);
  }

  lemma {:induction false} CommentTrimmed(s: string, n: nat, e: nat, depth: nat)
    requires e <= n <= |s| && Blank(s[n..])
    ensures CommentEnd(s[..n], e, depth) == if CommentEnd(s, e, depth) <= n then CommentEnd(s, e, depth) else n
    decreases n - e
  {
    if e == n {
      assert n < |s| ==> s[n..][0] == s[n];
    } else if depth > 0 {
      assert e + 1 == n && n < |s| ==> s[n..][0] == s[n];
      if PairAt(s, e, '/', '*') {
        CommentTrimmed(s, n, e + 2, depth + 1);
      } else if PairAt(s, e, '*', '/') {
        CommentTrimmed(s, n, e + 2, depth - 1);
      } else {
        CommentTrimmed(s, n, e + 1, depth);
      }
    }
  }

  lemma {:induction false} LiteralBlank(s: string, n: nat, e: nat, quote: char, escaped: bool)
    requires n <= |s| && n <= e && Blank(s[n..]) && IsQuote(quote)
    ensures LiteralEnd(s, e, quote, escaped) == |s|
    decreases |s| - e
  {
    if e < |s| {
      assert s[n..][e - n] == s[e];
      LiteralBlank(s, n, e + 1, quote, escaped);
    }
  }

  lemma PairTrimmed(s: string, n: nat, e: nat, quote: char)
    requires e < n <= |s| && Blank(s[n..]) && IsQuote(quote)
    ensures s[..n][e] == s[e] && (PairAt(s[..n], e, quote, quote) <==> PairAt(s, e, quote, quote))
    ensures PairAt(s, e, quote, quote) ==> e + 2 <= n
  {
    assert e + 1 == n && n < |s| ==> s[n..][0] == s[n];
  }

  lemma {:induction false} LiteralTrimmed(s: string, n: nat, e: nat, quote: char, escaped: bool)
    requires n <= |s| && Blank(s[n..]) && IsQuote(quote)
    ensures LiteralEnd(s[..n], e, quote, escaped)
            == if LiteralEnd(s, e, quote, escaped) <= n then LiteralEnd(s, e, quote, escaped) else n
    decreases |s| - e
  {
    if e >= n {
      LiteralBlank(s, n, e, quote, escaped);
    } else {
      PairTrimmed(s, n, e, quote);
      if escaped && s[e] == '\\' {
        LiteralTrimmed(s, n, e + 2, quote, escaped);
      } else if s[e] == quote {
        if PairAt(s, e, quote, quote) {
          LiteralTrimmed(s, n, e + 2, quote, escaped);
        }
      } else {
        LiteralTrimmed(s, n, e + 1, quote, escaped);
      }
    }
  }

  lemma TagTrimmed(a: Alphabet, s: string, n: nat, i: nat)
    requires i < n <= |s| && Blank(s[n..]) && s[i] == '$'
    ensures DollarTagAt(a, s[..n], i) == DollarTagAt(a, s, i)
  {
    FindTrimmed(s, n, "$", i + 1);
    FindInPrefix(s, n, "$", i + 1);
    var end := FindFrom(s, "$", i + 1);
    if end.Some? {
      TagEndingInPrefix(a, s, n, i, end.value);
    }
  }

  lemma ClosedTrimmed(s: string, n: nat, i: nat, tag: Option<string>)
    requires i <= n <= |s| && Blank(s[n..])
    requires (tag.Some? ==> |tag.value| >= 2 && i + |tag.value| <= n && tag.value[|tag.value| - 1] == '$')
    ensures ClosedEnd(s[..n], i, tag) == if ClosedEnd(s, i, tag) <= n then ClosedEnd(s, i, tag) else n
  {
    if tag.Some? {
      FindTrimmed(s, n, tag.value, i + |tag.value|);
      FindInPrefix(s, n, tag.value, i + |tag.value|);
    }
  }

  lemma DollarTrimmed(a: Alphabet, s: string, n: nat, i: nat)
    requires i < n <= |s| && Blank(s[n..]) && s[i] == '$'
    ensures DollarEnd(a, s[..n], i) == if DollarEnd(a, s, i) <= n then DollarEnd(a, s, i) else n
  {
    TagTrimmed(a, s, n, i);
    ClosedTrimmed(s, n, i, DollarTagAt(a, s[..n], i));
  }

  /** Trailing whitespace only ever shortens what runs past its start. */
  lemma EndTrimmed(a: Alphabet, s: string, n: nat, i: nat)
    requires i < n <= |s| && Blank(s[n..])
    ensures ProtectedEnd(a, s[..n], i) == if ProtectedEnd(a, s, i) <= n then ProtectedEnd(a, s, i) else n
  {
    assert i + 1 == n && n < |s| ==> s[n..][0] == s[n];
    if PairAt(s, i, '-', '-') {
      FindInPrefix(s, n, "\n", i);
    } else if PairAt(s, i, '/', '*') {
      CommentTrimmed(s, n, i + 2, 1);
    } else if IsQuote(s[i]) {
      LiteralTrimmed(s, n, i + 1, s[i], OpensEscaped(s, i));
    } else if s[i] == '$' {
      DollarTrimmed(a, s, n, i);
    }
  }

  /** `trimmed` reads what `read` reads, cut off at `n`. */
  ghost predicate ReadsTrimmed(trimmed: Reader, read: Reader, n: nat) {
    forall j {:trigger trimmed(j)} {:trigger read(j)} ::
      0 <= j < n ==> trimmed(j) == if read(j) <= n then read(j) else n
  }

  lemma TrimmedReads(a: Alphabet, s: string, n: nat)
    requires n <= |s| && Blank(s[n..])
    ensures ReadsTrimmed(Reading(a, s[..n]), Reading(a, s), n)
  {
    forall j: nat | j < n
      ensures Reading(a, s[..n])(j) == if Reading(a, s)(j) <= n then Reading(a, s)(j) else n
    {
      EndTrimmed(a, s, n, j);
    }
  }

  lemma {:induction false} NoneTrimmed(trimmed: Reader, read: Reader, s: string, n: nat, i: nat)
    requires n <= |s| && ReadsTrimmed(trimmed, read, n) && FirstSemicolon(read, s, i) == None
    ensures FirstSemicolon(trimmed, s[..n], i) == None
    decreases n - i
  {
    if i < n {
      assert trimmed(i) == if read(i) <= n then read(i) else n;
      NoneTrimmed(trimmed, read, s, n, Next(read, i));
    }
  }

  lemma {:induction false} CommentsTrimmed(trimmed: Reader, read: Reader, s: string, n: nat, i: nat)
    requires n <= |s| && ReadsTrimmed(trimmed, read, n) && Blank(s[n..])
    requires forall j :: n <= j < |s| ==> read(j) == j
    requires CommentsFrom(trimmed, s[..n], i)
    ensures CommentsFrom(read, s, i)
    decreases |s| - i
  {
    if i < n {
      assert trimmed(i) == if read(i) <= n then read(i) else n;
      CommentsTrimmed(trimmed, read, s, n, Next(read, i));
    } else if i < |s| {
      assert s[n..][i - n] == s[i];
      CommentsTrimmed(trimmed, read, s, n, i + 1);
    }
  }

  // Stripping.

  lemma BlankReadsCode(a: Alphabet, s: string, i: nat)
    requires i < |s| && IsSpace(s[i])
    ensures ProtectedEnd(a, s, i) == i
  {
  }

  lemma {:induction false} StripLeftIs(s: string) returns (p: nat)
    ensures p <= |s| && Blank(s[..p]) && StripLeft(s) == s[p..]
    ensures p < |s| ==> !IsSpace(s[p])
  {
    p := 0;
    if s != "" && IsSpace(s[0]) {
      var q := StripLeftIs(s[1..]);
      p := q + 1;
      assert s[..p] == [s[0]] + s[1..][..q];
    }
  }

  lemma {:induction false} StripRightIs(s: string) returns (n: nat)
    ensures n <= |s| && Blank(s[n..]) && StripRight(s) == s[..n]
    ensures n > 0 ==> !IsSpace(s[n - 1])
  {
    n := |s|;
    if s != "" && IsSpace(s[|s| - 1]) {
      n := StripRightIs(s[..|s| - 1]);
      assert s[n..] == s[..|s| - 1][n..] + [s[|s| - 1]];
    }
  }

  /** The stripped characters: tab to carriage return, the four separators and the blank, and Unicode's other spaces. */
  lemma StrippedCodes(c: char)
    ensures IsSpace(c) <==>
              var n := c as int;
              || 9 <= n <= 13 || 28 <= n <= 32 || n == 133 || n == 160 || n == 5760 || 8192 <= n <= 8202
              || n == 8232 || n == 8233 || n == 8239 || n == 8287 || n == 12288
  {
  }

  /** Stripping cuts off just the whitespace at both ends. */
  lemma StripTrims(s: string) returns (p: nat, q: nat)
    ensures p <= q <= |s| && Strip(s) == s[p..q]
    ensures forall k :: 0 <= k < p || q <= k < |s| ==> IsSpace(s[k])
    ensures p < q ==> !IsSpace(s[p]) && !IsSpace(s[q - 1])
  {
    p := StripLeftIs(s);
    var t := s[p..];
    var n := StripRightIs(t);
    q := p + n;
    assert forall k :: 0 <= k < p ==> s[k] == s[..p][k];
    assert forall k :: q <= k < |s| ==> s[k] == t[n..][k - q];
    assert t[..n] == s[p..q];
  }

  lemma StripTwice(s: string)
    ensures Strip(Strip(s)) == Strip(s)
  {
    var p := StripLeftIs(s);
    var t := s[p..];
    var n := StripRightIs(t);
    if n > 0 {
      assert t[..n][0] == t[0] == s[p];
    }
  }

  lemma {:induction false} SkipBlank(a: Alphabet, s: string, p: nat, i: nat)
    requires i <= p <= |s| && Blank(s[..p])
    ensures FirstSemicolon(Reading(a, s), s, i) == FirstSemicolon(Reading(a, s), s, p)
    ensures CommentsFrom(Reading(a, s), s, i) <==> CommentsFrom(Reading(a, s), s, p)
    decreases p - i
  {
    if i < p {
      assert s[..p][i] == s[i];
      BlankReadsCode(a, s, i);
      assert Reading(a, s)(i) == i;
      SkipBlank(a, s, p, i + 1);
    }
  }

  lemma {:induction false} NoneAfter(later: Reader, s: string, p: nat, read: Reader, j: nat)
    requires p <= |s| && ReadsAfter(later, p, read, |s| - p)
    ensures FirstSemicolon(later, s, p + j) == None ==> FirstSemicolon(read, s[p..], j) == None
    decreases |s| - j
  {
    if p + j < |s| {
      assert later(p + j) == p + read(j) && s[p..][j] == s[p + j];
      NoneAfter(later, s, p, read, Next(read, j));
      assert Next(later, p + j) == p + Next(read, j);
    }
  }

  lemma {:induction false} CommentsAfter(later: Reader, s: string, p: nat, read: Reader, j: nat)
    requires p <= |s| && ReadsAfter(later, p, read, |s| - p)
    ensures CommentsFrom(read, s[p..], j) ==> CommentsFrom(later, s, p + j)
    decreases |s| - j
  {
    if p + j < |s| {
      assert later(p + j) == p + read(j) && s[p..][j] == s[p + j];
      CommentsAfter(later, s, p, read, Next(read, j));
      assert Next(later, p + j) == p + Next(read, j);
    }
  }

  /** Stripping a text leaves its semicolons guarded, and does not turn it into comments. */
  lemma StripKeeps(a: Alphabet, s: string)
    ensures FirstSemicolon(Reading(a, s), s, 0) == None
            ==> FirstSemicolon(Reading(a, Strip(s)), Strip(s), 0) == None
    ensures OnlyComments(a, Strip(s)) ==> OnlyComments(a, s)
  {
    var p := StripLeftIs(s);
    var t := s[p..];
    var n := StripRightIs(t);
    StripLeftKeeps(a, s, p);
    StripRightKeeps(a, t, n);
  }

  lemma DropsCode(later: Reader, s: string, p: nat, read: Reader)
    requires p <= |s| && ReadsAfter(later, p, read, |s| - p)
    requires FirstSemicolon(later, s, 0) == FirstSemicolon(later, s, p)
    requires CommentsFrom(later, s, 0) <==> CommentsFrom(later, s, p)
    ensures FirstSemicolon(later, s, 0) == None ==> FirstSemicolon(read, s[p..], 0) == None
    ensures CommentsFrom(read, s[p..], 0) ==> CommentsFrom(later, s, 0)
  {
    NoneAfter(later, s, p, read, 0);
    CommentsAfter(later, s, p, read, 0);
  }

  lemma NotAfterE(s: string, p: nat)
    requires p <= |s| && Blank(s[..p])
    ensures p == 0 || !IsE(s[p - 1])
  {
    if p > 0 {
      assert s[..p][p - 1] == s[p - 1];
    }
  }

  lemma StripLeftKeeps(a: Alphabet, s: string, p: nat)
    requires p <= |s| && Blank(s[..p])
    ensures FirstSemicolon(Reading(a, s), s, 0) == None ==> FirstSemicolon(Reading(a, s[p..]), s[p..], 0) == None
    ensures OnlyComments(a, s[p..]) ==> OnlyComments(a, s)
  {
    SkipBlank(a, s, p, 0);
    NotAfterE(s, p);
    SuffixReads(a, s, p);
    DropsCode(Reading(a, s), s, p, Reading(a, s[p..]));
  }

  lemma StripRightKeeps(a: Alphabet, t: string, n: nat)
    requires n <= |t| && Blank(t[n..])
    ensures FirstSemicolon(Reading(a, t), t, 0) == None ==> FirstSemicolon(Reading(a, t[..n]), t[..n], 0) == None
    ensures OnlyComments(a, t[..n]) ==> OnlyComments(a, t)
  {
    TrimmedReads(a, t, n);
    if FirstSemicolon(Reading(a, t), t, 0) == None {
      NoneTrimmed(Reading(a, t[..n]), Reading(a, t), t, n, 0);
    }
    if OnlyComments(a, t[..n]) {
      forall j: nat | n <= j < |t| ensures Reading(a, t)(j) == j {
        assert t[n..][j - n] == t[j];
        BlankReadsCode(a, t, j);
      }
      CommentsTrimmed(Reading(a, t[..n]), Reading(a, t), t, n, 0);
    }
  }

  lemma {:induction false} KeptComesFrom(a: Alphabet, pieces: seq<string>, statement: string)
    requires statement in Kept(a, pieces)
    ensures exists piece :: piece in pieces && !OnlyComments(a, piece) && statement == Strip(piece)
  {
    if OnlyComments(a, pieces[0]) || statement != Strip(pieces[0]) {
      KeptComesFrom(a, pieces[1..], statement);
      var piece :| piece in pieces[1..] && !OnlyComments(a, piece) && statement == Strip(piece);
      assert piece in pieces;
    } else {
      assert pieces[0] in pieces;
    }
  }

  lemma OneStatement(a: Alphabet, s: string)
    requires FirstSemicolon(Reading(a, s), s, 0) == None && !OnlyComments(a, s)
    ensures Statements(a, s) == [Strip(s)]
  {
    assert Pieces(a, s) == [s] && [s][1..] == [];
    assert Kept(a, [s]) == [Strip(s)] + Kept(a, [s][1..]);
  }

  /** Splitting any statement that splitting returned gives back that one statement. */
  lemma SplitAgain(a: Alphabet, s: string, statement: string)
    requires AlphabetFits(a) && statement in Statements(a, s)
    ensures Statements(a, statement) == [statement]
  {
    KeptComesFrom(a, Pieces(a, s), statement);
    var piece :| piece in Pieces(a, s) && !OnlyComments(a, piece) && statement == Strip(piece);
    PiecesAreWhole(a, s, piece);
    StripKeeps(a, piece);
    StripTwice(piece);
    OneStatement(a, statement);
  }
}
