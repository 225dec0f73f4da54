/** The loops that split a script, over the scanner's parts. */
module SqlSplitLoop {
  import opened Wrappers
  import opened SqlScanner
  import opened SqlLocality
  import opened SqlSplit
  import opened SqlStatements

  /** The stretch from `pos` to `e` is all code, and code does not go on at `e`. */
  ghost predicate CodeRun(a: Alphabet, s: string, pos: nat, e: nat) {
    && pos < e <= |s|
    && (forall j :: pos <= j < e ==> ProtectedEnd(a, s, j) == j)
    && (e < |s| ==> ProtectedEnd(a, s, e) > e)
  }

  /** What the first of the parts from `pos` is. */
  lemma {:induction false} CodeRunParts(a: Alphabet, s: string, pos: nat, i: nat) returns (e: nat)
    requires pos < i <= |s| && forall j :: pos <= j < i ==> ProtectedEnd(a, s, j) == j
    ensures CodeRun(a, s, pos, e)
    ensures PartsFrom(a, s, pos, i) == [Part(s[pos..e], false)] + PartsFrom(a, s, e, e)
    decreases |s| - i
  {
    if i < |s| && ProtectedEnd(a, s, i) == i {
      e := CodeRunParts(a, s, pos, i + 1);
    } else {
      e := i;
    }
  }

  lemma FirstPart(a: Alphabet, s: string, pos: nat) returns (e: nat)
    requires pos < |s|
    ensures pos < e <= |s|
    ensures var guarded := ProtectedEnd(a, s, pos) > pos;
            && (if guarded then e == ProtectedEnd(a, s, pos) else CodeRun(a, s, pos, e))
            && PartsFrom(a, s, pos, pos) == [Part(s[pos..e], guarded)] + PartsFrom(a, s, e, e)
  {
    if ProtectedEnd(a, s, pos) > pos {
      e := ProtectedEnd(a, s, pos);
    } else {
      e := CodeRunParts(a, s, pos, pos + 1);
    }
  }

  lemma NoPartsLeft(a: Alphabet, s: string, pos: nat)
    requires pos <= |s| && PartsFrom(a, s, pos, pos) == []
    ensures pos == |s|
  {
    if pos < |s| {
      var e := FirstPart(a, s, pos);
    }
  }

  /** Python's `text.split(";")`. */
  function SplitOn(text: string): (r: seq<string>)
    ensures r != []
  {
    if text == "" then [""]
    else
      var rest := SplitOn(text[1..]);
      if text[0] == ';' then [""] + rest else [[text[0]] + rest[0]] + rest[1..]
  }

  /** The statements ended by, and the one left open after, reading the pieces of one code part. */
  function Ended(current: string, pieces: seq<string>): seq<string>
    requires pieces != []
  {
    if |pieces| == 1 then [] else [current + pieces[0]] + pieces[1..|pieces| - 1]
  }

  function Open(current: string, pieces: seq<string>): string
    requires pieces != []
  {
    if |pieces| == 1 then current + pieces[0] else pieces[|pieces| - 1]
  }

  lemma MorePiece(current: string, c: char, rest: seq<string>)
    requires rest != []
    ensures Ended(current, [[c] + rest[0]] + rest[1..]) == Ended(current + [c], rest)
    ensures Open(current, [[c] + rest[0]] + rest[1..]) == Open(current + [c], rest)
    ensures Ended(current, [""] + rest) == [current] + Ended("", rest)
    ensures Open(current, [""] + rest) == Open("", rest)
  {
    var joined, blank := [[c] + rest[0]] + rest[1..], [""] + rest;
    assert current + [c] + rest[0] == current + ([c] + rest[0]);
    assert current + "" == current && "" + rest[0] == rest[0];
    assert |rest| > 1 ==> joined[1..|joined| - 1] == rest[1..|rest| - 1];
    assert blank[1..|blank| - 1] == rest[..|rest| - 1];
    assert |rest| > 1 ==> rest[..|rest| - 1] == [rest[0]] + rest[1..|rest| - 1];
  }

  /** From `pos` to `e`, one pass ends the statements that `pieces` end and leaves open what they leave open. */
  ghost predicate EndsAs(read: Reader, s: string, start: nat, pos: nat, e: nat, pieces: seq<string>) {
    start <= pos <= e <= |s| && pieces != []
    && var open := Open(s[start..pos], pieces);
       && |open| <= e && open == s[e - |open|..e]
       && RawFrom(read, s, start, pos) == Ended(s[start..pos], pieces) + RawFrom(read, s, e - |open|, e)
  }

  lemma PassChar(read: Reader, s: string, start: nat, pos: nat)
    requires start <= pos < |s| && read(pos) == pos && s[pos] != ';'
    ensures RawFrom(read, s, start, pos) == RawFrom(read, s, start, pos + 1)
    ensures s[start..pos] + [s[pos]] == s[start..pos + 1]
  {
  }

  lemma EndsAfterChar(read: Reader, s: string, start: nat, pos: nat, e: nat, rest: seq<string>, pieces: seq<string>)
    requires start <= pos < e <= |s| && read(pos) == pos && s[pos] != ';'
    requires EndsAs(read, s, start, pos + 1, e, rest)
    requires pieces != [] && Open(s[start..pos], pieces) == Open(s[start..pos + 1], rest)
    requires Ended(s[start..pos], pieces) == Ended(s[start..pos + 1], rest)
    ensures EndsAs(read, s, start, pos, e, pieces)
  {
    PassChar(read, s, start, pos);
  }

  lemma EmptyPiece(ended: string, rest: seq<string>, after: seq<string>, tail: seq<string>)
    requires rest != [] && tail == Ended("", rest) + after
    ensures [ended] + tail == Ended(ended, [""] + rest) + after && Open(ended, [""] + rest) == Open("", rest)
  {
    MorePiece(ended, ';', rest);
    assert [ended] + (Ended("", rest) + after) == [ended] + Ended("", rest) + after;
  }

  lemma EndsAfterSemicolon(read: Reader, s: string, start: nat, pos: nat, e: nat, rest: seq<string>)
    requires start <= pos < e <= |s| && read(pos) == pos && s[pos] == ';'
    requires EndsAs(read, s, pos + 1, pos + 1, e, rest)
    ensures EndsAs(read, s, start, pos, e, [""] + rest)
  {
    assert s[pos + 1..pos + 1] == "";
    EmptyPiece(s[start..pos], rest, RawFrom(read, s, e - |Open("", rest)|, e), RawFrom(read, s, pos + 1, pos + 1));
    RawFromCut(read, s, start, pos);
  }

  /** Over a stretch of code, one pass ends statements exactly where `split` does. */
  lemma {:induction false} CodeIsSplit(read: Reader, s: string, start: nat, pos: nat, e: nat)
    requires start <= pos <= e <= |s| && forall j :: pos <= j < e ==> read(j) == j
    ensures EndsAs(read, s, start, pos, e, SplitOn(s[pos..e]))
    decreases e - pos
  {
    if pos == e {
      assert s[start..pos] + "" == s[start..pos];
    } else {
      if s[pos] == ';' {
        CodeIsSplit(read, s, pos + 1, pos + 1, e);
        EndsAfterSemicolon(read, s, start, pos, e, SplitOn(s[pos + 1..e]));
      } else {
        CodeIsSplit(read, s, start, pos + 1, e);
        PassChar(read, s, start, pos);
        MorePiece(s[start..pos], s[pos], SplitOn(s[pos + 1..e]));
        EndsAfterChar(read, s, start, pos, e, SplitOn(s[pos + 1..e]), SplitOn(s[pos..e]));
      }
    }
  }

  /** The loop over one code part's pieces. */
  method Absorb(current: string, text: string) returns (ended: seq<string>, open: string)
    ensures ended == Ended(current, SplitOn(text)) && open == Open(current, SplitOn(text))
  {
    var pieces := SplitOn(text);
    ended, open := [], current + pieces[0];
    for k := 1 to |pieces|
      invariant ended == if k == 1 then [] else [current + pieces[0]] + pieces[1..k - 1]
      invariant open == if k == 1 then current + pieces[0] else pieces[k - 1]
    {
      ended := ended + [open];
      open := pieces[k];
    }
  }

  /** Where the loop stands after the text up to `pos`. */
  ghost predicate SplitUpTo(read: Reader, s: string, pos: nat, ended: seq<string>, open: string) {
    && |open| <= pos <= |s| && open == s[pos - |open|..pos]
    && ended + RawFrom(read, s, pos - |open|, pos) == RawFrom(read, s, 0, 0)
  }

  lemma GuardedStep(a: Alphabet, s: string, pos: nat, e: nat, ended: seq<string>, open: string)
    requires SplitUpTo(Reading(a, s), s, pos, ended, open) && pos < |s| && ProtectedEnd(a, s, pos) == e > pos
    ensures SplitUpTo(Reading(a, s), s, e, ended, open + s[pos..e])
  {
    assert Reading(a, s)(pos) == e;
    assert s[pos - |open|..pos] + s[pos..e] == s[pos - |open|..e];
  }

  lemma PiecesStep(read: Reader, s: string, pos: nat, e: nat, ended: seq<string>, open: string, pieces: seq<string>)
    requires SplitUpTo(read, s, pos, ended, open)
    requires EndsAs(read, s, pos - |open|, pos, e, pieces)
    ensures SplitUpTo(read, s, e, ended + Ended(open, pieces), Open(open, pieces))
  {
    var left := Open(open, pieces);
    assert ended + (Ended(open, pieces) + RawFrom(read, s, e - |left|, e))
           == ended + Ended(open, pieces) + RawFrom(read, s, e - |left|, e);
  }

  lemma CodeStep(a: Alphabet, s: string, pos: nat, e: nat, ended: seq<string>, open: string)
    requires SplitUpTo(Reading(a, s), s, pos, ended, open) && CodeRun(a, s, pos, e)
    ensures var pieces := SplitOn(s[pos..e]);
            SplitUpTo(Reading(a, s), s, e, ended + Ended(open, pieces), Open(open, pieces))
  {
    CodeIsSplit(Reading(a, s), s, pos - |open|, pos, e);
    PiecesStep(Reading(a, s), s, pos, e, ended, open, SplitOn(s[pos..e]));
  }

  lemma SplitEnds(read: Reader, s: string, ended: seq<string>, open: string)
    requires SplitUpTo(read, s, |s|, ended, open)
    ensures ended + [open] == RawFrom(read, s, 0, 0)
  {
    assert s[|s| - |open|..] == open;
  }

  /** Whether a text holds nothing but comments and whitespace, part by part. */
  method IsOnlyComments(a: Alphabet, s: string) returns (only: bool)
    ensures only <==> OnlyComments(a, s)
  {
    var parts := SqlParts(a, s);
    ghost var pos := 0;
    for k := 0 to |parts|
      invariant pos <= |s| && parts[k..] == PartsFrom(a, s, pos, pos)
      invariant OnlyComments(a, s) <==> CommentsFrom(Reading(a, s), s, pos)
    {
      ghost var e := FirstPart(a, s, pos);
      assert parts[k..][0] == parts[k] && parts[k + 1..] == parts[k..][1..];
      PartDecides(a, s, pos, e);
      if !PartIsComment(parts[k]) {
        return false;
      }
      pos := e;
    }
    NoPartsLeft(a, s, pos);
    return true;
  }

  lemma {:induction false} CodeDecides(read: Reader, s: string, pos: nat, e: nat)
    requires pos <= e <= |s| && forall j :: pos <= j < e ==> read(j) == j
    ensures CommentsFrom(read, s, pos) <==> Blank(s[pos..e]) && CommentsFrom(read, s, e)
    decreases e - pos
  {
    if pos < e {
      CodeDecides(read, s, pos + 1, e);
      assert s[pos..e] == [s[pos]] + s[pos + 1..e];
      assert read(pos) == pos;
    }
  }

  lemma PartDecides(a: Alphabet, s: string, pos: nat, e: nat)
    requires pos < |s|
    requires if ProtectedEnd(a, s, pos) > pos then e == ProtectedEnd(a, s, pos) else CodeRun(a, s, pos, e)
    ensures CommentsFrom(Reading(a, s), s, pos)
            <==> PartIsComment(Part(s[pos..e], ProtectedEnd(a, s, pos) > pos)) && CommentsFrom(Reading(a, s), s, e)
  {
    if ProtectedEnd(a, s, pos) > pos {
      assert Reading(a, s)(pos) == e;
    } else {
      CodeDecides(Reading(a, s), s, pos, e);
    }
  }

  /** The texts between the code semicolons, gathered part by part. */
  method RawStatements(a: Alphabet, s: string) returns (statements: seq<string>)
    ensures statements == Pieces(a, s)
  {
    var parts := SqlParts(a, s);
    var current := "";
    statements := [];
    ghost var pos := 0;
    for k := 0 to |parts|
      invariant SplitUpTo(Reading(a, s), s, pos, statements, current)
      invariant parts[k..] == PartsFrom(a, s, pos, pos)
    {
      ghost var e := FirstPart(a, s, pos);
      assert parts[k..][0] == parts[k] && parts[k + 1..] == parts[k..][1..];
      if parts[k].guarded {
        GuardedStep(a, s, pos, e, statements, current);
        current := current + parts[k].text;
      } else {
        CodeStep(a, s, pos, e, statements, current);
        var ended, open := Absorb(current, parts[k].text);
        statements, current := statements + ended, open;
      }
      pos := e;
    }
    NoPartsLeft(a, s, pos);
    SplitEnds(Reading(a, s), s, statements, current);
    OnePassIsCutting(a, s);
    statements := statements + [current];
  }

  lemma KeptStep(a: Alphabet, statements: seq<string>, k: nat, result: seq<string>)
    requires k < |statements|
    ensures result + Kept(a, statements[k..])
            == (if OnlyComments(a, statements[k]) then result else result + [Strip(statements[k])])
               + Kept(a, statements[k + 1..])
  {
    assert statements[k..][0] == statements[k] && statements[k + 1..] == statements[k..][1..];
  }

  /** The statements of a script: cut at its code semicolons, comment-only texts dropped, the rest stripped. */
  method SplitStatements(a: Alphabet, s: string) returns (result: seq<string>)
    ensures result == Statements(a, s)
  {
    var statements := RawStatements(a, s);
    result := [];
    for k := 0 to |statements|
      invariant result + Kept(a, statements[k..]) == Kept(a, statements)
    {
      var only := IsOnlyComments(a, statements[k]);
      KeptStep(a, statements, k, result);
      if !only {
        result := result + [Strip(statements[k])];
      }
    }
  }
}
