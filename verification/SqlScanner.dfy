/** The SQL scanner: which stretches of a text are quoted or comments, and which are code. */
module SqlScanner {
  import opened Wrappers

  /** The character classes a dollar-quote tag is read with: letters, and letters or digits. */
  datatype Alphabet = Alphabet(letter: char -> bool, alnum: char -> bool)

  ghost predicate AlphabetFits(a: Alphabet) {
    !a.alnum('$') && !a.alnum(';')
  }

  predicate PairAt(s: string, i: nat, c: char, d: char) {
    i + 1 < |s| && s[i] == c && s[i + 1] == d
  }

  predicate StartsAt(s: string, t: string, i: nat) {
    i + |t| <= |s| && forall j :: 0 <= j < |t| ==> s[i + j] == t[j]
  }

  /** The first position at or after `i` where `t` occurs. */
  function FindFrom(s: string, t: string, i: nat): (r: Option<nat>)
    ensures r.Some? ==> i <= r.value && StartsAt(s, t, r.value)
    decreases |s| - i
  {
    if StartsAt(s, t, i) then Some(i) else if i >= |s| then None else FindFrom(s, t, i + 1)
  }

  lemma {:induction false} FindFromIsFirst(s: string, t: string, i: nat)
    ensures forall q: nat :: i <= q && (FindFrom(s, t, i).Some? ==> q < FindFrom(s, t, i).value) ==> !StartsAt(s, t, q)
    decreases |s| - i
  {
    if !StartsAt(s, t, i) && i < |s| {
      FindFromIsFirst(s, t, i + 1);
    }
  }

  /** The end of a block comment whose nesting is `depth` at `e`; an unclosed one runs to the end of the text. */
  function CommentEnd(s: string, e: nat, depth: nat): (r: nat)
    requires e <= |s|
    ensures e <= r <= |s|
    ensures depth > 0 && e < |s| ==> e < r
    decreases |s| - e
  {
    if e == |s| || depth == 0 then e
    else if PairAt(s, e, '/', '*') then CommentEnd(s, e + 2, depth + 1)
    else if PairAt(s, e, '*', '/') then CommentEnd(s, e + 2, depth - 1)
    else CommentEnd(s, e + 1, depth)
  }

  /** The end of quoted text read on from `e`: a doubled quote is text, and so is an escaped character. */
  function LiteralEnd(s: string, e: nat, quote: char, escaped: bool): (r: nat)
    ensures r <= |s|
    ensures e < |s| ==> e < r
    decreases |s| - e
  {
    if e >= |s| then |s|
    else if escaped && s[e] == '\\' then LiteralEnd(s, e + 2, quote, escaped)
    else if s[e] == quote then
      if PairAt(s, e, quote, quote) then LiteralEnd(s, e + 2, quote, escaped) else e + 1
    else LiteralEnd(s, e + 1, quote, escaped)
  }

  predicate IsQuote(c: char) {
    c == '\'' || c == '"' || c == '`'
  }

  predicate IsE(c: char) {
    c == 'E' || c == 'e'
  }

  /** Whether a quote at `i` opens an E-string, in which a backslash escapes. */
  predicate OpensEscaped(s: string, i: nat)
    requires i < |s|
  {
    s[i] == '\'' && i > 0 && IsE(s[i - 1])
  }

  predicate IsTagBody(a: Alphabet, body: string) {
    && (body == "" || a.letter(body[0]) || body[0] == '_')
    && forall k :: 0 <= k < |body| ==> a.alnum(body[k]) || body[k] == '_'
  }

  /** The dollar-quote tag at `i`, such as `$$` or `$fn$`, if one starts there. */
  function DollarTagAt(a: Alphabet, s: string, i: nat): (r: Option<string>)
    requires i < |s| && s[i] == '$'
    ensures r.Some? ==> |r.value| >= 2 && StartsAt(s, r.value, i) && r.value[|r.value| - 1] == '$'
  {
    TagEnding(a, s, i, FindFrom(s, "$", i + 1))
  }

  /** The tag from the dollar at `i` to the next one, when only a tag's characters lie between. */
  function TagEnding(a: Alphabet, s: string, i: nat, end: Option<nat>): (r: Option<string>)
    requires i < |s| && s[i] == '$' && (end.Some? ==> i < end.value && StartsAt(s, "$", end.value))
    ensures r.Some? ==> |r.value| >= 2 && StartsAt(s, r.value, i) && r.value[|r.value| - 1] == '$'
  {
    if end.None? then None
    else
      assert s[end.value] == "$"[0];
      if IsTagBody(a, s[i + 1..end.value]) then Some(s[i..end.value + 1]) else None
  }

  /** A line comment runs to its line's end. */
  function LineEnd(s: string, i: nat): (end: nat)
    requires i < |s|
    ensures i <= end <= |s|
  {
    var end := FindFrom(s, "\n", i);
    if end.None? then |s| else end.value
  }

  /** A dollar-quoted text runs to its tag's next occurrence; a dollar that opens no tag is code. */
  function DollarEnd(a: Alphabet, s: string, i: nat): (end: nat)
    requires i < |s| && s[i] == '$'
    ensures i <= end <= |s|
  {
    ClosedEnd(s, i, DollarTagAt(a, s, i))
  }

  /** The end of text quoted by the tag that starts at `i`, if one does; an unclosed one runs to the end of the text. */
  function ClosedEnd(s: string, i: nat, tag: Option<string>): (end: nat)
    requires i <= |s| && (tag.Some? ==> i + |tag.value| <= |s|)
    ensures i <= end <= |s|
  {
    if tag.None? then i
    else
      var close := FindFrom(s, tag.value, i + |tag.value|);
      if close.None? then |s| else close.value + |tag.value|
  }

  /** Where the quoted text or comment that opens at `i` ends; `i` itself when the character is code. */
  function ProtectedEnd(a: Alphabet, s: string, i: nat): (end: nat)
    requires i < |s|
    ensures i <= end <= |s|
  {
    if PairAt(s, i, '-', '-') then LineEnd(s, i)
    else if PairAt(s, i, '/', '*') then CommentEnd(s, i + 2, 1)
    else if IsQuote(s[i]) then LiteralEnd(s, i + 1, s[i], OpensEscaped(s, i))
    else if s[i] == '$' then DollarEnd(a, s, i)
    else i
  }

  datatype Part = Part(text: string, guarded: bool)

  /** The code read since `start`, if any. */
  function CodePart(s: string, start: nat, i: nat): seq<Part>
    requires start <= i <= |s|
  {
    if start < i then [Part(s[start..i], false)] else []
  }

  /** The parts from `i` on, with code read since `start`. */
  function PartsFrom(a: Alphabet, s: string, start: nat, i: nat): seq<Part>
    requires start <= i <= |s|
    decreases |s| - i
  {
    if i == |s| then CodePart(s, start, i)
    else
      var end := ProtectedEnd(a, s, i);
      if end == i then PartsFrom(a, s, start, i + 1)
      else CodePart(s, start, i) + [Part(s[i..end], true)] + PartsFrom(a, s, end, end)
  }

  /** Code and guarded parts in one pass over the text. */
  method SqlParts(a: Alphabet, s: string) returns (parts: seq<Part>)
    ensures parts == PartsFrom(a, s, 0, 0)
  {
    parts := [];
    var i, start := 0, 0;
    while i < |s|
      invariant start <= i <= |s|
      invariant parts + PartsFrom(a, s, start, i) == PartsFrom(a, s, 0, 0)
    {
      var end := GuardedEnd(a, s, i);
      PartsStep(a, s, start, i, end, parts);
      if end > i {
        if start < i {
          parts := parts + [Part(s[start..i], false)];
        }
        parts := parts + [Part(s[i..end], true)];
        i, start := end, end;
      } else {
        i := i + 1;
      }
    }
    if start < |s| {
      parts := parts + [Part(s[start..], false)];
      assert s[start..] == s[start..|s|];
    }
  }

  /** One step of the loop, as the parts see it. */
  lemma PartsStep(a: Alphabet, s: string, start: nat, i: nat, end: nat, parts: seq<Part>)
    requires start <= i < |s| && end == ProtectedEnd(a, s, i)
    ensures end == i ==> PartsFrom(a, s, start, i) == PartsFrom(a, s, start, i + 1)
    ensures end > i ==> parts + PartsFrom(a, s, start, i)
                        == (if start < i then parts + [Part(s[start..i], false)] else parts) + [Part(s[i..end], true)]
                           + PartsFrom(a, s, end, end)
  {
    if end > i {
      var code, guarded, rest := CodePart(s, start, i), [Part(s[i..end], true)], PartsFrom(a, s, end, end);
      assert parts + (code + guarded + rest) == parts + code + guarded + rest;
      assert parts + [] == parts;
    }
  }

  /** The scanner's inner loops. */
  method GuardedEnd(a: Alphabet, s: string, i: nat) returns (end: nat)
    requires i < |s|
    ensures end == ProtectedEnd(a, s, i)
  {
    end := i;
    if PairAt(s, i, '-', '-') {
      var found := FindFrom(s, "\n", i);
      end := if found.None? then |s| else found.value;
    } else if PairAt(s, i, '/', '*') {
      var depth := 1;
      end := i + 2;
      while end < |s| && depth > 0
        invariant end <= |s|
        invariant CommentEnd(s, end, depth) == CommentEnd(s, i + 2, 1)
        decreases |s| - end
      {
        if PairAt(s, end, '/', '*') {
          depth, end := depth + 1, end + 2;
        } else if PairAt(s, end, '*', '/') {
          depth, end := depth - 1, end + 2;
        } else {
          end := end + 1;
        }
      }
    } else if IsQuote(s[i]) {
      end := EndOfStringLiteral(s, i, s[i]);
    } else if s[i] == '$' {
      var tag := DollarTagAt(a, s, i);
      if tag.Some? {
        var close := FindFrom(s, tag.value, i + |tag.value|);
        end := if close.None? then |s| else close.value + |tag.value|;
      }
    }
  }

  method EndOfStringLiteral(s: string, start: nat, quote: char) returns (end: nat)
    requires start < |s| && s[start] == quote
    ensures end == LiteralEnd(s, start + 1, quote, OpensEscaped(s, start))
  {
    end := start + 1;
    var escaped := quote == '\'' && start > 0 && IsE(s[start - 1]);
    while end < |s|
      invariant LiteralEnd(s, end, quote, escaped) == LiteralEnd(s, start + 1, quote, escaped)
      decreases |s| - end
    {
      if escaped && s[end] == '\\' {
        end := end + 2;
        continue;
      }
      if s[end] == quote {
        if end + 1 < |s| && s[end + 1] == quote {
          end := end + 2;
          continue;
        }
        return end + 1;
      }
      end := end + 1;
    }
    return |s|;
  }

  function Texts(parts: seq<Part>): string {
    if parts == [] then "" else parts[0].text + Texts(parts[1..])
  }

  lemma {:induction false} TextsJoin(p: seq<Part>, q: seq<Part>)
    ensures Texts(p + q) == Texts(p) + Texts(q)
  {
    if p == [] {
      assert p + q == q;
    } else {
      assert (p + q)[1..] == p[1..] + q;
      TextsJoin(p[1..], q);
    }
  }

  lemma JoinedAt(s: string, start: nat, i: nat, end: nat)
    requires start <= i <= end <= |s|
    ensures s[start..i] + s[i..end] + s[end..] == s[start..]
  {
    assert s[start..end] == s[start..i] + s[i..end];
    assert s[start..] == s[start..end] + s[end..];
  }

  lemma PartsStepIsText(s: string, start: nat, i: nat, end: nat, rest: seq<Part>)
    requires start <= i < end <= |s| && Texts(rest) == s[end..]
    ensures Texts(CodePart(s, start, i) + [Part(s[i..end], true)] + rest) == s[start..]
  {
    var code, guarded := CodePart(s, start, i), [Part(s[i..end], true)];
    TextsJoin(code + guarded, rest);
    TextsJoin(code, guarded);
    assert guarded[1..] == [];
    assert Texts(guarded) == s[i..end];
    assert Texts(code) == s[start..i] by {
      assert start < i ==> code[1..] == [];
    }
    JoinedAt(s, start, i, end);
  }

  /** The parts are the text, cut up: none is empty and together they are the input. */
  lemma {:induction false} PartsAreText(a: Alphabet, s: string, start: nat, i: nat)
    requires start <= i <= |s|
    ensures Texts(PartsFrom(a, s, start, i)) == s[start..]
    ensures forall part :: part in PartsFrom(a, s, start, i) ==> part.text != ""
    decreases |s| - i
  {
    if i == |s| {
      assert start < i ==> CodePart(s, start, i)[1..] == [];
      assert s[start..i] == s[start..];
    } else {
      var end := ProtectedEnd(a, s, i);
      if end == i {
        PartsAreText(a, s, start, i + 1);
      } else {
        PartsAreText(a, s, end, end);
        PartsStepIsText(s, start, i, end, PartsFrom(a, s, end, end));
      }
    }
  }
}
