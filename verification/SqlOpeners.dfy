/** What opens guarded text, and what the splitter makes of texts written out character by character. */
module SqlOpeners {
  import opened Wrappers
  import opened SqlScanner
  import opened SqlLocality
  import opened SqlSplit
  import opened SqlStatements

  /** The name of a dollar quote: a letter or underscore first, then letters, digits and underscores; or nothing. */
  ghost predicate IsTagName(a: Alphabet, name: string) {
    && (name != "" ==> a.letter(name[0]) || name[0] == '_')
    && forall k :: 0 <= k < |name| ==> a.alnum(name[k]) || name[k] == '_'
  }

  ghost predicate TagOpens(a: Alphabet, s: string, i: nat, end: nat) {
    i < end < |s| && s[i] == '$' && s[end] == '$' && '$' !in s[i + 1..end] && IsTagName(a, s[i + 1..end])
  }

  /** A quote of any of the three kinds, two dashes, a slash and a star, or a dollar quote's tag. */
  ghost predicate Opens(a: Alphabet, s: string, i: nat) {
    || (i < |s| && (s[i] == '\'' || s[i] == '"' || s[i] == '`'))
    || (i + 1 < |s| && s[i] == '-' && s[i + 1] == '-')
    || (i + 1 < |s| && s[i] == '/' && s[i + 1] == '*')
    || exists end: nat :: TagOpens(a, s, i, end)
  }

  lemma FoundAt(s: string, t: string, i: nat, stop: nat)
    requires i <= stop && StartsAt(s, t, stop) && forall q: nat :: i <= q < stop ==> !StartsAt(s, t, q)
    ensures FindFrom(s, t, i) == Some(stop)
  {
    FindFromIsFirst(s, t, i);
  }

  lemma DollarAt(s: string, k: nat)
    requires k < |s|
    ensures StartsAt(s, "$", k) <==> s[k] == '$'
  {
    assert "$"[0] == '$';
  }

  lemma DollarFound(s: string, i: nat, end: nat)
    requires i <= end < |s| && s[end] == '$' && '$' !in s[i..end]
    ensures FindFrom(s, "$", i) == Some(end)
  {
    forall q: nat | i <= q < end ensures !StartsAt(s, "$", q) {
      assert s[i..end][q - i] == s[q];
      DollarAt(s, q);
    }
    DollarAt(s, end);
    FoundAt(s, "$", i, end);
  }

  lemma TagFound(a: Alphabet, s: string, i: nat, end: nat)
    requires TagOpens(a, s, i, end)
    ensures DollarTagAt(a, s, i) == Some(s[i..end + 1])
  {
    DollarFound(s, i + 1, end);
  }

  lemma TagOpensAt(a: Alphabet, s: string, i: nat)
    requires i < |s| && s[i] == '$' && DollarTagAt(a, s, i).Some?
    ensures exists end: nat :: TagOpens(a, s, i, end)
  {
    var end := FindFrom(s, "$", i + 1).value;
    FindFromIsFirst(s, "$", i + 1);
    assert s[end] == "$"[0];
    forall k: nat | i + 1 <= k < end ensures s[k] != '$' {
      DollarAt(s, k);
    }
    assert TagOpens(a, s, i, end);
  }

  /** Guarded text opens exactly there. */
  lemma GuardOpens(a: Alphabet, s: string, i: nat)
    requires i < |s|
    ensures ProtectedEnd(a, s, i) > i <==> Opens(a, s, i)
  {
    if PairAt(s, i, '-', '-') {
      var end := FindFrom(s, "\n", i);
      if end.Some? {
        assert s[end.value] == "\n"[0];
      }
    } else if s[i] == '$' {
      if end: nat :| TagOpens(a, s, i, end) {
        TagFound(a, s, i, end);
      }
      if DollarTagAt(a, s, i).Some? {
        TagOpensAt(a, s, i);
      }
    }
  }

  // A text in which nothing opens.

  lemma OpensInSuffix(a: Alphabet, s: string, p: nat, j: nat)
    requires p <= |s| && Opens(a, s[p..], j)
    ensures Opens(a, s, p + j)
  {
    if end: nat :| TagOpens(a, s[p..], j, end) {
      assert s[p..][j + 1..end] == s[p + j + 1..p + end];
      assert TagOpens(a, s, p + j, p + end);
    }
  }

  lemma {:induction false} AllCodeFirst(read: Reader, s: string, i: nat)
    requires forall j {:trigger read(j)} :: 0 <= j < |s| ==> read(j) == j
    ensures var k := FirstSemicolon(read, s, i);
            forall j :: i <= j < (if k.Some? then k.value else |s|) ==> s[j] != ';'
    decreases |s| - i
  {
    if i < |s| {
      assert read(i) == i;
      if s[i] != ';' {
        AllCodeFirst(read, s, i + 1);
      }
    }
  }

  /** It is cut at every semicolon: the pieces hold none, and rejoin to the text. */
  lemma {:induction false} CutAtEverySemicolon(a: Alphabet, s: string)
    requires forall i: nat :: !Opens(a, s, i)
    ensures Joined(Pieces(a, s)) == s
    ensures forall piece :: piece in Pieces(a, s) ==> ';' !in piece
    decreases |s|
  {
    PiecesJoin(a, s);
    var k := FirstSemicolon(Reading(a, s), s, 0);
    PiecesStep(a, s, k);
    forall j: nat | j < |s| ensures Reading(a, s)(j) == j {
      GuardOpens(a, s, j);
    }
    AllCodeFirst(Reading(a, s), s, 0);
    if k.Some? {
      var rest := s[k.value + 1..];
      forall i: nat ensures !Opens(a, rest, i) {
        if Opens(a, rest, i) {
          OpensInSuffix(a, s, k.value + 1, i);
        }
      }
      CutAtEverySemicolon(a, rest);
    }
  }

  // A text with one guarded stretch between plain ones.

  /** No character that could open anything, and no semicolon. */
  ghost predicate Plain(s: string) {
    forall c :: c in s ==> c != '\'' && c != '"' && c != '`' && c != '-' && c != '/' && c != '$' && c != ';'
  }

  lemma PlainIsCode(a: Alphabet, s: string, i: nat)
    requires i < |s| && Plain([s[i]])
    ensures ProtectedEnd(a, s, i) == i && s[i] != ';'
  {
    assert s[i] in [s[i]];
  }

  /** `read` finds code without semicolons up to `p` and from `e` on, and jumps from `p` to `e`. */
  ghost predicate OneJump(read: Reader, s: string, p: nat, e: nat) {
    && p < e <= |s| && read(p) == e
    && forall j {:trigger read(j)} :: 0 <= j < p || e <= j < |s| ==> read(j) == j && s[j] != ';'
  }

  lemma {:induction false} NoSemicolonFrom(read: Reader, s: string, p: nat, e: nat, i: nat)
    requires OneJump(read, s, p, e) && (i <= p || e <= i)
    ensures FirstSemicolon(read, s, i) == None
    decreases |s| - i
  {
    if i < |s| {
      assert i != p ==> read(i) == i;
      NoSemicolonFrom(read, s, p, e, Next(read, i));
    }
  }

  lemma {:induction false} CommentsFromJump(read: Reader, s: string, p: nat, e: nat, i: nat)
    requires OneJump(read, s, p, e) && (i <= p || e <= i <= |s|)
    ensures CommentsFrom(read, s, i) <==>
            if i <= p then Blank(s[i..p]) && OpensComment(s, p) && Blank(s[e..]) else Blank(s[i..])
    decreases |s| - i
  {
    if i < |s| {
      assert i != p ==> read(i) == i;
      CommentsFromJump(read, s, p, e, Next(read, i));
      if i < p {
        assert s[i..p] == [s[i]] + s[i + 1..p];
      } else if e <= i {
        assert s[i..] == [s[i]] + s[i + 1..];
      }
    }
  }

  lemma JumpsOverGuard(a: Alphabet, s: string, before: string, guarded: string, after: string)
    requires s == before + guarded + after && Plain(before) && Plain(after) && guarded != ""
    requires ProtectedEnd(a, s, |before|) == |before + guarded|
    ensures OneJump(Reading(a, s), s, |before|, |before + guarded|)
  {
    var read, e := Reading(a, s), |before + guarded|;
    forall j: nat | j < |before| ensures read(j) == j && s[j] != ';' {
      assert s[j] == before[j] && before[j] in before;
      PlainIsCode(a, s, j);
    }
    forall j | e <= j < |s| ensures read(j) == j && s[j] != ';' {
      assert s[j] == after[j - e] && after[j - e] in after;
      PlainIsCode(a, s, j);
    }
  }

  lemma KeptAlone(a: Alphabet, s: string)
    ensures Kept(a, [s]) == if OnlyComments(a, s) then [] else [Strip(s)]
  {
    assert [s][1..] == [];
  }

  /** The splitter leaves such a text whole. */
  lemma OneGuard(a: Alphabet, s: string, before: string, guarded: string, after: string)
    requires s == before + guarded + after && Plain(before) && Plain(after) && guarded != ""
    requires ProtectedEnd(a, s, |before|) == |before + guarded|
    ensures Pieces(a, s) == [s]
    ensures OnlyComments(a, s) <==> Blank(before) && OpensComment(s, |before|) && Blank(after)
    ensures Statements(a, s) == if OnlyComments(a, s) then [] else [Strip(s)]
  {
    var read, p, e := Reading(a, s), |before|, |before + guarded|;
    JumpsOverGuard(a, s, before, guarded, after);
    NoSemicolonFrom(read, s, p, e, 0);
    PiecesStep(a, s, None);
    CommentsFromJump(read, s, p, e, 0);
    assert s[0..p] == before && s[e..] == after;
    KeptAlone(a, s);
  }

  lemma {:induction false} LiteralReads(s: string, e: nat, stop: nat, quote: char, escaped: bool)
    requires e <= stop < |s| && s[stop] == quote && !PairAt(s, stop, quote, quote) && (escaped ==> quote != '\\')
    requires forall k :: e <= k < stop ==> s[k] != quote && (escaped ==> s[k] != '\\')
    ensures LiteralEnd(s, e, quote, escaped) == stop + 1
    decreases stop - e
  {
    if e < stop {
      LiteralReads(s, e + 1, stop, quote, escaped);
    }
  }

  /** Between two quotes of one kind, with none inside nor, behind an E, a backslash, semicolons are text: one
      statement. */
  lemma QuotedStaysWhole(a: Alphabet, before: string, quote: char, body: string, after: string)
    requires quote == '\'' || quote == '"' || quote == '`'
    requires Plain(before) && Plain(after) && quote !in body
    requires quote == '\'' && before != "" && (before[|before| - 1] == 'E' || before[|before| - 1] == 'e') ==>
               '\\' !in body
    ensures var s := before + ([quote] + body + [quote]) + after; Statements(a, s) == [Strip(s)]
  {
    var guarded := [quote] + body + [quote];
    var s, i := before + guarded + after, |before|;
    var stop := i + 1 + |body|;
    assert s[i] == quote == s[stop];
    assert i > 0 ==> s[i - 1] == before[i - 1];
    forall k | i + 1 <= k < stop ensures s[k] in body {
      assert s[k] == body[k - i - 1];
    }
    if stop + 1 < |s| {
      assert s[stop + 1] == after[0];
      assert after[0] in after;
    }
    LiteralReads(s, i + 1, stop, quote, OpensEscaped(s, i));
    OneGuard(a, s, before, guarded, after);
  }

  lemma {:induction false} EscapedReads(s: string, e: nat, mid: nat, stop: nat)
    requires e <= mid && mid + 2 <= stop < |s| && s[mid] == '\\' && s[stop] == '\'' && !PairAt(s, stop, '\'', '\'')
    requires forall k :: e <= k < mid || mid + 2 <= k < stop ==> s[k] != '\'' && s[k] != '\\'
    ensures LiteralEnd(s, e, '\'', true) == stop + 1
    decreases mid - e
  {
    if e < mid {
      EscapedReads(s, e + 1, mid, stop);
    } else {
      LiteralReads(s, mid + 2, stop, '\'', true);
    }
  }

  /** Behind an E or e, a quote after a backslash is text too. */
  lemma EscapedQuoteStaysWhole(a: Alphabet, before: string, x: string, y: string, after: string)
    requires Plain(before) && Plain(after) && before != ""
    requires before[|before| - 1] == 'E' || before[|before| - 1] == 'e'
    requires '\'' !in x + y && '\\' !in x + y
    ensures var s := before + ("'" + x + "\\'" + y + "'") + after; Statements(a, s) == [Strip(s)]
  {
    var guarded := "'" + x + "\\'" + y + "'";
    var s, i := before + guarded + after, |before|;
    var mid, stop := i + 1 + |x|, i + 3 + |x| + |y|;
    assert s[i] == '\'' && s[i - 1] == before[i - 1] && s[mid] == '\\' && s[stop] == '\'';
    forall k | i + 1 <= k < mid || mid + 2 <= k < stop ensures s[k] in x + y {
      assert s[k] == (x + y)[if k < mid then k - i - 1 else k - i - 3];
    }
    if stop + 1 < |s| {
      assert s[stop + 1] == after[0];
      assert after[0] in after;
    }
    EscapedReads(s, i + 1, mid, stop);
    OneGuard(a, s, before, guarded, after);
  }

  /** Two dashes guard the rest of their line. */
  lemma LineCommentStaysWhole(a: Alphabet, before: string, body: string, after: string)
    requires Plain(before) && Plain(after) && '\n' !in body
    ensures var s := before + ("--" + body) + ("\n" + after);
            Pieces(a, s) == [s] && Statements(a, s) == if Blank(before + after) then [] else [Strip(s)]
  {
    var guarded, rest := "--" + body, "\n" + after;
    var s, i := before + guarded + rest, |before|;
    var stop := i + |guarded|;
    assert s[i] == '-' == s[i + 1] && s[stop] == '\n';
    forall q: nat | i <= q < stop ensures !StartsAt(s, "\n", q) {
      assert s[q] == guarded[q - i];
      assert q >= i + 2 ==> guarded[q - i] == body[q - i - 2] && body[q - i - 2] in body;
      assert "\n"[0] == '\n';
    }
    assert StartsAt(s, "\n", stop);
    FoundAt(s, "\n", i, stop);
    assert Plain(rest) by {
      forall c | c in rest ensures c == '\n' || c in after {
      }
    }
    OneGuard(a, s, before, guarded, rest);
    BlankJoin(before, after);
    BlankJoin("\n", after);
  }

  lemma BlankJoin(x: string, y: string)
    ensures Blank(x + y) <==> Blank(x) && Blank(y)
  {
    assert forall k :: 0 <= k < |x| ==> (x + y)[k] == x[k];
    forall k | 0 <= k < |y| ensures (x + y)[|x| + k] == y[k] {
    }
  }

  lemma {:induction false} CommentReads(s: string, e: nat, stop: nat)
    requires e <= stop && PairAt(s, stop, '*', '/')
    requires forall k: nat :: e <= k < stop ==> !PairAt(s, k, '/', '*') && !PairAt(s, k, '*', '/')
    ensures CommentEnd(s, e, 1) == stop + 2
    decreases stop - e
  {
    if e < stop {
      CommentReads(s, e + 1, stop);
    }
  }

  /** A slash and a star guard up to the star and slash, when neither pair begins in between. */
  lemma BlockCommentStaysWhole(a: Alphabet, before: string, body: string, after: string)
    requires Plain(before) && Plain(after)
    requires forall k: nat :: k < |body| ==> !PairAt(body + "*/", k, '/', '*') && !PairAt(body + "*/", k, '*', '/')
    ensures var s := before + ("/*" + body + "*/") + after;
            Pieces(a, s) == [s] && Statements(a, s) == if Blank(before + after) then [] else [Strip(s)]
  {
    var guarded := "/*" + body + "*/";
    var s, i := before + guarded + after, |before|;
    var stop := i + 2 + |body|;
    assert s[i] == '/' && s[i + 1] == '*' && s[stop] == '*' && s[stop + 1] == '/';
    forall k: nat | i + 2 <= k < stop ensures !PairAt(s, k, '/', '*') && !PairAt(s, k, '*', '/') {
      var j := k - i - 2;
      assert s[k] == (body + "*/")[j] && s[k + 1] == (body + "*/")[j + 1];
      assert !PairAt(body + "*/", j, '/', '*') && !PairAt(body + "*/", j, '*', '/');
    }
    CommentReads(s, i + 2, stop);
    OneGuard(a, s, before, guarded, after);
    BlankJoin(before, after);
  }

  lemma StartsInside(s: string, before: string, text: string, after: string, t: string, k: nat)
    requires s == before + text + after && k + |t| <= |text|
    ensures StartsAt(s, t, |before| + k) <==> StartsAt(text, t, k)
  {
    assert forall j :: 0 <= j < |text| ==> s[|before| + j] == text[j];
    assert StartsAt(s, t, |before| + k) ==> forall j :: 0 <= j < |t| ==> t[j] == s[|before| + k + j] == text[k + j];
    assert StartsAt(text, t, k) ==> forall j :: 0 <= j < |t| ==> t[j] == text[k + j] == s[|before| + k + j];
  }

  lemma DollarReads(a: Alphabet, s: string, i: nat, end: nat, tag: string, stop: nat)
    requires TagOpens(a, s, i, end) && tag == s[i..end + 1] && i + |tag| <= stop && StartsAt(s, tag, stop)
    requires forall q: nat :: i + |tag| <= q < stop ==> !StartsAt(s, tag, q)
    ensures ProtectedEnd(a, s, i) == stop + |tag|
  {
    TagFound(a, s, i, end);
    FoundAt(s, tag, i + |tag|, stop);
  }

  lemma Regrouped(before: string, tag: string, body: string, after: string)
    ensures before + (tag + body + tag) + after == (before + tag) + (body + tag) + after
    ensures before + (tag + body + tag) + after == before + (tag + (body + tag + after))
  {
    assert before + (tag + body + tag) == (before + tag) + (body + tag);
  }

  /** A dollar quote guards up to its tag's next occurrence. */
  lemma DollarQuoteStaysWhole(a: Alphabet, before: string, name: string, tag: string, body: string, after: string)
    requires Plain(before) && Plain(after) && IsTagName(a, name) && '$' !in name && tag == "$" + name + "$"
    requires forall k: nat :: k < |body| ==> !StartsAt(body + tag, tag, k)
    ensures var s := before + (tag + body + tag) + after; Statements(a, s) == [Strip(s)]
  {
    var guarded := tag + body + tag;
    var s, i := before + guarded + after, |before|;
    var end := i + 1 + |name|;
    Regrouped(before, tag, body, after);
    TagStands(a, s, before, name, tag, body + tag + after, end);
    TagComesAgain(s, before + tag, body, tag, after);
    DollarReads(a, s, i, end, tag, i + |tag| + |body|);
    OneGuard(a, s, before, guarded, after);
  }

  lemma TagComesAgain(s: string, opening: string, body: string, tag: string, after: string)
    requires s == opening + (body + tag) + after && forall k: nat :: k < |body| ==> !StartsAt(body + tag, tag, k)
    ensures StartsAt(s, tag, |opening| + |body|)
    ensures forall q: nat :: |opening| <= q < |opening| + |body| ==> !StartsAt(s, tag, q)
  {
    forall q: nat | |opening| <= q < |opening| + |body| ensures !StartsAt(s, tag, q) {
      StartsInside(s, opening, body + tag, after, tag, q - |opening|);
    }
    StartsInside(s, opening, body + tag, after, tag, |body|);
  }

  lemma TagStands(a: Alphabet, s: string, before: string, name: string, tag: string, rest: string, end: nat)
    requires IsTagName(a, name) && '$' !in name && tag == "$" + name + "$" && end == |before| + 1 + |name|
    requires s == before + (tag + rest)
    ensures TagOpens(a, s, |before|, end) && s[|before|..end + 1] == tag
  {
    assert s[|before|..end + 1] == tag && s[|before| + 1..end] == name;
    assert tag[0] == '$' == tag[|name| + 1] && s[|before|] == tag[0] && s[end] == tag[|name| + 1];
  }
}
