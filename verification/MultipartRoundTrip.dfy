/** Bodies as a client frames them, byte by byte, and exactly which of them come back unchanged. */
module MultipartRoundTrip {
  import opened Wrappers
  import opened Bytes
  import opened MultipartFormat
  import opened MultipartDecoder
  import opened MultipartSlicing
  import opened MultipartDecision
  import opened MultipartExactness

  // Bytes are written out: 13 10 is CR LF, 45 45 two dashes.

  /** A boundary the decoder admits: 1 to 70 printable ASCII bytes behind the two dashes. */
  predicate BoundaryFits(fmt: Format) {
    && 3 <= |fmt.boundary| <= 72
    && fmt.boundary[..2] == [45, 45]
    && forall i :: 0 <= i < |fmt.boundary| ==> 32 <= fmt.boundary[i] <= 126
  }

  /** What follows a boundary line: the next part with its own closing boundary line, or two dashes and the ending. */
  function Following(fmt: Format, parts: seq<Part>, ending: seq<byte>): (r: seq<byte>)
    ensures |r| >= 2
  {
    if parts == [] then [45, 45] + ending
    else
      [13, 10] + (parts[0].header + [13, 10, 13, 10]
                  + (parts[0].content + ([13, 10] + fmt.boundary + Following(fmt, parts[1..], ending))))
  }

  /** The body of all parts: each content stands between blank line and boundary line. */
  function Framed(fmt: Format, parts: seq<Part>, ending: seq<byte>): seq<byte> {
    fmt.boundary + Following(fmt, parts, ending)
  }

  /** What the client sends: one part, and CRLF at the end. */
  function ClientBody(fmt: Format, header: seq<byte>, content: seq<byte>): seq<byte> {
    fmt.boundary + [13, 10] + header + [13, 10, 13, 10] + content + [13, 10] + fmt.boundary + [45, 45, 13, 10]
  }

  /** The client's header block: two nonempty lines without CR. */
  ghost predicate TwoLines(header: seq<byte>, first: seq<byte>, second: seq<byte>) {
    header == first + [13, 10] + second && second != [] && 13 !in first && 13 !in second
  }

  /** The blank line after the block is the first one. */
  predicate HeaderFits(header: seq<byte>) {
    forall q: nat :: q < |header| ==> !At(header + [13, 10, 13, 10], [13, 10, 13, 10], q)
  }

  /** Nowhere in the content is CRLF and the boundary line followed by `--`, by CRLF, or by the end of the content. */
  predicate ContentFits(fmt: Format, content: seq<byte>) {
    forall p: nat :: p < |content| && At(content, [13, 10] + fmt.boundary, p) ==>
      var rest := content[p + 2 + |fmt.boundary|..];
      rest != [] && !([45, 45] <= rest) && !([13, 10] <= rest)
  }

  lemma ClientHeaderFits(header: seq<byte>, first: seq<byte>, second: seq<byte>)
    requires TwoLines(header, first, second)
    ensures HeaderFits(header)
  {
    var all := header + [13, 10, 13, 10];
    forall q: nat | q < |header| ensures !At(all, [13, 10, 13, 10], q) {
      assert q < |first| ==> all[q] == first[q];
      assert q == |first| ==> all[q + 2] == second[0];
      assert q == |first| + 1 ==> all[q] == 10;
      assert q > |first| + 1 ==> all[q] == second[q - |first| - 2];
    }
  }

  lemma HeaderEndsAtBlankLine(header: seq<byte>, rest: seq<byte>)
    requires HeaderFits(header)
    ensures Find(header + [13, 10, 13, 10] + rest, BLANK_LINE) == Some(|header|)
  {
    var block, all := header + [13, 10, 13, 10], header + [13, 10, 13, 10] + rest;
    assert all[|header|..|header| + 4] == BLANK_LINE;
    forall q: nat | q < |header| ensures !At(all, BLANK_LINE, q) {
      assert !At(block, BLANK_LINE, q) && all[q..q + 4] == block[q..q + 4];
    }
    FindIs(all, BLANK_LINE, |header|);
  }

  /** A content that does not fit holds a marker before `--`, CRLF or its own end. */
  ghost predicate Clashes(fmt: Format, content: seq<byte>, q: nat) {
    At(content, Marker(fmt), q)
    && var rest := content[q + |Marker(fmt)|..]; rest == [] || DASHES <= rest || CRLF <= rest
  }

  lemma FitsWithoutClash(fmt: Format, content: seq<byte>)
    ensures ContentFits(fmt, content) <==> forall q: nat :: q < |content| ==> !Clashes(fmt, content, q)
  {
    var line := [13, 10] + fmt.boundary;
    assert Marker(fmt) == line && |line| == 2 + |fmt.boundary|;
    forall q: nat | q < |content|
      ensures Clashes(fmt, content, q) <==>
              At(content, line, q)
              && var rest := content[q + |line|..]; rest == [] || [45, 45] <= rest || [13, 10] <= rest
    {
    }
    if !ContentFits(fmt, content) {
      var p: nat :| p < |content| && At(content, line, p)
                    && var rest := content[p + |line|..]; rest == [] || [45, 45] <= rest || [13, 10] <= rest;
      assert Clashes(fmt, content, p);
    } else {
      forall q: nat | q < |content| ensures !Clashes(fmt, content, q) {
        assert At(content, line, q) ==>
            var rest := content[q + |line|..]; rest != [] && !([45, 45] <= rest) && !([13, 10] <= rest);
      }
    }
  }

  /** A delimiter that starts in the content is one the content itself makes, or one its end makes with what follows. */
  lemma DelimiterInContent(fmt: Format, content: seq<byte>, tail: seq<byte>, q: nat)
    requires BoundaryFits(fmt) && q < |content| && Marker(fmt) <= tail
    ensures Delimiter(fmt, content + tail, q) <==> Clashes(fmt, content, q)
  {
    var marker, all := Marker(fmt), content + tail;
    var after := q + |marker|;
    if after <= |content| {
      AtPrefix(content, tail, marker, q);
      var rest := content[after..];
      var suffix := all[after..after + 2];
      if |rest| >= 2 {
        assert suffix == rest[..2];
      } else if |rest| == 1 {
        assert suffix == [rest[0], CR];
      } else {
        assert suffix == tail[..2] == CRLF;
      }
    } else {
      assert all[|content|] == tail[0] == CR;
    }
  }

  /** A content that fits is read whole, and what follows its boundary line decides how it goes on. */
  lemma FittingContentIsRead(fmt: Format, limit: nat, before: seq<Part>, part: Part, next: seq<byte>)
    requires BoundaryFits(fmt) && ContentFits(fmt, part.content) && |next| >= 2
    requires next[..2] == DASHES || next[..2] == CRLF
    ensures Outcome(fmt, limit, Body, before + [Part(part.header, [])], part.content + (Marker(fmt) + next))
            == AfterPart(fmt, limit, before + [part], next[..2], next[2..])
  {
    var content, tail := part.content, Marker(fmt) + next;
    var all, after := content + tail, |content| + |Marker(fmt)|;
    FitsWithoutClash(fmt, content);
    forall q: nat | q < |content| ensures !Delimiter(fmt, all, q) {
      DelimiterInContent(fmt, content, tail, q);
    }
    assert all[after..after + 2] == next[..2] && all[after + 2..] == next[2..];
    assert At(all, Marker(fmt), |content|);
    FirstDelimiterIs(fmt, all, |content|);
    BodyCut(fmt, limit, before + [Part(part.header, [])], all, |content|, after);
    assert all[..|content|] == content && [] + content == content;
    assert Written(before + [Part(part.header, [])], content) == before + [part];
  }

  /** A content that does not fit is cut short, or the body is refused. */
  lemma OtherContentIsNotRead(fmt: Format, limit: nat, before: seq<Part>, part: Part, next: seq<byte>,
                              parts: seq<Part>)
    requires BoundaryFits(fmt) && !ContentFits(fmt, part.content) && before + [part] <= parts
    ensures Outcome(fmt, limit, Body, before + [Part(part.header, [])], part.content + (Marker(fmt) + next))
            != Accepted(parts)
  {
    var content, tail := part.content, Marker(fmt) + next;
    var all, open := content + tail, before + [Part(part.header, [])];
    FitsWithoutClash(fmt, content);
    var p: nat :| p < |content| && Clashes(fmt, content, p);
    DelimiterInContent(fmt, content, tail, p);
    var stop := FirstDelimiter(fmt, all).value;
    var after := stop + |Marker(fmt)|;
    var cut := Written(open, all[..stop]);
    BodyCut(fmt, limit, open, all, stop, after);
    PartsKept(fmt, limit, End, cut, all[after + 2..]);
    PartsKept(fmt, limit, Headers, cut, all[after + 2..]);
    assert |cut[|before|].content| == stop < |content| == |parts[|before|].content|;
  }

  /** The blocks of the parts end at their blank lines, are good, and are no longer than `limit`. */
  ghost predicate HeadersFit(fmt: Format, parts: seq<Part>, limit: nat) {
    forall part :: part in parts ==>
      HeaderFits(part.header) && fmt.headerOk(part.header) && |part.header| <= limit
  }

  ghost predicate ContentsFit(fmt: Format, parts: seq<Part>) {
    forall part :: part in parts ==> ContentFits(fmt, part.content)
  }

  ghost predicate EndingFits(ending: seq<byte>) {
    ending == [] || ending == [13, 10]
  }

  /** A header block is read, and its content comes next. */
  lemma HeaderIsRead(fmt: Format, limit: nat, before: seq<Part>, header: seq<byte>, rest: seq<byte>)
    requires HeaderFits(header)
    ensures Outcome(fmt, limit, Headers, before, header + [13, 10, 13, 10] + rest)
            == if |header| <= limit && fmt.headerOk(header)
               then Outcome(fmt, limit, Body, before + [Part(header, [])], rest) else Refused
  {
    var all := header + [13, 10, 13, 10] + rest;
    HeaderEndsAtBlankLine(header, rest);
    assert all[..|header|] == header && all[|header| + 4..] == rest;
  }

  lemma FollowingStarts(fmt: Format, parts: seq<Part>, ending: seq<byte>)
    ensures var f := Following(fmt, parts, ending);
            if parts == [] then f[..2] == DASHES && f[2..] == ending
            else
              f[..2] == CRLF
              && f[2..] == parts[0].header + [13, 10, 13, 10]
                           + (parts[0].content + (Marker(fmt) + Following(fmt, parts[1..], ending)))
  {
    assert Marker(fmt) == [13, 10] + fmt.boundary;
  }

  /** Behind a boundary line the framed parts are read back, if and only if their contents and the ending fit. */
  lemma {:induction false} FollowingIsRead(fmt: Format, limit: nat, before: seq<Part>, parts: seq<Part>,
                                           ending: seq<byte>)
    requires BoundaryFits(fmt) && HeadersFit(fmt, parts, limit)
    ensures var f := Following(fmt, parts, ending);
            AfterPart(fmt, limit, before, f[..2], f[2..]) == Accepted(before + parts)
            <==> ContentsFit(fmt, parts) && EndingFits(ending)
    decreases |parts|
  {
    FollowingStarts(fmt, parts, ending);
    if parts == [] {
      assert before + parts == before;
    } else {
      var part, next := parts[0], Following(fmt, parts[1..], ending);
      assert part in parts && parts == [part] + parts[1..] && before + [part] + parts[1..] == before + parts;
      HeaderIsRead(fmt, limit, before, part.header, part.content + (Marker(fmt) + next));
      if ContentFits(fmt, part.content) {
        FollowingStarts(fmt, parts[1..], ending);
        FittingContentIsRead(fmt, limit, before, part, next);
        FollowingIsRead(fmt, limit, before + [part], parts[1..], ending);
      } else {
        OtherContentIsNotRead(fmt, limit, before, part, next, before + parts);
      }
    }
  }

  lemma FramedIsRead(fmt: Format, limit: nat, parts: seq<Part>, ending: seq<byte>)
    requires BoundaryFits(fmt) && HeadersFit(fmt, parts, limit)
    ensures Outcome(fmt, limit, Initial, [], Framed(fmt, parts, ending)) == Accepted(parts)
            <==> ContentsFit(fmt, parts) && EndingFits(ending)
  {
    var f, all := Following(fmt, parts, ending), Framed(fmt, parts, ending);
    var n := |fmt.boundary|;
    FollowingStarts(fmt, parts, ending);
    assert all[..n] == fmt.boundary && all[n..n + 2] == f[..2] && all[n + 2..] == f[2..];
    FollowingIsRead(fmt, limit, [], parts, ending);
    assert [] + parts == parts;
  }

  /** The round trip of any number of parts: however the framed body is sliced, exactly these parts are accepted if and
      only if every content fits and nothing but CRLF follows the end. */
  lemma FilesRoundTrip(fmt: Format, maximum: nat, parts: seq<Part>, ending: seq<byte>, slices: seq<seq<byte>>)
    requires BoundaryFits(fmt) && HeadersFit(fmt, parts, 8189)
    requires Concat(slices) == Framed(fmt, parts, ending) && |Framed(fmt, parts, ending)| <= maximum
    ensures Decide(fmt, maximum, slices) == Accepted(parts) <==> ContentsFit(fmt, parts) && EndingFits(ending)
  {
    FramedIsRead(fmt, SAFE_HEADERS, parts, ending);
    FramedIsRead(fmt, MAX_HEADERS, parts, ending);
    SlicingBounds(fmt, maximum, slices);
  }

  /** A first header block of more than 8192 bytes is refused, however it arrives. */
  lemma LongHeaderIsRefused(fmt: Format, maximum: nat, parts: seq<Part>, ending: seq<byte>, slices: seq<seq<byte>>)
    requires parts != [] && HeaderFits(parts[0].header) && |parts[0].header| > 8192
    requires Concat(slices) == Framed(fmt, parts, ending)
    ensures Decide(fmt, maximum, slices) == Refused
  {
    var f, all, part := Following(fmt, parts, ending), Framed(fmt, parts, ending), parts[0];
    var n, next := |fmt.boundary|, Following(fmt, parts[1..], ending);
    FollowingStarts(fmt, parts, ending);
    assert all[..n] == fmt.boundary && all[n..n + 2] == f[..2] && all[n + 2..] == f[2..];
    HeaderIsRead(fmt, MAX_HEADERS, [], part.header, part.content + (Marker(fmt) + next));
    SlicingBounds(fmt, maximum, slices);
  }

  lemma ClientFrames(fmt: Format, header: seq<byte>, content: seq<byte>)
    ensures Framed(fmt, [Part(header, content)], [13, 10]) == ClientBody(fmt, header, content)
  {
    var last := Following(fmt, [], [13, 10]);
    assert [Part(header, content)][1..] == [] && last == [45, 45, 13, 10];
    assert fmt.boundary + ([13, 10] + (header + [13, 10, 13, 10] + (content + ([13, 10] + fmt.boundary + last))))
           == fmt.boundary + [13, 10] + header + [13, 10, 13, 10] + content + [13, 10] + fmt.boundary + last;
  }

  /** The round trip: however the client's body is sliced, the decoder accepts exactly its file if and only if the
      content fits, that is, has no CRLF and boundary line before `--`, CRLF or its own end. */
  lemma RoundTrip(fmt: Format, maximum: nat, header: seq<byte>, first: seq<byte>, second: seq<byte>,
                  content: seq<byte>, slices: seq<seq<byte>>)
    requires BoundaryFits(fmt) && TwoLines(header, first, second)
    requires fmt.headerOk(header) && |header| <= 8189
    requires Concat(slices) == ClientBody(fmt, header, content) && |ClientBody(fmt, header, content)| <= maximum
    ensures Decide(fmt, maximum, slices) == Accepted([Part(header, content)]) <==> ContentFits(fmt, content)
  {
    var parts := [Part(header, content)];
    ClientHeaderFits(header, first, second);
    ClientFrames(fmt, header, content);
    FilesRoundTrip(fmt, maximum, parts, [13, 10], slices);
    assert parts[0] in parts;
  }
}
