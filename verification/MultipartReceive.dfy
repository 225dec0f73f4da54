/** The request handler's loop: transport chunks fed in bounded pieces, then the end is checked. */
module MultipartReceive {
  import opened Wrappers
  import opened Bytes
  import opened MultipartFormat
  import opened MultipartDecoder
  import opened MultipartDecision

  const PIECE := 16384

  /** One chunk in pieces of at most 16384 bytes. */
  function Pieces(chunk: seq<byte>, start: nat): seq<seq<byte>>
    decreases |chunk| - start
  {
    if start >= |chunk| then []
    else [chunk[start..if start + PIECE < |chunk| then start + PIECE else |chunk|]] + Pieces(chunk, start + PIECE)
  }

  function Sliced(chunks: seq<seq<byte>>): seq<seq<byte>> {
    if chunks == [] then [] else Pieces(chunks[0], 0) + Sliced(chunks[1..])
  }

  lemma {:induction false} ConcatJoin(a: seq<seq<byte>>, b: seq<seq<byte>>)
    ensures Concat(a + b) == Concat(a) + Concat(b)
  {
    if a == [] {
      assert a + b == b;
    } else {
      assert (a + b)[1..] == a[1..] + b;
      ConcatJoin(a[1..], b);
    }
  }

  lemma {:induction false} PiecesConcat(chunk: seq<byte>, start: nat)
    requires start <= |chunk| + PIECE
    ensures Concat(Pieces(chunk, start)) == if start < |chunk| then chunk[start..] else []
    decreases |chunk| + PIECE - start
  {
    if start < |chunk| {
      PiecesConcat(chunk, start + PIECE);
      assert Pieces(chunk, start)[1..] == Pieces(chunk, start + PIECE);
    }
  }

  /** Every piece but a chunk's last has 16384 bytes, and none is empty or longer. */
  lemma {:induction false} PiecesAreFull(chunk: seq<byte>, start: nat)
    ensures forall k :: 0 <= k < |Pieces(chunk, start)| ==> 1 <= |Pieces(chunk, start)[k]| <= 16384
    ensures forall k :: 0 <= k < |Pieces(chunk, start)| - 1 ==> |Pieces(chunk, start)[k]| == 16384
    decreases |chunk| - start
  {
    if start < |chunk| {
      PiecesAreFull(chunk, start + PIECE);
      assert Pieces(chunk, start)[1..] == Pieces(chunk, start + PIECE);
    }
  }

  lemma {:induction false} SlicesAreShort(chunks: seq<seq<byte>>)
    ensures forall slice :: slice in Sliced(chunks) ==> 1 <= |slice| <= 16384
  {
    if chunks != [] {
      var pieces := Pieces(chunks[0], 0);
      PiecesAreFull(chunks[0], 0);
      SlicesAreShort(chunks[1..]);
      forall slice | slice in pieces ensures 1 <= |slice| <= 16384 {
        var k :| 0 <= k < |pieces| && pieces[k] == slice;
        assert |pieces[k]| == |slice|;
      }
    }
  }

  lemma {:induction false} SlicedConcat(chunks: seq<seq<byte>>)
    ensures Concat(Sliced(chunks)) == Concat(chunks)
  {
    if chunks != [] {
      PiecesConcat(chunks[0], 0);
      ConcatJoin(Pieces(chunks[0], 0), Sliced(chunks[1..]));
      SlicedConcat(chunks[1..]);
    }
  }

  /** What the parser makes of a stream from its present state on. */
  ghost function Verdicts(parser: MultipartFile, stream: seq<seq<byte>>): Result<Decoder, Refusal>
    reads parser
    requires parser.View().Sound()
  {
    FeedAll(parser.format, parser.maximum, parser.received, parser.View(), stream)
  }

  /** Feeds one piece; `rest` is what the stream brings after it. */
  method FeedPiece(parser: MultipartFile, piece: seq<byte>, ghost rest: seq<seq<byte>>) returns (refused: bool)
    requires parser.View().Sound()
    modifies parser
    ensures refused ==> old(Verdicts(parser, [piece] + rest)).Err?
    ensures !refused ==> parser.View().Sound() && old(Verdicts(parser, [piece] + rest)) == Verdicts(parser, rest)
  {
    FeedAllStep(parser.format, parser.maximum, parser.received, parser.View(), piece, rest);
    ghost var decoded := Drain(parser.format, parser.View().(buffer := parser.buffer + piece));
    var refusal := parser.Feed(piece);
    refused := refusal.Some?;
    assert !refused ==> decoded == Ok(parser.View());
  }

  lemma PiecesStep(chunk: seq<byte>, start: nat, later: seq<seq<byte>>)
    requires start < |chunk|
    ensures var end := if start + PIECE < |chunk| then start + PIECE else |chunk|;
            Pieces(chunk, start) + later == [chunk[start..end]] + (Pieces(chunk, start + PIECE) + later)
  {
  }

  /** Feeds one chunk in pieces; `later` is what the stream brings after it. */
  method FeedChunk(parser: MultipartFile, chunk: seq<byte>, ghost later: seq<seq<byte>>) returns (refused: bool)
    requires parser.View().Sound()
    modifies parser
    ensures refused ==> old(Verdicts(parser, Pieces(chunk, 0) + later)).Err?
    ensures !refused ==>
            parser.View().Sound() && old(Verdicts(parser, Pieces(chunk, 0) + later)) == Verdicts(parser, later)
  {
    var start := 0;
    while start < |chunk|
      invariant parser.View().Sound()
      invariant old(Verdicts(parser, Pieces(chunk, 0) + later)) == Verdicts(parser, Pieces(chunk, start) + later)
    {
      var piece := chunk[start..if start + PIECE < |chunk| then start + PIECE else |chunk|];
      PiecesStep(chunk, start, later);
      refused := FeedPiece(parser, piece, Pieces(chunk, start + PIECE) + later);
      if refused {
        return;
      }
      start := start + PIECE;
    }
    assert Pieces(chunk, start) + later == later;
    return false;
  }

  /** A stream arrives in transport chunks, each fed in pieces of at most 16384 bytes: the verdict is the one its
      slices are given, and the slices make up the chunks. */
  method Receive(fmt: Format, maximum: nat, chunks: seq<seq<byte>>) returns (verdict: Verdict)
    ensures verdict == Decide(fmt, maximum, Sliced(chunks)) && Concat(Sliced(chunks)) == Concat(chunks)
    ensures forall slice :: slice in Sliced(chunks) ==> 1 <= |slice| <= 16384
  {
    SlicesAreShort(chunks);
    var parser := new MultipartFile(fmt, maximum);
    ghost var slices := Sliced(chunks);
    SlicedConcat(chunks);
    for i := 0 to |chunks|
      invariant fresh(parser) && parser.View().Sound()
      invariant parser.format == fmt && parser.maximum == maximum
      invariant FeedAll(fmt, maximum, 0, FRESH, slices)
                == Verdicts(parser, Sliced(chunks[i..]))
    {
      assert chunks[i..][1..] == chunks[i + 1..];
      var refused := FeedChunk(parser, chunks[i], Sliced(chunks[i + 1..]));
      if refused {
        verdict := Refused;
        return;
      }
    }
    assert Sliced(chunks[|chunks|..]) == [];
    var refusal := parser.Finish();
    verdict := if refusal.Some? then Refused else Accepted(parser.View().parts);
  }
}
