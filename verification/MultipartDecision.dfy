/** Whole uploads: the decision over every way of slicing a body into `Feed` calls. */
module MultipartDecision {
  import opened Wrappers
  import opened Bytes
  import opened MultipartFormat
  import opened MultipartDecoder
  import opened MultipartSlicing

  function Concat(slices: seq<seq<byte>>): seq<byte> {
    if slices == [] then [] else slices[0] + Concat(slices[1..])
  }

  function FeedAll(fmt: Format, maximum: nat, received: nat, d: Decoder, slices: seq<seq<byte>>)
    : (r: Result<Decoder, Refusal>)
    requires d.Sound()
    ensures r.Ok? ==> r.value.Sound()
    decreases |slices|
  {
    if slices == [] then Ok(d)
    else if received + |slices[0]| > maximum then Err(TooLarge)
    else
      var next := Drain(fmt, d.(buffer := d.buffer + slices[0]));
      if next.Err? then next else FeedAll(fmt, maximum, received + |slices[0]|, next.value, slices[1..])
  }

  lemma FeedAllStep(fmt: Format, maximum: nat, received: nat, d: Decoder, piece: seq<byte>, later: seq<seq<byte>>)
    requires d.Sound()
    ensures FeedAll(fmt, maximum, received, d, [piece] + later)
            == if received + |piece| > maximum then Err(TooLarge)
               else if Drain(fmt, d.(buffer := d.buffer + piece)).Err? then Drain(fmt, d.(buffer := d.buffer + piece))
               else FeedAll(fmt, maximum, received + |piece|, Drain(fmt, d.(buffer := d.buffer + piece)).value, later)
  {
    assert ([piece] + later)[1..] == later;
  }

  const FRESH := Decoder(Initial, [], [])

  function Finished(d: Decoder): Verdict {
    if d.stage.End? && (d.buffer == [] || d.buffer == CRLF) then Accepted(d.parts) else Refused
  }

  /** What a client is told after its body arrived as `slices`. */
  function Decide(fmt: Format, maximum: nat, slices: seq<seq<byte>>): Verdict {
    var end := FeedAll(fmt, maximum, 0, FRESH, slices);
    if end.Ok? then Finished(end.value) else Refused
  }

  /** The decision on the whole body at once, with header blocks of at most `limit` bytes. */
  ghost function OneShot(fmt: Format, maximum: nat, limit: nat, body: seq<byte>): Verdict {
    if |body| > maximum then Refused else Outcome(fmt, limit, Initial, [], body)
  }

  lemma {:induction false} DrainAhead(fmt: Format, d: Decoder, rest: seq<byte>)
    requires d.Sound()
    ensures Drain(fmt, d).Ok? ==> Ahead(fmt, MAX_HEADERS, Drain(fmt, d).value, rest) == Ahead(fmt, MAX_HEADERS, d, rest)
    ensures Drain(fmt, d).Ok?
            ==> NoMoreThan(Ahead(fmt, SAFE_HEADERS, d, rest), Ahead(fmt, SAFE_HEADERS, Drain(fmt, d).value, rest))
    ensures Drain(fmt, d).Err? ==> Ahead(fmt, SAFE_HEADERS, d, rest) == Refused
    ensures Drain(fmt, d).Err? && rest == [] ==> Ahead(fmt, MAX_HEADERS, d, rest) == Refused
    decreases |d.buffer|
  {
    var next := Advance(fmt, d);
    if next.Err? {
      RefusalAhead(fmt, d, rest);
    } else if next.value != d {
      TurnAhead(fmt, d, rest);
      DrainAhead(fmt, next.value, rest);
    }
  }

  /** Where the loop stops with no more bytes to come, finishing decides as the one-shot reading does. */
  lemma QuietFinish(fmt: Format, limit: nat, d: Decoder)
    requires d.Sound() && Advance(fmt, d) == Ok(d)
    ensures Ahead(fmt, limit, d, []) == Finished(d)
  {
    assert d.buffer + [] == d.buffer;
    if d.stage.Body? {
      ScanFindsFirst(fmt, d.buffer);
    }
  }

  lemma {:induction false} FeedAllAhead(fmt: Format, maximum: nat, received: nat, d: Decoder, slices: seq<seq<byte>>)
    requires d.Sound() && received + |Concat(slices)| <= maximum
    requires Advance(fmt, d) == Ok(d)
    ensures var end := FeedAll(fmt, maximum, received, d, slices);
            var verdict := if end.Ok? then Finished(end.value) else Refused;
            && NoMoreThan(verdict, Ahead(fmt, MAX_HEADERS, d, Concat(slices)))
            && NoMoreThan(Ahead(fmt, SAFE_HEADERS, d, Concat(slices)), verdict)
    decreases |slices|
  {
    if slices == [] {
      QuietFinish(fmt, MAX_HEADERS, d);
      QuietFinish(fmt, SAFE_HEADERS, d);
    } else {
      var fed, rest := d.(buffer := d.buffer + slices[0]), Concat(slices[1..]);
      assert d.buffer + Concat(slices) == fed.buffer + rest;
      DrainAhead(fmt, fed, rest);
      var next := Drain(fmt, fed);
      if next.Ok? {
        FeedAllAhead(fmt, maximum, received + |slices[0]|, next.value, slices[1..]);
      }
    }
  }

  lemma {:induction false} TooLargeIsRefused(fmt: Format, maximum: nat, received: nat, d: Decoder,
                                             slices: seq<seq<byte>>)
    requires d.Sound() && received <= maximum < received + |Concat(slices)|
    ensures FeedAll(fmt, maximum, received, d, slices).Err?
    decreases |slices|
  {
    if received + |slices[0]| <= maximum {
      var next := Drain(fmt, d.(buffer := d.buffer + slices[0]));
      if next.Ok? {
        TooLargeIsRefused(fmt, maximum, received + |slices[0]|, next.value, slices[1..]);
      }
    }
  }

  /** However a body is sliced, it is accepted only as the one-shot reading accepts it, with the same parts; and
      it is accepted whenever the one-shot reading accepts it with header blocks of at most 8189 bytes. */
  lemma SlicingBounds(fmt: Format, maximum: nat, slices: seq<seq<byte>>)
    ensures NoMoreThan(Decide(fmt, maximum, slices), OneShot(fmt, maximum, MAX_HEADERS, Concat(slices)))
    ensures NoMoreThan(OneShot(fmt, maximum, SAFE_HEADERS, Concat(slices)), Decide(fmt, maximum, slices))
  {
    var body := Concat(slices);
    if |body| > maximum {
      TooLargeIsRefused(fmt, maximum, 0, FRESH, slices);
    } else {
      FeedAllAhead(fmt, maximum, 0, FRESH, slices);
      assert FRESH.buffer + body == body;
    }
  }

  /** Fed in one slice, a body is decided exactly as the one-shot reading decides it. */
  lemma WholeIsOneShot(fmt: Format, maximum: nat, body: seq<byte>)
    ensures Decide(fmt, maximum, [body]) == OneShot(fmt, maximum, MAX_HEADERS, body)
  {
    if |body| <= maximum {
      var fed := FRESH.(buffer := FRESH.buffer + body);
      assert fed.buffer == body && body + [] == body;
      DrainAhead(fmt, fed, []);
      var next := Drain(fmt, fed);
      assert [body][1..] == [];
      if next.Ok? {
        QuietFinish(fmt, MAX_HEADERS, next.value);
        assert FeedAll(fmt, maximum, |body|, next.value, []) == next;
      }
    }
  }

  /** Between slices the buffer is small: what a turn leaves untouched fits the stage's bound. */
  lemma BufferStaysSmall(fmt: Format, d: Decoder)
    requires d.Sound() && Drain(fmt, d).Ok?
    ensures var left := Drain(fmt, d).value;
            |left.buffer| <= match left.stage
                             case Initial => |fmt.boundary| + 1
                             case Headers => 8192
                             case Body => |fmt.boundary| + 4
                             case End => 2
  {
    var left := Drain(fmt, d).value;
  }
}
