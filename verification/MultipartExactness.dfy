/** Exactly when slicing does not matter: every accepted header block has at most 8189 bytes. */
module MultipartExactness {
  import opened Wrappers
  import opened Bytes
  import opened MultipartFormat
  import opened MultipartDecoder
  import opened MultipartSlicing
  import opened MultipartDecision

  /** A decoder one byte after it was quiet: whatever it can find now ends with that byte. */
  ghost predicate OneByteOn(fmt: Format, d: Decoder) {
    match d.stage
    case Initial => |d.buffer| <= |fmt.boundary| + 2
    case Headers =>
      |d.buffer| <= MAX_HEADERS + 1
      && (d.buffer != [] ==> Find(d.buffer[..|d.buffer| - 1], BLANK_LINE).None?)
    case Body => d.buffer != [] ==> FirstDelimiter(fmt, d.buffer[..|d.buffer| - 1]).None?
    case End => true
  }

  lemma QuietThenOneByte(fmt: Format, d: Decoder, x: byte)
    requires d.Sound() && Advance(fmt, d) == Ok(d)
    ensures OneByteOn(fmt, d.(buffer := d.buffer + [x]))
  {
    assert (d.buffer + [x])[..|d.buffer|] == d.buffer;
  }

  lemma HeadersOneByteOn(fmt: Format, d: Decoder)
    requires d.stage.Headers? && OneByteOn(fmt, d) && Find(d.buffer, BLANK_LINE).Some?
    ensures Find(d.buffer, BLANK_LINE).value + 4 == |d.buffer|
  {
    var n, stop := |d.buffer| - 1, Find(d.buffer, BLANK_LINE).value;
    assert d.buffer == d.buffer[..n] + d.buffer[n..];
    if stop + 4 <= n {
      AtPrefix(d.buffer[..n], d.buffer[n..], BLANK_LINE, stop);
    }
  }

  lemma CutOneByteOn(fmt: Format, d: Decoder, stop: nat, suffix: seq<byte>)
    requires d.stage.Body? && OneByteOn(fmt, d) && ScanBody(fmt, d.buffer) == Cut(stop, suffix)
    ensures stop + |Marker(fmt)| + 2 == |d.buffer|
  {
    var n := |d.buffer| - 1;
    ScanFindsFirst(fmt, d.buffer);
    assert d.buffer == d.buffer[..n] + d.buffer[n..];
    if stop + |Marker(fmt)| + 2 <= n {
      DelimiterPrefix(fmt, d.buffer[..n], d.buffer[n..], stop);
    }
  }

  lemma KeepOneByteOn(fmt: Format, d: Decoder, count: nat)
    requires d.stage.Body? && OneByteOn(fmt, d) && count < |d.buffer|
    ensures FirstDelimiter(fmt, d.buffer[count..][..|d.buffer| - count - 1]).None?
  {
    var front := d.buffer[..|d.buffer| - 1];
    assert d.buffer[count..][..|d.buffer| - count - 1] == front[count..];
    forall q: nat ensures !Delimiter(fmt, front[count..], q) {
      DelimiterDropped(fmt, front, count, q);
    }
  }

  /** From such a state a turn keeps the decision under the safe limit too, and stays in such a state. */
  lemma {:induction false} OneByteTurn(fmt: Format, d: Decoder, rest: seq<byte>)
    requires d.Sound() && OneByteOn(fmt, d) && Advance(fmt, d).Ok?
    ensures OneByteOn(fmt, Advance(fmt, d).value)
    ensures Ahead(fmt, SAFE_HEADERS, Advance(fmt, d).value, rest) == Ahead(fmt, SAFE_HEADERS, d, rest)
  {
    match d.stage
    case Initial => InitialAhead(fmt, SAFE_HEADERS, d, rest);
    case Headers =>
      if Find(d.buffer, BLANK_LINE).Some? {
        HeadersOneByteOn(fmt, d);
        HeadersAhead(fmt, SAFE_HEADERS, d, rest);
      }
    case Body =>
      BodyAhead(fmt, SAFE_HEADERS, d, rest);
      BodyOneByteTurn(fmt, d);
    case End =>
  }

  lemma BodyOneByteTurn(fmt: Format, d: Decoder)
    requires d.Sound() && d.stage.Body? && OneByteOn(fmt, d)
    ensures OneByteOn(fmt, Advance(fmt, d).value)
  {
    var scan := ScanBody(fmt, d.buffer);
    if scan.Cut? {
      CutOneByteOn(fmt, d, scan.stop, scan.suffix);
    } else if scan.count < |d.buffer| {
      KeepOneByteOn(fmt, d, scan.count);
    }
  }

  lemma {:induction false} OneByteDrain(fmt: Format, d: Decoder, rest: seq<byte>)
    requires d.Sound() && OneByteOn(fmt, d)
    ensures Ahead(fmt, SAFE_HEADERS, d, rest)
            == if Drain(fmt, d).Ok? then Ahead(fmt, SAFE_HEADERS, Drain(fmt, d).value, rest) else Refused
    decreases |d.buffer|
  {
    var next := Advance(fmt, d);
    if next.Err? {
      RefusalAhead(fmt, d, rest);
    } else if next.value != d {
      OneByteTurn(fmt, d, rest);
      OneByteDrain(fmt, next.value, rest);
    }
  }

  function Singles(body: seq<byte>): seq<seq<byte>> {
    if body == [] then [] else [[body[0]]] + Singles(body[1..])
  }

  lemma {:induction false} SinglesConcat(body: seq<byte>)
    ensures Concat(Singles(body)) == body
  {
    if body != [] {
      SinglesConcat(body[1..]);
      assert Singles(body)[1..] == Singles(body[1..]);
      assert [body[0]] + body[1..] == body;
    }
  }

  lemma {:induction false} BytewiseAhead(fmt: Format, maximum: nat, received: nat, d: Decoder, body: seq<byte>)
    requires d.Sound() && Advance(fmt, d) == Ok(d) && received + |body| <= maximum
    ensures var end := FeedAll(fmt, maximum, received, d, Singles(body));
            Ahead(fmt, SAFE_HEADERS, d, body) == if end.Ok? then Finished(end.value) else Refused
    decreases |body|
  {
    if body == [] {
      QuietFinish(fmt, SAFE_HEADERS, d);
    } else {
      var x, rest := body[0], body[1..];
      var fed := d.(buffer := d.buffer + [x]);
      assert Singles(body) == [[x]] + Singles(rest);
      FeedAllStep(fmt, maximum, received, d, [x], Singles(rest));
      assert d.buffer + body == fed.buffer + rest;
      QuietThenOneByte(fmt, d, x);
      OneByteDrain(fmt, fed, rest);
      var next := Drain(fmt, fed);
      if next.Ok? {
        BytewiseAhead(fmt, maximum, received + 1, next.value, rest);
      }
    }
  }

  /** Fed byte by byte, a body is decided as the one-shot reading with header blocks of at most 8189 bytes. */
  lemma BytewiseIsSafeOneShot(fmt: Format, maximum: nat, body: seq<byte>)
    ensures Decide(fmt, maximum, Singles(body)) == OneShot(fmt, maximum, SAFE_HEADERS, body)
  {
    SinglesConcat(body);
    if |body| > maximum {
      TooLargeIsRefused(fmt, maximum, 0, FRESH, Singles(body));
    } else {
      BytewiseAhead(fmt, maximum, 0, FRESH, body);
      assert FRESH.buffer + body == body;
    }
  }

  /** Every part's header block fits the safe limit. */
  ghost predicate ShortHeaders(parts: seq<Part>) {
    forall i :: 0 <= i < |parts| ==> |parts[i].header| <= 8189
  }

  /** The two limits agree except on bodies accepted with a header block longer than the safe limit. */
  ghost predicate SafeAgrees(fmt: Format, stage: Stage, parts: seq<Part>, bytes: seq<byte>)
    requires stage.Body? ==> parts != []
  {
    var full := Outcome(fmt, MAX_HEADERS, stage, parts, bytes);
    Outcome(fmt, SAFE_HEADERS, stage, parts,
            bytes) == if full.Accepted? && ShortHeaders(full.parts) then full else Refused
  }

  /** An accepted result starts with the parts already received; only the content of an open one can still grow. */
  ghost predicate KeepsParts(fmt: Format, limit: nat, stage: Stage, parts: seq<Part>, bytes: seq<byte>)
    requires stage.Body? ==> parts != []
  {
    Extends(Outcome(fmt, limit, stage, parts, bytes), parts, if stage.Body? then |parts| - 1 else |parts|)
  }

  ghost predicate Extends(full: Verdict, parts: seq<Part>, closed: nat)
    requires closed <= |parts|
  {
    full.Accepted? ==>
      && |parts| <= |full.parts|
      && (forall i :: 0 <= i < |parts| ==> full.parts[i].header == parts[i].header)
      && (forall i :: 0 <= i < closed ==> full.parts[i] == parts[i])
  }

  lemma ExtendsFewer(full: Verdict, parts: seq<Part>, part: Part)
    requires Extends(full, parts + [part], |parts|)
    ensures Extends(full, parts, |parts|)
  {
    assert forall i :: 0 <= i < |parts| ==> (parts + [part])[i] == parts[i];
  }

  lemma InitialKeeps(fmt: Format, limit: nat, parts: seq<Part>, bytes: seq<byte>)
    requires |bytes| >= |fmt.boundary| + 2 ==>
               && KeepsParts(fmt, limit, Headers, parts, bytes[|fmt.boundary| + 2..])
               && KeepsParts(fmt, limit, End, parts, bytes[|fmt.boundary| + 2..])
    ensures KeepsParts(fmt, limit, Initial, parts, bytes)
  {
  }

  lemma HeadersKeep(fmt: Format, limit: nat, parts: seq<Part>, bytes: seq<byte>, stop: nat)
    requires Find(bytes, BLANK_LINE) == Some(stop)
    requires KeepsParts(fmt, limit, Body, parts + [Part(bytes[..stop], [])], bytes[stop + 4..])
    ensures KeepsParts(fmt, limit, Headers, parts, bytes)
  {
    var part := Part(bytes[..stop], []);
    ExtendsFewer(Outcome(fmt, limit, Body, parts + [part], bytes[stop + 4..]), parts, part);
  }

  lemma {:induction false} PartsKept(fmt: Format, limit: nat, stage: Stage, parts: seq<Part>, bytes: seq<byte>)
    requires stage.Body? ==> parts != []
    ensures KeepsParts(fmt, limit, stage, parts, bytes)
    decreases |bytes|
  {
    match stage
    case Initial =>
      if |bytes| >= |fmt.boundary| + 2 {
        PartsKept(fmt, limit, Headers, parts, bytes[|fmt.boundary| + 2..]);
        PartsKept(fmt, limit, End, parts, bytes[|fmt.boundary| + 2..]);
      }
      InitialKeeps(fmt, limit, parts, bytes);
    case Headers =>
      var stop := Find(bytes, BLANK_LINE);
      if stop.Some? {
        PartsKept(fmt, limit, Body, parts + [Part(bytes[..stop.value], [])], bytes[stop.value + 4..]);
        HeadersKeep(fmt, limit, parts, bytes, stop.value);
      }
    case Body =>
      var stop := FirstDelimiter(fmt, bytes);
      if stop.Some? {
        var after := stop.value + |Marker(fmt)|;
        PartsKept(fmt, limit, Headers, Written(parts, bytes[..stop.value]), bytes[after + 2..]);
        PartsKept(fmt, limit, End, Written(parts, bytes[..stop.value]), bytes[after + 2..]);
      }
    case End =>
  }

  lemma SafeInitial(fmt: Format, parts: seq<Part>, bytes: seq<byte>)
    requires |bytes| >= |fmt.boundary| + 2 ==>
               && SafeAgrees(fmt, Headers, parts, bytes[|fmt.boundary| + 2..])
               && SafeAgrees(fmt, End, parts, bytes[|fmt.boundary| + 2..])
    ensures SafeAgrees(fmt, Initial, parts, bytes)
  {
  }

  lemma SafeBody(fmt: Format, parts: seq<Part>, bytes: seq<byte>, stop: nat, after: nat)
    requires parts != [] && FirstDelimiter(fmt, bytes) == Some(stop) && after == stop + |Marker(fmt)|
    requires after + 2 <= |bytes|
    requires SafeAgrees(fmt, Headers, Written(parts, bytes[..stop]), bytes[after + 2..])
    requires SafeAgrees(fmt, End, Written(parts, bytes[..stop]), bytes[after + 2..])
    ensures SafeAgrees(fmt, Body, parts, bytes)
  {
    BodyCut(fmt, MAX_HEADERS, parts, bytes, stop, after);
    BodyCut(fmt, SAFE_HEADERS, parts, bytes, stop, after);
  }

  lemma {:induction false} SafeOutcome(fmt: Format, stage: Stage, parts: seq<Part>, bytes: seq<byte>)
    requires stage.Body? ==> parts != []
    requires ShortHeaders(parts)
    ensures SafeAgrees(fmt, stage, parts, bytes)
    decreases |bytes|
  {
    match stage
    case Initial =>
      if |bytes| >= |fmt.boundary| + 2 {
        SafeOutcome(fmt, Headers, parts, bytes[|fmt.boundary| + 2..]);
        SafeOutcome(fmt, End, parts, bytes[|fmt.boundary| + 2..]);
      }
      SafeInitial(fmt, parts, bytes);
    case Headers =>
      var stop := Find(bytes, BLANK_LINE);
      if stop.Some? {
        var more := parts + [Part(bytes[..stop.value], [])];
        PartsKept(fmt, MAX_HEADERS, Body, more, bytes[stop.value + 4..]);
        if stop.value <= SAFE_HEADERS {
          SafeOutcome(fmt, Body, more, bytes[stop.value + 4..]);
        }
      }
    case Body =>
      var stop := FirstDelimiter(fmt, bytes);
      if stop.Some? {
        var after := stop.value + |Marker(fmt)|;
        SafeOutcome(fmt, Headers, Written(parts, bytes[..stop.value]), bytes[after + 2..]);
        SafeOutcome(fmt, End, Written(parts, bytes[..stop.value]), bytes[after + 2..]);
        SafeBody(fmt, parts, bytes, stop.value, after);
      }
    case End =>
  }

  /** Slicing never matters for a body exactly when the one-shot reading refuses it, or accepts it with header
      blocks of at most 8189 bytes each. */
  lemma SlicingDoesNotMatter(fmt: Format, maximum: nat, body: seq<byte>)
    ensures (forall slices :: Concat(slices) == body ==> Decide(fmt, maximum, slices) == Decide(fmt, maximum, [body]))
            <==> (Decide(fmt, maximum, [body]).Accepted? ==> ShortHeaders(Decide(fmt, maximum, [body]).parts))
  {
    var whole := Decide(fmt, maximum, [body]);
    WholeIsOneShot(fmt, maximum, body);
    BytewiseIsSafeOneShot(fmt, maximum, body);
    SinglesConcat(body);
    SafeOutcome(fmt, Initial, [], body);
    forall slices | Concat(slices) == body
      ensures NoMoreThan(Decide(fmt, maximum, slices), whole)
      ensures NoMoreThan(Decide(fmt, maximum, Singles(body)), Decide(fmt, maximum, slices))
    {
      SlicingBounds(fmt, maximum, slices);
    }
  }
}
