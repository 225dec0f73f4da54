/** The streaming decoder: a buffer that keeps only a header block or a possible delimiter between slices. */
module MultipartDecoder {
  import opened Wrappers
  import opened Bytes
  import opened MultipartFormat

  const MAX_HEADERS := 8192

  datatype Refusal =
    | OpeningBoundary | BoundarySuffix | HeadersTooLong | BadPart | Epilogue | TooLarge | Truncated

  /** The decoder's state, with the parts its receipt holds so far. */
  datatype Decoder = Decoder(stage: Stage, buffer: seq<byte>, parts: seq<Part>) {
    ghost predicate Sound() {
      stage.Body? ==> parts != []
    }
  }

  /** How far the body scan may write ahead, and whether it met a whole delimiter. */
  datatype BodyScan = Keep(count: nat) | Cut(stop: nat, suffix: seq<byte>)

  function ScanBody(fmt: Format, buffer: seq<byte>): (r: BodyScan)
    ensures r.Keep? ==> r.count <= |buffer|
    ensures r.Cut? ==> r.stop + |Marker(fmt)| + 2 <= |buffer|
  {
    var marker := Marker(fmt);
    var stop := Find(buffer, marker);
    if stop.None? then
      Keep(if |buffer| > |marker| + 2 then |buffer| - |marker| - 2 else 0)
    else
      var after := stop.value + |marker|;
      if |buffer| < after + 2 then Keep(stop.value)
      else
        var suffix := buffer[after..after + 2];
        if suffix != DASHES && suffix != CRLF then Keep(stop.value + 2) else Cut(stop.value, suffix)
  }

  /** A marker starts with CR and its second byte is LF, so the next one starts at least two bytes on. */
  lemma MarkersApart(fmt: Format, buffer: seq<byte>, p: nat)
    requires At(buffer, Marker(fmt), p)
    ensures !At(buffer, Marker(fmt), p + 1)
  {
    var marker := Marker(fmt);
    assert marker[0] == CR && marker[1] == LF;
    assert buffer[p + 1] == buffer[p..p + |marker|][1];
    assert p + 1 + |marker| <= |buffer| ==> buffer[p + 1] == buffer[p + 1..p + 1 + |marker|][0];
  }

  lemma KeptIsNoDelimiter(fmt: Format, buffer: seq<byte>, q: nat)
    requires ScanBody(fmt, buffer).Keep? && q < ScanBody(fmt, buffer).count
    ensures !Delimiter(fmt, buffer, q)
  {
    var stop := Find(buffer, Marker(fmt));
    if stop.Some? {
      MarkersApart(fmt, buffer, stop.value);
    }
  }

  lemma CutIsDelimiter(fmt: Format, buffer: seq<byte>)
    requires ScanBody(fmt, buffer).Cut?
    ensures var r := ScanBody(fmt, buffer);
            && FirstDelimiter(fmt, buffer) == Some(r.stop)
            && r.suffix == buffer[r.stop + |Marker(fmt)|..r.stop + |Marker(fmt)| + 2]
  {
    var stop := Find(buffer, Marker(fmt)).value;
    assert forall q: nat {:trigger Delimiter(fmt, buffer, q)} :: q < stop ==> !Delimiter(fmt, buffer, q);
    FirstDelimiterIs(fmt, buffer, stop);
  }

  lemma ScanFindsFirst(fmt: Format, buffer: seq<byte>)
    ensures var r := ScanBody(fmt, buffer);
            && (r.Keep? ==> forall q: nat :: q < r.count ==> !Delimiter(fmt, buffer, q))
            && (r.Cut? ==> FirstDelimiter(fmt, buffer) == Some(r.stop)
                           && r.suffix == buffer[r.stop + |Marker(fmt)|..r.stop + |Marker(fmt)| + 2])
  {
    var r := ScanBody(fmt, buffer);
    if r.Cut? {
      CutIsDelimiter(fmt, buffer);
    } else {
      forall q: nat | q < r.count ensures !Delimiter(fmt, buffer, q) {
        KeptIsNoDelimiter(fmt, buffer, q);
      }
    }
  }

  /** One turn of the decoding loop. */
  function Advance(fmt: Format, d: Decoder): (r: Result<Decoder, Refusal>)
    requires d.Sound()
    ensures r.Ok? ==> r.value.Sound() && (r.value == d || |r.value.buffer| < |d.buffer|)
  {
    match d.stage
    case Initial =>
      var size := |fmt.boundary| + 2;
      if |d.buffer| < size then Ok(d)
      else if d.buffer[..|fmt.boundary|] != fmt.boundary then Err(OpeningBoundary)
      else
        var suffix := d.buffer[|fmt.boundary|..size];
        if suffix != CRLF && suffix != DASHES then Err(BoundarySuffix)
        else Ok(Decoder(if suffix == DASHES then End else Headers, d.buffer[size..], d.parts))
    case Headers =>
      var stop := Find(d.buffer, BLANK_LINE);
      if stop.None? then (if |d.buffer| > MAX_HEADERS then Err(HeadersTooLong) else Ok(d))
      else if stop.value > MAX_HEADERS then Err(HeadersTooLong)
      else if !fmt.headerOk(d.buffer[..stop.value]) then Err(BadPart)
      else Ok(Decoder(Body, d.buffer[stop.value + 4..], d.parts + [Part(d.buffer[..stop.value], [])]))
    case Body =>
      (match ScanBody(fmt, d.buffer)
       case Keep(count) =>
         if count == 0 then Ok(d)
         else Ok(Decoder(Body, d.buffer[count..], Written(d.parts, d.buffer[..count])))
       case Cut(stop, suffix) =>
         Ok(Decoder(if suffix == DASHES then End else Headers, d.buffer[stop + |Marker(fmt)| + 2..],
                    Written(d.parts, d.buffer[..stop]))))
    case End =>
      if d.buffer == [] || d.buffer == [CR] || d.buffer == CRLF then Ok(d) else Err(Epilogue)
  }

  /** The loop runs until a turn changes nothing. */
  function Drain(fmt: Format, d: Decoder): (r: Result<Decoder, Refusal>)
    requires d.Sound()
    ensures r.Ok? ==> r.value.Sound() && Advance(fmt, r.value) == Ok(r.value)
    decreases |d.buffer|
  {
    var next := Advance(fmt, d);
    if next.Err? then next
    else if next.value == d then Ok(d)
    else Drain(fmt, next.value)
  }

  /** What the shared upload receipt is told. */
  datatype Event = BeginFile(header: seq<byte>) | Write(data: seq<byte>)

  function AddEvent(parts: seq<Part>, event: Event): seq<Part> {
    match event
    case BeginFile(header) => parts + [Part(header, [])]
    case Write(data) => if parts == [] then [] else Written(parts, data)
  }

  /** The parts a receipt holds after `events`. */
  function Received(events: seq<Event>): seq<Part> {
    if events == [] then [] else AddEvent(Received(events[..|events| - 1]), events[|events| - 1])
  }

  /** How a method reports a result: a refusal, or the new state. */
  ghost predicate Reports(result: Result<Decoder, Refusal>, refusal: Option<Refusal>, after: Decoder) {
    if result.Ok? then refusal == None && after == result.value else refusal == Some(result.error)
  }

  class MultipartFile {
    const format: Format
    const maximum: nat
    var buffer: seq<byte>
    var stage: Stage
    var received: nat
    var receipt: seq<Event>

    function View(): Decoder
      reads this
    {
      Decoder(stage, buffer, Received(receipt))
    }

    constructor (format: Format, maximum: nat)
      ensures this.format == format && this.maximum == maximum
      ensures View() == Decoder(Initial, [], []) && received == 0
    {
      this.format, this.maximum := format, maximum;
      buffer, stage, received, receipt := [], Initial, 0, [];
    }

    /** Consumes one transport slice: refuses a body over the maximum, else drains the buffer. */
    method Feed(data: seq<byte>) returns (refusal: Option<Refusal>)
      requires View().Sound()
      modifies this
      ensures received == old(received) + |data|
      ensures received > maximum ==> refusal == Some(TooLarge)
      ensures received <= maximum ==>
                Reports(Drain(format, old(View()).(buffer := old(buffer) + data)), refusal, View())
      ensures refusal.None? ==> View().Sound()
    {
      received := received + |data|;
      if received > maximum {
        return Some(TooLarge);
      }
      buffer := buffer + data;
      ghost var first := View();
      while true
        invariant View().Sound()
        invariant Drain(format, first) == Drain(format, View())
        invariant received == old(received) + |data|
        decreases |buffer|
      {
        var stageBefore, lengthBefore := stage, |buffer|;
        match stage {
          case Initial => refusal := InitialTurn();
          case Headers => refusal := HeadersTurn();
          case Body => BodyTurn(); refusal := None;
          case End => refusal := if buffer == [] || buffer == [CR] || buffer == CRLF then None else Some(Epilogue);
        }
        if refusal.Some? {
          return;
        }
        if stage == stageBefore && |buffer| == lengthBefore {
          return;
        }
      }
    }

    method InitialTurn() returns (refusal: Option<Refusal>)
      requires stage.Initial?
      modifies this`buffer, this`stage
      ensures old(View()).Sound() ==> Reports(Advance(format, old(View())), refusal, View())
    {
      var size := |format.boundary| + 2;
      if |buffer| < size {
        return None;
      }
      if buffer[..|format.boundary|] != format.boundary {
        return Some(OpeningBoundary);
      }
      var suffix := buffer[|format.boundary|..size];
      if suffix != CRLF && suffix != DASHES {
        return Some(BoundarySuffix);
      }
      buffer := buffer[size..];
      stage := if suffix == DASHES then End else Headers;
      return None;
    }

    method HeadersTurn() returns (refusal: Option<Refusal>)
      requires stage.Headers?
      modifies this`buffer, this`stage, this`receipt
      ensures old(View()).Sound() ==> Reports(Advance(format, old(View())), refusal, View())
    {
      var stop := Find(buffer, BLANK_LINE);
      if stop.None? {
        return if |buffer| > MAX_HEADERS then Some(HeadersTooLong) else None;
      }
      if stop.value > MAX_HEADERS {
        return Some(HeadersTooLong);
      }
      if !format.headerOk(buffer[..stop.value]) {
        return Some(BadPart);
      }
      receipt := receipt + [BeginFile(buffer[..stop.value])];
      buffer := buffer[stop.value + 4..];
      stage := Body;
      return None;
    }

    method BodyTurn()
      requires stage.Body? && Received(receipt) != []
      modifies this`buffer, this`stage, this`receipt
      ensures Reports(Advance(format, old(View())), None, View())
    {
      var marker := Marker(format);
      var stop := Find(buffer, marker);
      if stop.None? {
        WriteAhead(if |buffer| > |marker| + 2 then |buffer| - |marker| - 2 else 0);
        return;
      }
      var after := stop.value + |marker|;
      if |buffer| < after + 2 {
        WriteAhead(stop.value);
        return;
      }
      var suffix := buffer[after..after + 2];
      if suffix != DASHES && suffix != CRLF {
        WriteAhead(stop.value + 2);
        return;
      }
      EndPart(stop.value, suffix);
    }

    /** Writes and deletes the bytes that no delimiter can start in. */
    method WriteAhead(count: nat)
      requires stage.Body? && Received(receipt) != [] && ScanBody(format, buffer) == Keep(count)
      modifies this`buffer, this`receipt
      ensures Reports(Advance(format, old(View())), None, View())
    {
      if count != 0 {
        receipt := receipt + [Write(buffer[..count])];
        buffer := buffer[count..];
      }
    }

    /** Writes the rest of the part and deletes it with its delimiter. */
    method EndPart(stop: nat, suffix: seq<byte>)
      requires stage.Body? && Received(receipt) != [] && ScanBody(format, buffer) == Cut(stop, suffix)
      modifies this`buffer, this`stage, this`receipt
      ensures Reports(Advance(format, old(View())), None, View())
    {
      receipt := receipt + [Write(buffer[..stop])];
      buffer := buffer[stop + |Marker(format)| + 2..];
      stage := if suffix == DASHES then End else Headers;
    }

    /** Refuses truncation: the body is complete only after a closing boundary and at most one CRLF. */
    method Finish() returns (refusal: Option<Refusal>)
      ensures refusal == if stage.End? && (buffer == [] || buffer == CRLF) then None else Some(Truncated)
    {
      if !stage.End? || !(buffer == [] || buffer == CRLF) {
        return Some(Truncated);
      }
      return None;
    }
  }
}
