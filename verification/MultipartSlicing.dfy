/** How the transport slices a body: what never depends on it, and exactly when nothing does. */
module MultipartSlicing {
  import opened Wrappers
  import opened Bytes
  import opened MultipartFormat
  import opened MultipartDecoder

  /** Header blocks this long end within the first 8193 bytes of the buffer, so no slicing refuses them early. */
  const SAFE_HEADERS := MAX_HEADERS - 3

  /** The decision on what a decoder holds followed by `rest`. */
  ghost function Ahead(fmt: Format, limit: nat, d: Decoder, rest: seq<byte>): Verdict
    requires d.Sound()
  {
    Outcome(fmt, limit, d.stage, d.parts, d.buffer + rest)
  }

  lemma InitialAhead(fmt: Format, limit: nat, d: Decoder, rest: seq<byte>)
    requires d.stage.Initial?
    ensures Advance(fmt, d).Ok? ==> Ahead(fmt, limit, Advance(fmt, d).value, rest) == Ahead(fmt, limit, d, rest)
    ensures Advance(fmt, d).Err? ==> Ahead(fmt, limit, d, rest) == Refused
  {
    var n, size := |fmt.boundary|, |fmt.boundary| + 2;
    if |d.buffer| >= size {
      assert (d.buffer + rest)[..n] == d.buffer[..n];
      assert (d.buffer + rest)[n..size] == d.buffer[n..size];
      assert (d.buffer + rest)[size..] == d.buffer[size..] + rest;
    }
  }

  lemma HeadersAhead(fmt: Format, limit: nat, d: Decoder, rest: seq<byte>)
    requires d.stage.Headers? && Find(d.buffer, BLANK_LINE).Some?
    ensures var stop := Find(d.buffer, BLANK_LINE).value;
            if stop > limit then Ahead(fmt, limit, d, rest) == Refused
            else if !fmt.headerOk(d.buffer[..stop]) then Ahead(fmt, limit, d, rest) == Refused
            else stop > MAX_HEADERS
                 || (Advance(fmt, d).Ok?
                     && Ahead(fmt, limit, Advance(fmt, d).value, rest) == Ahead(fmt, limit, d, rest))
  {
    var stop := Find(d.buffer, BLANK_LINE).value;
    FindInPrefix(d.buffer, rest, BLANK_LINE);
    assert (d.buffer + rest)[..stop] == d.buffer[..stop];
    assert (d.buffer + rest)[stop + 4..] == d.buffer[stop + 4..] + rest;
  }

  /** An unfinished header block already over 8192 bytes is over the safe limit however it ends. */
  lemma LongHeadersAhead(fmt: Format, limit: nat, d: Decoder, rest: seq<byte>)
    requires d.stage.Headers? && Find(d.buffer, BLANK_LINE).None?
    requires rest == [] || (|d.buffer| > MAX_HEADERS && limit <= SAFE_HEADERS)
    ensures Ahead(fmt, limit, d, rest) == Refused
  {
    FindBeyondPrefix(d.buffer, rest, BLANK_LINE);
    assert rest == [] ==> d.buffer + rest == d.buffer;
  }

  lemma BodyAhead(fmt: Format, limit: nat, d: Decoder, rest: seq<byte>)
    requires d.stage.Body? && d.Sound()
    ensures Ahead(fmt, limit, Advance(fmt, d).value, rest) == Ahead(fmt, limit, d, rest)
  {
    ScanFindsFirst(fmt, d.buffer);
    var scan := ScanBody(fmt, d.buffer);
    if scan.Keep? {
      KeptAhead(fmt, limit, d, rest, scan.count);
    } else {
      CutAhead(fmt, limit, d, rest, scan.stop, scan.suffix);
    }
  }

  lemma KeptAhead(fmt: Format, limit: nat, d: Decoder, rest: seq<byte>, count: nat)
    requires d.stage.Body? && d.Sound() && ScanBody(fmt, d.buffer) == Keep(count)
    ensures Ahead(fmt, limit, Advance(fmt, d).value, rest) == Ahead(fmt, limit, d, rest)
  {
    var all := d.buffer + rest;
    forall q: nat | q < count ensures !Delimiter(fmt, all, q) {
      KeptHasNoDelimiter(fmt, d.buffer, rest, count, q);
    }
    WriteAhead(fmt, limit, d.parts, all, count);
    assert all[..count] == d.buffer[..count];
    assert all[count..] == d.buffer[count..] + rest;
    WrittenNothing(d.parts);
  }

  lemma WrittenNothing(parts: seq<Part>)
    requires parts != []
    ensures Written(parts, []) == parts
  {
    assert parts[|parts| - 1].content + [] == parts[|parts| - 1].content;
  }

  /** A byte written ahead too late in the buffer for a whole delimiter starts no marker. */
  lemma KeptLate(fmt: Format, buffer: seq<byte>, count: nat, q: nat)
    requires ScanBody(fmt, buffer) == Keep(count) && q < count && |buffer| < q + |Marker(fmt)| + 2
    ensures q + |Marker(fmt)| <= |buffer| && !At(buffer, Marker(fmt), q)
  {
    var stop := Find(buffer, Marker(fmt));
    if stop.Some? {
      MarkersApart(fmt, buffer, stop.value);
    }
  }

  /** No delimiter can start in the bytes written ahead, whatever comes next. */
  lemma KeptHasNoDelimiter(fmt: Format, buffer: seq<byte>, rest: seq<byte>, count: nat, q: nat)
    requires ScanBody(fmt, buffer) == Keep(count) && q < count
    ensures !Delimiter(fmt, buffer + rest, q)
  {
    if q + |Marker(fmt)| + 2 <= |buffer| {
      KeptIsNoDelimiter(fmt, buffer, q);
      DelimiterPrefix(fmt, buffer, rest, q);
    } else {
      KeptLate(fmt, buffer, count, q);
      AtPrefix(buffer, rest, Marker(fmt), q);
    }
  }

  lemma CutIsFirst(fmt: Format, buffer: seq<byte>, rest: seq<byte>, stop: nat, suffix: seq<byte>)
    requires ScanBody(fmt, buffer) == Cut(stop, suffix)
    ensures FirstDelimiter(fmt, buffer + rest) == Some(stop)
  {
    ScanFindsFirst(fmt, buffer);
    DelimiterPrefix(fmt, buffer, rest, stop);
    forall q: nat | q < stop ensures !Delimiter(fmt, buffer + rest, q) {
      DelimiterPrefix(fmt, buffer, rest, q);
    }
    FirstDelimiterIs(fmt, buffer + rest, stop);
  }

  lemma CutParts(fmt: Format, d: Decoder, stop: nat, suffix: seq<byte>, after: nat)
    requires d.stage.Body? && d.Sound() && ScanBody(fmt, d.buffer) == Cut(stop, suffix)
    requires after == stop + |Marker(fmt)|
    ensures after + 2 <= |d.buffer| && suffix == d.buffer[after..after + 2]
    ensures Advance(fmt, d) == Ok(Decoder(if suffix == DASHES then End else Headers, d.buffer[after + 2..],
                                          Written(d.parts, d.buffer[..stop])))
  {
  }

  lemma CutOutcome(fmt: Format, limit: nat, parts: seq<Part>, buffer: seq<byte>, rest: seq<byte>, stop: nat, after: nat)
    requires parts != [] && FirstDelimiter(fmt, buffer + rest) == Some(stop)
    requires after == stop + |Marker(fmt)| && after + 2 <= |buffer|
    ensures Outcome(fmt, limit, Body, parts, buffer + rest)
            == AfterPart(fmt, limit, Written(parts, buffer[..stop]), buffer[after..after + 2],
                         buffer[after + 2..] + rest)
  {
    BodyCut(fmt, limit, parts, buffer + rest, stop, after);
    SliceOfJoin(buffer, rest, stop, after);
    SliceOfJoin(buffer, rest, after, after + 2);
  }

  lemma CutAhead(fmt: Format, limit: nat, d: Decoder, rest: seq<byte>, stop: nat, suffix: seq<byte>)
    requires d.stage.Body? && d.Sound() && ScanBody(fmt, d.buffer) == Cut(stop, suffix)
    ensures Ahead(fmt, limit, Advance(fmt, d).value, rest) == Ahead(fmt, limit, d, rest)
  {
    var after := stop + |Marker(fmt)|;
    CutIsFirst(fmt, d.buffer, rest, stop, suffix);
    CutParts(fmt, d, stop, suffix, after);
    CutOutcome(fmt, limit, d.parts, d.buffer, rest, stop, after);
  }

  lemma EndAhead(fmt: Format, limit: nat, d: Decoder, rest: seq<byte>)
    requires d.stage.End? && Advance(fmt, d).Err?
    ensures Ahead(fmt, limit, d, rest) == Refused
  {
    assert (d.buffer + rest)[..|d.buffer|] == d.buffer;
  }

  /** `a` accepts nothing that `b` does not accept alike. */
  ghost predicate NoMoreThan(a: Verdict, b: Verdict) {
    a == Refused || a == b
  }

  /** A turn keeps the decision under the full limit, and never loses one under the safe limit. */
  lemma TurnAhead(fmt: Format, d: Decoder, rest: seq<byte>)
    requires d.Sound() && Advance(fmt, d).Ok?
    ensures Ahead(fmt, MAX_HEADERS, Advance(fmt, d).value, rest) == Ahead(fmt, MAX_HEADERS, d, rest)
    ensures NoMoreThan(Ahead(fmt, SAFE_HEADERS, d, rest), Ahead(fmt, SAFE_HEADERS, Advance(fmt, d).value, rest))
  {
    match d.stage
    case Initial =>
      InitialAhead(fmt, MAX_HEADERS, d, rest);
      InitialAhead(fmt, SAFE_HEADERS, d, rest);
    case Headers =>
      if Find(d.buffer, BLANK_LINE).Some? {
        HeadersAhead(fmt, MAX_HEADERS, d, rest);
        HeadersAhead(fmt, SAFE_HEADERS, d, rest);
      }
    case Body =>
      BodyAhead(fmt, MAX_HEADERS, d, rest);
      BodyAhead(fmt, SAFE_HEADERS, d, rest);
    case End =>
  }

  /** A refused turn is refused under the safe limit whatever follows, and under the full limit if nothing does. */
  lemma RefusalAhead(fmt: Format, d: Decoder, rest: seq<byte>)
    requires d.Sound() && Advance(fmt, d).Err?
    ensures Ahead(fmt, SAFE_HEADERS, d, rest) == Refused
    ensures rest == [] ==> Ahead(fmt, MAX_HEADERS, d, rest) == Refused
  {
    match d.stage
    case Initial =>
      InitialAhead(fmt, MAX_HEADERS, d, rest);
      InitialAhead(fmt, SAFE_HEADERS, d, rest);
    case Headers =>
      if Find(d.buffer, BLANK_LINE).Some? {
        HeadersAhead(fmt, MAX_HEADERS, d, rest);
        HeadersAhead(fmt, SAFE_HEADERS, d, rest);
      } else {
        LongHeadersAhead(fmt, SAFE_HEADERS, d, rest);
        if rest == [] {
          LongHeadersAhead(fmt, MAX_HEADERS, d, rest);
        }
      }
    case Body =>
    case End =>
      EndAhead(fmt, MAX_HEADERS, d, rest);
      EndAhead(fmt, SAFE_HEADERS, d, rest);
  }
}
