/** The multipart body as one complete byte string: what it is cut into, and whether it is accepted. */
module MultipartFormat {
  import opened Wrappers
  import opened Bytes

  datatype Stage = Initial | Headers | Body | End

  /** One decoded part: its header block and its content. */
  datatype Part = Part(header: seq<byte>, content: seq<byte>)

  datatype Verdict = Refused | Accepted(parts: seq<Part>)

  /** The opening boundary line without its CRLF, and which header blocks name one file part. */
  datatype Format = Format(boundary: seq<byte>, headerOk: seq<byte> -> bool)

  function Marker(fmt: Format): seq<byte> {
    CRLF + fmt.boundary
  }

  /** A marker at `p` that is followed by `--` or CRLF: what ends a part (section 5.1.1 of RFC 2046). */
  predicate Delimiter(fmt: Format, bytes: seq<byte>, p: nat) {
    var after := p + |Marker(fmt)|;
    && At(bytes, Marker(fmt), p)
    && after + 2 <= |bytes|
    && (bytes[after..after + 2] == DASHES || bytes[after..after + 2] == CRLF)
  }

  lemma {:induction false} LeastDelimiter(fmt: Format, bytes: seq<byte>, p: nat)
    requires Delimiter(fmt, bytes, p)
    ensures exists d: nat :: Delimiter(fmt, bytes, d) && forall q: nat :: q < d ==> !Delimiter(fmt, bytes, q)
  {
    if q: nat :| q < p && Delimiter(fmt, bytes, q) {
      LeastDelimiter(fmt, bytes, q);
    }
  }

  /** Where the part being received ends: at the first delimiter. */
  ghost function FirstDelimiter(fmt: Format, bytes: seq<byte>): (r: Option<nat>)
    ensures r.Some? ==> Delimiter(fmt, bytes, r.value) && forall q: nat :: q < r.value ==> !Delimiter(fmt, bytes, q)
    ensures r.None? ==> forall q: nat :: !Delimiter(fmt, bytes, q)
  {
    if exists p: nat :: Delimiter(fmt, bytes, p) then
      LeastDelimiter(fmt, bytes, var p: nat :| Delimiter(fmt, bytes, p); p);
      var d: nat :| Delimiter(fmt, bytes, d) && forall q: nat :: q < d ==> !Delimiter(fmt, bytes, q);
      Some(d)
    else None
  }

  /** `parts` with `data` added to the content of the last one. */
  function Written(parts: seq<Part>, data: seq<byte>): seq<Part>
    requires parts != []
  {
    var last := parts[|parts| - 1];
    parts[..|parts| - 1] + [last.(content := last.content + data)]
  }

  /** The decision on all remaining bytes at once, with header blocks of at most `limit` bytes. In the body stage
      the last of `parts` is the one being received. */
  ghost function Outcome(fmt: Format, limit: nat, stage: Stage, parts: seq<Part>, bytes: seq<byte>): Verdict
    requires stage.Body? ==> parts != []
    decreases |bytes|, 0
  {
    match stage
    case Initial =>
      var size := |fmt.boundary| + 2;
      if |bytes| < size || bytes[..|fmt.boundary|] != fmt.boundary then Refused
      else if bytes[|fmt.boundary|..size] == CRLF then Outcome(fmt, limit, Headers, parts, bytes[size..])
      else if bytes[|fmt.boundary|..size] == DASHES then Outcome(fmt, limit, End, parts, bytes[size..])
      else Refused
    case Headers =>
      var stop := Find(bytes, BLANK_LINE);
      if stop.None? || stop.value > limit || !fmt.headerOk(bytes[..stop.value]) then Refused
      else Outcome(fmt, limit, Body, parts + [Part(bytes[..stop.value], [])], bytes[stop.value + 4..])
    case Body =>
      var stop := FirstDelimiter(fmt, bytes);
      if stop.None? then Refused
      else
        var after := stop.value + |Marker(fmt)|;
        AfterPart(fmt, limit, Written(parts, bytes[..stop.value]), bytes[after..after + 2], bytes[after + 2..])
    case End =>
      if bytes == [] || bytes == CRLF then Accepted(parts) else Refused
  }

  /** What follows a part: the epilogue after `--`, the next part's headers after CRLF. */
  ghost function AfterPart(fmt: Format, limit: nat, parts: seq<Part>, suffix: seq<byte>, rest: seq<byte>): Verdict
    decreases |rest|, 1
  {
    if suffix == DASHES then Outcome(fmt, limit, End, parts, rest) else Outcome(fmt, limit, Headers, parts, rest)
  }

  lemma DelimiterPrefix(fmt: Format, bytes: seq<byte>, rest: seq<byte>, p: nat)
    requires p + |Marker(fmt)| + 2 <= |bytes|
    ensures Delimiter(fmt, bytes + rest, p) <==> Delimiter(fmt, bytes, p)
  {
    var after := p + |Marker(fmt)|;
    AtPrefix(bytes, rest, Marker(fmt), p);
    assert (bytes + rest)[after..after + 2] == bytes[after..after + 2];
  }

  lemma DelimiterDropped(fmt: Format, bytes: seq<byte>, k: nat, p: nat)
    requires k <= |bytes|
    ensures Delimiter(fmt, bytes[k..], p) <==> Delimiter(fmt, bytes, k + p)
  {
    var after := p + |Marker(fmt)|;
    if k + after + 2 <= |bytes| {
      assert bytes[k..][after..after + 2] == bytes[k + after..k + after + 2];
    }
  }

  lemma FirstDelimiterIs(fmt: Format, bytes: seq<byte>, p: nat)
    requires Delimiter(fmt, bytes, p) && forall q: nat :: q < p ==> !Delimiter(fmt, bytes, q)
    ensures FirstDelimiter(fmt, bytes) == Some(p)
  {
  }

  lemma FirstDelimiterDropped(fmt: Format, bytes: seq<byte>, k: nat)
    requires k <= |bytes|
    requires forall q: nat :: q < k ==> !Delimiter(fmt, bytes, q)
    ensures var stop := FirstDelimiter(fmt, bytes);
            FirstDelimiter(fmt, bytes[k..]) == if stop.None? then None else Some(stop.value - k)
  {
    var stop, later := FirstDelimiter(fmt, bytes), FirstDelimiter(fmt, bytes[k..]);
    if later.Some? {
      DelimiterDropped(fmt, bytes, k, later.value);
    }
    if stop.Some? {
      DelimiterDropped(fmt, bytes, k, stop.value - k);
    }
  }

  lemma BodyCut(fmt: Format, limit: nat, parts: seq<Part>, bytes: seq<byte>, p: nat, after: nat)
    requires parts != [] && FirstDelimiter(fmt, bytes) == Some(p) && after == p + |Marker(fmt)|
    ensures after + 2 <= |bytes|
    ensures Outcome(fmt, limit, Body, parts, bytes)
            == AfterPart(fmt, limit, Written(parts, bytes[..p]), bytes[after..after + 2], bytes[after + 2..])
  {
  }

  lemma BodyCutAs(fmt: Format, limit: nat, parts: seq<Part>, bytes: seq<byte>, p: nat, written: seq<Part>,
                  suffix: seq<byte>, rest: seq<byte>)
    requires parts != [] && FirstDelimiter(fmt, bytes) == Some(p) && written == Written(parts, bytes[..p])
    requires var after := p + |Marker(fmt)|; suffix == bytes[after..after + 2] && rest == bytes[after + 2..]
    ensures Outcome(fmt, limit, Body, parts, bytes) == AfterPart(fmt, limit, written, suffix, rest)
  {
  }

  /** Bytes before which no delimiter starts can be written out ahead of it. */
  lemma WriteAhead(fmt: Format, limit: nat, parts: seq<Part>, bytes: seq<byte>, k: nat)
    requires parts != [] && k <= |bytes|
    requires forall q: nat :: q < k ==> !Delimiter(fmt, bytes, q)
    ensures Outcome(fmt, limit, Body, parts, bytes)
            == Outcome(fmt, limit, Body, Written(parts, bytes[..k]), bytes[k..])
  {
    var stop := FirstDelimiter(fmt, bytes);
    FirstDelimiterDropped(fmt, bytes, k);
    if stop.Some? {
      WriteAheadOf(fmt, limit, parts, bytes, k, stop.value);
    }
  }

  lemma WriteAheadOf(fmt: Format, limit: nat, parts: seq<Part>, bytes: seq<byte>, k: nat, p: nat)
    requires parts != [] && k <= p <= |bytes|
    requires FirstDelimiter(fmt, bytes) == Some(p) && FirstDelimiter(fmt, bytes[k..]) == Some(p - k)
    ensures Outcome(fmt, limit, Body, parts, bytes)
            == Outcome(fmt, limit, Body, Written(parts, bytes[..k]), bytes[k..])
  {
    var after := p + |Marker(fmt)|;
    var written, suffix, rest := Written(parts, bytes[..p]), bytes[after..after + 2], bytes[after + 2..];
    var tail := bytes[k..];
    assert tail[after - k..after - k + 2] == suffix && tail[after - k + 2..] == rest;
    assert bytes[..k] + tail[..p - k] == bytes[..p];
    WrittenTwice(parts, bytes[..k], tail[..p - k]);
    BodyCutAs(fmt, limit, parts, bytes, p, written, suffix, rest);
    BodyCutAs(fmt, limit, Written(parts, bytes[..k]), tail, p - k, written, suffix, rest);
  }

  lemma WrittenTwice(parts: seq<Part>, a: seq<byte>, b: seq<byte>)
    requires parts != []
    ensures Written(Written(parts, a), b) == Written(parts, a + b)
  {
    var content := parts[|parts| - 1].content;
    assert (content + a) + b == content + (a + b);
  }
}
