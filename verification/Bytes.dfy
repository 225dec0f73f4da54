/** Byte strings and searching in them. */
module Bytes {
  import opened Wrappers

  type byte = b: nat | b < 256

  const CR: byte := 13
  const LF: byte := 10
  const DASH: byte := 45
  const CRLF: seq<byte> := [CR, LF]
  const DASHES: seq<byte> := [DASH, DASH]
  const BLANK_LINE: seq<byte> := [CR, LF, CR, LF]

  /** `needle` occurs in `hay` at `p`. */
  predicate At(hay: seq<byte>, needle: seq<byte>, p: nat) {
    p + |needle| <= |hay| && hay[p..p + |needle|] == needle
  }

  lemma SliceOfJoin(s: seq<byte>, rest: seq<byte>, i: nat, j: nat)
    requires i <= j <= |s|
    ensures (s + rest)[..i] == s[..i]
    ensures (s + rest)[i..j] == s[i..j]
    ensures (s + rest)[j..] == s[j..] + rest
  {
  }

  lemma AtTail(hay: seq<byte>, needle: seq<byte>, q: nat)
    requires hay != [] && q >= 1
    ensures At(hay, needle, q) <==> At(hay[1..], needle, q - 1)
  {
    if q + |needle| <= |hay| {
      var there, here := hay[q..q + |needle|], hay[1..][q - 1..q - 1 + |needle|];
      assert |there| == |here| == |needle| && forall i :: 0 <= i < |needle| ==> there[i] == here[i];
      assert there == here;
    }
  }

  /** The first occurrence, as `bytearray.find` gives it. */
  function Find(hay: seq<byte>, needle: seq<byte>): (r: Option<nat>)
    ensures r.Some? ==> At(hay, needle, r.value) && forall q: nat :: q < r.value ==> !At(hay, needle, q)
    ensures r.None? ==> forall q: nat :: !At(hay, needle, q)
  {
    if At(hay, needle, 0) then Some(0)
    else if hay == [] then None
    else
      var rest := Find(hay[1..], needle);
      assert forall q: nat :: q >= 1 ==> (At(hay, needle, q) <==> At(hay[1..], needle, q - 1)) by {
        forall q: nat | q >= 1 ensures At(hay, needle, q) <==> At(hay[1..], needle, q - 1) {
          AtTail(hay, needle, q);
        }
      }
      assert rest.Some? ==> At(hay, needle, rest.value + 1);
      if rest.None? then None else Some(rest.value + 1)
  }

  /** What lies wholly inside a prefix occurs in the whole exactly there. */
  lemma AtPrefix(hay: seq<byte>, rest: seq<byte>, needle: seq<byte>, p: nat)
    requires p + |needle| <= |hay|
    ensures At(hay + rest, needle, p) <==> At(hay, needle, p)
  {
    assert (hay + rest)[p..p + |needle|] == hay[p..p + |needle|];
  }

  /** A first occurrence is decided by any prefix that holds it. */
  lemma FindInPrefix(hay: seq<byte>, rest: seq<byte>, needle: seq<byte>)
    requires Find(hay, needle).Some?
    ensures Find(hay + rest, needle) == Find(hay, needle)
  {
    var p := Find(hay, needle).value;
    AtPrefix(hay, rest, needle, p);
    var q := Find(hay + rest, needle);
    if q.Some? && q.value < p {
      AtPrefix(hay, rest, needle, q.value);
    }
  }

  /** When a prefix holds no occurrence, the first one in the whole ends after it. */
  lemma FindBeyondPrefix(hay: seq<byte>, rest: seq<byte>, needle: seq<byte>)
    requires Find(hay, needle).None?
    ensures Find(hay + rest, needle).Some? ==> Find(hay + rest, needle).value + |needle| > |hay|
  {
    var q := Find(hay + rest, needle);
    if q.Some? && q.value + |needle| <= |hay| {
      AtPrefix(hay, rest, needle, q.value);
    }
  }

  lemma FindIs(hay: seq<byte>, needle: seq<byte>, p: nat)
    requires At(hay, needle, p) && forall q: nat :: q < p ==> !At(hay, needle, q)
    ensures Find(hay, needle) == Some(p)
  {
    var q := Find(hay, needle);
    assert q.Some?;
  }
}
