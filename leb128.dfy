/**
 * Unsigned LEB128 ("ULEB128"), the variable-length integer format of
 * section 7.6 of the DWARF Debugging Information Format, Version 4, and the
 * format of the payload of a Mach-O LC_FUNCTION_STARTS command: seven data
 * bits per byte, least-significant group first, bit 7 set on every byte but
 * the last.
 *
 * Decoding reads a byte sequence from a cursor position `pos` forward and
 * reports where the next value starts.
 */
module Leb128 {
  import opened Wrappers
  import opened IntTypes

  /** Bit 7 of a byte: set on every byte of a value except its last. */
  const CONTINUATION: int := 0x80

  predicate IsContinuation(b: uint8)
  {
    b >= CONTINUATION
  }

  /** `bytes[lo..hi]` is exactly one value: bit 7 set on every byte but the last. */
  predicate Framed(bytes: seq<uint8>, lo: nat, hi: nat)
  {
    && lo < hi <= |bytes|
    && !IsContinuation(bytes[hi - 1])
    && forall i :: lo <= i < hi - 1 ==> IsContinuation(bytes[i])
  }

  /** The number carried by the seven low bits of `bytes[lo..hi]`, least-significant group first. */
  function GroupsValue(bytes: seq<uint8>, lo: nat, hi: nat): nat
    requires lo <= hi <= |bytes|
    decreases hi - lo
  {
    if lo == hi then 0
    else bytes[lo] % CONTINUATION + CONTINUATION * GroupsValue(bytes, lo + 1, hi)
  }

  function Pow128(n: nat): (r: nat)
    ensures r >= 1
  {
    if n == 0 then 1 else 128 * Pow128(n - 1)
  }

  /**
   * Encodes `v` with the fewest seven-bit groups: the result is one framed
   * value whose groups carry `v`, and it has `k` bytes exactly when
   * 128^(k-1) <= v < 128^k (or k = 1 for the values below 128).
   */
  function EncodeULEB128(v: uint64): (r: seq<uint8>)
    ensures Framed(r, 0, |r|)
    ensures GroupsValue(r, 0, |r|) == v
    ensures v < Pow128(|r|)
    ensures |r| == 1 || Pow128(|r| - 1) <= v
    decreases v
  {
    if v < CONTINUATION then [v]
    else
      var high := v / CONTINUATION;
      var rest := EncodeULEB128(high);
      var r := [v % CONTINUATION + CONTINUATION] + rest;
      GroupsValueShift([r[0]], rest, 0, |rest|);
      assert v == CONTINUATION * high + v % CONTINUATION;
      r
  }

  /**
   * Decodes the value that starts at `pos`. On success the result is the
   * value and the position just after it: the bytes in between are framed
   * and carry the value. It fails when the input ends before a byte with
   * bit 7 clear, and when the value does not fit in 64 bits.
   */
  function DecodeULEB128(bytes: seq<uint8>, pos: nat): (r: Option<(uint64, nat)>)
    requires pos <= |bytes|
    ensures r.Some? ==> Framed(bytes, pos, r.value.1)
    ensures r.Some? ==> r.value.0 == GroupsValue(bytes, pos, r.value.1)
    decreases |bytes| - pos
  {
    if pos == |bytes| then None
    else if !IsContinuation(bytes[pos]) then Some((bytes[pos], pos + 1))
    else
      match DecodeULEB128(bytes, pos + 1)
      case None => None
      case Some((high, next)) =>
        var v := bytes[pos] % CONTINUATION + CONTINUATION * high;
        if v < UINT64_LIMIT then Some((v, next)) else None
  }

  /** Encodes `values` one after the other, with no header, count or padding. */
  function EncodeValues(values: seq<uint64>): (r: seq<uint8>)
    ensures |r| >= |values|
    ensures r == [] <==> values == []
    ensures r != [] ==> !IsContinuation(r[|r| - 1])
  {
    if values == [] then []
    else EncodeULEB128(values[0]) + EncodeValues(values[1..])
  }

  /**
   * Decodes the values from `pos` to the end of `bytes`, in order. The bytes
   * decode as a whole or not at all: one malformed value fails them.
   */
  function DecodeValuesFrom(bytes: seq<uint8>, pos: nat): (r: Option<seq<uint64>>)
    requires pos <= |bytes|
    ensures r.Some? ==> |r.value| <= |bytes| - pos
    ensures pos == |bytes| ==> r == Some([])
    decreases |bytes| - pos
  {
    if pos == |bytes| then Some([])
    else
      match DecodeULEB128(bytes, pos)
      case None => None
      case Some((v, next)) =>
        match DecodeValuesFrom(bytes, next)
        case None => None
        case Some(vs) => Some([v] + vs)
  }

  /** Decodes a whole LC_FUNCTION_STARTS payload into the values it holds. */
  function DecodeValues(bytes: seq<uint8>): (r: Option<seq<uint64>>)
    ensures r.Some? ==> |r.value| <= |bytes|
    ensures bytes == [] ==> r == Some([])
  {
    DecodeValuesFrom(bytes, 0)
  }

  // ---------------------------------------------------------------------
  // Values carried by byte ranges
  // ---------------------------------------------------------------------

  /** A range keeps its value when bytes are put in front of it. */
  lemma {:induction false} GroupsValueShift(p: seq<uint8>, bytes: seq<uint8>, lo: nat, hi: nat)
    requires lo <= hi <= |bytes|
    ensures GroupsValue(p + bytes, |p| + lo, |p| + hi) == GroupsValue(bytes, lo, hi)
    decreases hi - lo
  {
    if lo < hi {
      assert (p + bytes)[|p| + lo] == bytes[lo];
      GroupsValueShift(p, bytes, lo + 1, hi);
    }
  }

  /** A range keeps its value when bytes are put after it. */
  lemma {:induction false} GroupsValueExtend(bytes: seq<uint8>, more: seq<uint8>, lo: nat, hi: nat)
    requires lo <= hi <= |bytes|
    ensures GroupsValue(bytes + more, lo, hi) == GroupsValue(bytes, lo, hi)
    decreases hi - lo
  {
    if lo < hi {
      GroupsValueExtend(bytes, more, lo + 1, hi);
    }
  }

  // ---------------------------------------------------------------------
  // Decoding one value
  // ---------------------------------------------------------------------

  /**
   * When a framed value starts at `pos`, decoding reads exactly that value
   * and succeeds if and only if it fits in 64 bits.
   */
  lemma {:induction false} DecodeFramed(bytes: seq<uint8>, pos: nat, next: nat)
    requires Framed(bytes, pos, next)
    ensures DecodeULEB128(bytes, pos) ==
              if GroupsValue(bytes, pos, next) < UINT64_LIMIT
              then Some((GroupsValue(bytes, pos, next), next))
              else None
    decreases next - pos
  {
    if pos + 1 < next {
      DecodeFramed(bytes, pos + 1, next);
    }
  }

  /** Decoding fails when no byte from `pos` on has bit 7 clear: the value is truncated. */
  lemma {:induction false} DecodeUnterminated(bytes: seq<uint8>, pos: nat)
    requires pos <= |bytes|
    requires forall i :: pos <= i < |bytes| ==> IsContinuation(bytes[i])
    ensures DecodeULEB128(bytes, pos) == None
    decreases |bytes| - pos
  {
    if pos < |bytes| {
      DecodeUnterminated(bytes, pos + 1);
    }
  }

  /** Bytes after a successfully decoded value do not change what is decoded. */
  lemma {:induction false} DecodeExtend(bytes: seq<uint8>, more: seq<uint8>, pos: nat)
    requires pos <= |bytes| && DecodeULEB128(bytes, pos).Some?
    ensures DecodeULEB128(bytes + more, pos) == DecodeULEB128(bytes, pos)
    decreases |bytes| - pos
  {
    if IsContinuation(bytes[pos]) {
      DecodeExtend(bytes, more, pos + 1);
    }
  }

  /** Bytes put in front of the input move every decoded value by their length. */
  lemma {:induction false} DecodeShift(p: seq<uint8>, bytes: seq<uint8>, pos: nat)
    requires pos <= |bytes|
    ensures DecodeULEB128(p + bytes, |p| + pos) ==
              match DecodeULEB128(bytes, pos)
              case None => None
              case Some((v, next)) => Some((v, |p| + next))
    decreases |bytes| - pos
  {
    if pos < |bytes| {
      assert (p + bytes)[|p| + pos] == bytes[pos];
      DecodeShift(p, bytes, pos + 1);
    }
  }

  /**
   * Decoding the encoding of `v`, whatever follows it, yields `v` and
   * consumes exactly the encoded bytes.
   */
  lemma RoundTrip(v: uint64, rest: seq<uint8>)
    ensures DecodeULEB128(EncodeULEB128(v) + rest, 0) == Some((v, |EncodeULEB128(v)|))
  {
    var e := EncodeULEB128(v);
    DecodeFramed(e, 0, |e|);
    DecodeExtend(e, rest, 0);
  }

  /** Splitting a number into its lowest seven-bit group and the rest. */
  lemma SplitGroup(low: nat, high: nat)
    requires low < CONTINUATION
    ensures (low + CONTINUATION * high) / CONTINUATION == high
    ensures (low + CONTINUATION * high) % CONTINUATION == low
  {
  }

  /**
   * A framed value with no zero padding group at its end is exactly what the
   * encoder writes for the number it carries.
   */
  lemma {:induction false} EncodeFramed(bytes: seq<uint8>, lo: nat, hi: nat)
    requires Framed(bytes, lo, hi) && GroupsValue(bytes, lo, hi) < UINT64_LIMIT
    requires hi == lo + 1 || bytes[hi - 1] != 0
    ensures EncodeULEB128(GroupsValue(bytes, lo, hi)) == bytes[lo..hi]
    decreases hi - lo
  {
    if lo + 1 == hi {
      assert GroupsValue(bytes, lo, hi) == bytes[lo] % CONTINUATION + CONTINUATION * GroupsValue(bytes, hi, hi);
      assert bytes[lo..hi] == [bytes[lo]];
    } else {
      var high := GroupsValue(bytes, lo + 1, hi);
      assert Framed(bytes, lo + 1, hi);
      EncodeFramed(bytes, lo + 1, hi);
      EncodeNonZero(high, bytes[lo + 1..hi]);
      EncodeGroup(GroupsValue(bytes, lo, hi), bytes[lo], high);
      SliceCons(bytes, lo, hi);
    }
  }

  /** Only zero is encoded as the single zero byte, so any other encoding of a value shows it is not zero. */
  lemma EncodeNonZero(v: uint64, bytes: seq<uint8>)
    requires EncodeULEB128(v) == bytes && bytes != [0]
    ensures v != 0
  {
    assert EncodeULEB128(0) == [0];
  }

  /**
   * A value of two or more groups is encoded as its low group, flagged with
   * the continuation bit, ahead of the encoding of the other groups.
   */
  lemma EncodeGroup(v: uint64, b: uint8, high: uint64)
    requires IsContinuation(b) && high != 0 && v == b % CONTINUATION + CONTINUATION * high
    ensures EncodeULEB128(v) == [b] + EncodeULEB128(high)
  {
    SplitGroup(b % CONTINUATION, high);
    assert v / CONTINUATION == high;
    assert v % CONTINUATION + CONTINUATION == b;
    assert v >= CONTINUATION;
  }

  lemma SliceCons(bytes: seq<uint8>, lo: nat, hi: nat)
    requires lo < hi <= |bytes|
    ensures bytes[lo..hi] == [bytes[lo]] + bytes[lo + 1..hi]
  {
  }

  /**
   * The encoder's output is the only minimal encoding: a decoded value whose
   * last byte is not a zero padding group was written exactly as the encoder
   * writes it.
   */
  lemma DecodeCanonical(bytes: seq<uint8>, pos: nat, v: uint64, next: nat)
    requires pos <= |bytes| && DecodeULEB128(bytes, pos) == Some((v, next))
    requires next == pos + 1 || bytes[next - 1] != 0
    ensures EncodeULEB128(v) == bytes[pos..next]
  {
    EncodeFramed(bytes, pos, next);
  }

  /** Encodings take between one and ten bytes. */
  lemma EncodeLength(v: uint64)
    ensures 1 <= |EncodeULEB128(v)| <= 10
  {
    var k := |EncodeULEB128(v)|;
    assert Pow128(10) == 0x40_0000_0000_0000_0000;
    if k > 10 {
      Pow128Monotone(10, k - 1);
    }
  }

  lemma {:induction false} Pow128Monotone(i: nat, j: nat)
    requires i <= j
    ensures Pow128(i) <= Pow128(j)
  {
    if i < j {
      Pow128Monotone(i, j - 1);
    }
  }

  /** The examples of minimal encodings: 0, 127, 128 and 300. */
  lemma EncodeExamples()
    ensures EncodeULEB128(0) == [0x00]
    ensures EncodeULEB128(127) == [0x7F]
    ensures EncodeULEB128(128) == [0x80, 0x01]
    ensures EncodeULEB128(300) == [0xAC, 0x02]
  {
  }

  /** A lone byte with bit 7 set is a truncated value. */
  lemma TruncatedExample()
    ensures DecodeULEB128([0x80], 0) == None
    ensures DecodeValues([0x80]) == None
  {
    DecodeUnterminated([0x80], 0);
  }

  // ---------------------------------------------------------------------
  // Whole payloads
  // ---------------------------------------------------------------------

  /** Bytes put in front of the input do not change the values decoded after them. */
  lemma {:induction false} DecodeValuesShift(p: seq<uint8>, bytes: seq<uint8>, pos: nat)
    requires pos <= |bytes|
    ensures DecodeValuesFrom(p + bytes, |p| + pos) == DecodeValuesFrom(bytes, pos)
    decreases |bytes| - pos
  {
    if pos < |bytes| {
      DecodeShift(p, bytes, pos);
      match DecodeULEB128(bytes, pos)
      case None =>
      case Some((v, next)) =>
        DecodeValuesShift(p, bytes, next);
    }
  }

  /** A payload made by the encoder decodes to the values it was made from. */
  lemma {:induction false} RoundTripValues(values: seq<uint64>)
    ensures DecodeValues(EncodeValues(values)) == Some(values)
  {
    if values != [] {
      var e := EncodeULEB128(values[0]);
      var rest := EncodeValues(values[1..]);
      RoundTrip(values[0], rest);
      RoundTripValues(values[1..]);
      DecodeValuesShift(e, rest, 0);
      assert [values[0]] + values[1..] == values;
    }
  }

  /** A payload whose last byte has bit 7 set ends in a truncated value, so it fails as a whole. */
  lemma {:induction false} DecodeValuesTruncated(bytes: seq<uint8>, pos: nat)
    requires pos < |bytes| && IsContinuation(bytes[|bytes| - 1])
    ensures DecodeValuesFrom(bytes, pos) == None
    decreases |bytes| - pos
  {
    match DecodeULEB128(bytes, pos)
    case None =>
    case Some((v, next)) =>
      DecodeValuesTruncated(bytes, next);
  }

  /**
   * Decoding continues where a well-formed payload ends: the values of
   * `a + b` are those of `a` followed by those of `b`.
   */
  lemma {:induction false} DecodeValuesAppend(a: seq<uint8>, b: seq<uint8>, pos: nat, xs: seq<uint64>, zs: seq<uint64>)
    requires pos <= |a| && DecodeValuesFrom(a, pos) == Some(xs) && DecodeValues(b) == Some(zs)
    ensures DecodeValuesFrom(a + b, pos) == Some(xs + zs)
    decreases |a| - pos
  {
    if pos == |a| {
      DecodeValuesShift(a, b, 0);
      assert xs + zs == zs;
    } else {
      var d := DecodeULEB128(a, pos);
      var v, next := d.value.0, d.value.1;
      DecodeExtend(a, b, pos);
      var ys := DecodeValuesFrom(a, next).value;
      DecodeValuesAppend(a, b, next, ys, zs);
      assert [v] + (ys + zs) == xs + zs;
    }
  }

  /**
   * A payload fails as a whole when a malformed value follows well-formed
   * ones: no partial list of values is produced.
   */
  lemma {:induction false} DecodeValuesAppendMalformed(a: seq<uint8>, b: seq<uint8>, pos: nat)
    requires pos <= |a| && DecodeValuesFrom(a, pos).Some? && DecodeValues(b) == None
    ensures DecodeValuesFrom(a + b, pos) == None
    decreases |a| - pos
  {
    if pos == |a| {
      DecodeValuesShift(a, b, 0);
    } else {
      var next := DecodeULEB128(a, pos).value.1;
      DecodeExtend(a, b, pos);
      DecodeValuesAppendMalformed(a, b, next);
    }
  }

  /** No value of `bytes` is padded: a byte after a continuation byte is never a zero group. */
  predicate Unpadded(bytes: seq<uint8>)
  {
    forall i :: 0 < i < |bytes| && IsContinuation(bytes[i - 1]) ==> bytes[i] != 0
  }

  /** In an unpadded payload, a value of two or more bytes does not end in a zero group. */
  lemma UnpaddedEnd(bytes: seq<uint8>, lo: nat, hi: nat)
    requires Unpadded(bytes) && Framed(bytes, lo, hi)
    ensures hi == lo + 1 || bytes[hi - 1] != 0
  {
    if hi > lo + 1 {
      assert IsContinuation(bytes[hi - 2]);
    }
  }

  /**
   * An unpadded payload that decodes re-encodes to exactly the same bytes:
   * the payload is the encoding of its values.
   */
  lemma {:induction false} DecodeValuesCanonical(bytes: seq<uint8>, pos: nat, values: seq<uint64>)
    requires pos <= |bytes| && DecodeValuesFrom(bytes, pos) == Some(values)
    requires Unpadded(bytes)
    ensures EncodeValues(values) == bytes[pos..]
    decreases |bytes| - pos
  {
    if pos < |bytes| {
      var d := DecodeULEB128(bytes, pos);
      var v, next := d.value.0, d.value.1;
      UnpaddedEnd(bytes, pos, next);
      DecodeCanonical(bytes, pos, v, next);
      var rest := DecodeValuesFrom(bytes, next).value;
      DecodeValuesCanonical(bytes, next, rest);
      assert values[0] == v && values[1..] == rest;
      assert EncodeValues(values) == EncodeULEB128(v) + EncodeValues(rest);
      assert bytes[pos..] == bytes[pos..next] + bytes[next..];
    }
  }

  /** The payload 03 05 00 holds the values 3, 5 and 0, and re-encodes to the same three bytes. */
  lemma PayloadExample()
    ensures DecodeValues([0x03, 0x05, 0x00]) == Some([3, 5, 0])
    ensures EncodeValues([3, 5, 0]) == [0x03, 0x05, 0x00]
  {
    assert EncodeValues([0]) == [0] by {
      assert [0][1..] == [];
    }
    assert EncodeValues([5, 0]) == [5, 0] by {
      assert [5, 0][1..] == [0];
    }
    assert EncodeValues([3, 5, 0]) == [3, 5, 0] by {
      assert [3, 5, 0][1..] == [5, 0];
    }
    RoundTripValues([3, 5, 0]);
  }
}
