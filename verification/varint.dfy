/** The block header: an unsigned integer in base 128, least significant
    group first, with bit 7 set on every byte but the last
    (putUvarint, getUvarint and getDecodedLength of SnappyCodec). */
module Varint {
  import opened Bytes

  /** The bytes putUvarint writes for `x`. */
  function Encode(x: nat): (r: seq<byte>)
    ensures 1 <= |r|
    decreases x
  {
    if x < 0x80 then [x] else [x % 0x80 + 0x80] + Encode(x / 0x80)
  }

  /** Every byte putUvarint writes but the last has bit 7 set; the last has
      it clear. */
  lemma {:induction false} EncodeContinuation(x: nat)
    ensures Encode(x)[|Encode(x)| - 1] < 0x80
    ensures forall i :: 0 <= i < |Encode(x)| - 1 ==> Encode(x)[i] >= 0x80
    decreases x
  {
    if x >= 0x80 {
      EncodeContinuation(x / 0x80);
    }
  }

  /** Outcome of getUvarint: the value and the index just past its last
      byte, or one of the two exceptions it throws. */
  datatype Uvarint = Value(v: nat, next: nat) | Overflow | Truncated

  /** getUvarint's scan from index `i`, `k` bytes after its starting index.
      A byte below 0x80 ends the value; it is an overflow when more than ten
      bytes are used, or when the tenth one holds more than the single bit
      that still fits in 64 bits. The value is that of the 64-bit pattern
      Java accumulates, read as unsigned. (Past the tenth byte Java's shift
      distance wraps modulo 64, but every such path ends in Overflow or
      Truncated, so the garbage it accumulates is never returned.) */
  function DecodeFrom(a: seq<byte>, i: nat, k: nat): Uvarint
    decreases |a| - i
  {
    if i >= |a| then Truncated
    else if a[i] < 0x80 then
      if k > 9 || (a[i] > 1 && k == 9) then Overflow else Value(a[i], i + 1)
    else Shifted(a[i] - 0x80, 0x80, DecodeFrom(a, i + 1, k + 1))
  }

  /** getUvarint on the array `a` with cursor `idx`. */
  function Decode(a: seq<byte>, idx: nat): Uvarint
  {
    DecodeFrom(a, idx, 0)
  }

  /** Adds lower-order bits `low` below a value decoded `scale` positions up. */
  function Shifted(low: nat, scale: nat, r: Uvarint): Uvarint
  {
    match r
    case Value(v, next) => Value(low + scale * v, next)
    case _ => r
  }

  /** First index at or after `i` whose byte ends a varint, or |a|. */
  function Terminator(a: seq<byte>, i: nat): (j: nat)
    requires i <= |a|
    ensures i <= j <= |a|
    ensures j < |a| ==> a[j] < 0x80
    ensures forall m :: i <= m < j ==> a[m] >= 0x80
    decreases |a| - i
  {
    if i == |a| || a[i] < 0x80 then i else Terminator(a, i + 1)
  }

  /** One byte of the header, with bit 7 set, moves from what is still to
      write to what is written. */
  lemma EncodeStep(y: nat, done: seq<byte>, total: seq<byte>)
    requires y >= 0x80 && done + Encode(y) == total
    ensures (done + [y % 0x80 + 0x80]) + Encode(y / 0x80) == total
  {
  }

  /** The last byte of the header completes it. */
  lemma EncodeLast(y: nat, done: seq<byte>, total: seq<byte>)
    requires y < 0x80 && done + Encode(y) == total
    ensures done + [y] == total
  {
  }

  /** putUvarint: writes Encode(x) at `idx` and returns the index past it. */
  method PutUvarint(a: array<byte>, idx: nat, x: nat) returns (next: nat)
    requires idx + |Encode(x)| <= a.Length
    modifies a
    ensures next == idx + |Encode(x)|
    ensures Placed(a[..], old(a[..]), idx, Encode(x))
  {
    ghost var done: seq<byte> := [];
    PlacedNothing(a[..], idx);
    var i := idx;
    var y := x;
    while y >= 0x80
      invariant i == idx + |done|
      invariant done + Encode(y) == Encode(x)
      invariant Placed(a[..], old(a[..]), idx, done)
      decreases y
    {
      // (byte) (y | 0x80): the low seven bits with bit 7 set
      EncodeStep(y, done, Encode(x));
      StoreAfter(a, idx, i, old(a[..]), done, [y % 0x80 + 0x80]);
      done := done + [y % 0x80 + 0x80];
      i := i + 1;
      y := y / 0x80;
    }
    EncodeLast(y, done, Encode(x));
    StoreAfter(a, idx, i, old(a[..]), done, [y]);
    done := done + [y];
    next := i + 1;
  }

  /** getUvarint: the same scan as a loop accumulating the value. */
  method GetUvarint(a: array<byte>, idx: nat) returns (r: Uvarint)
    ensures r == Decode(a[..], idx)
  {
    var res: nat := 0;
    var scale: nat := 1;  // 1 << s
    var i := idx;
    while i < a.Length
      invariant idx <= i
      invariant Decode(a[..], idx) == Shifted(res, scale, DecodeFrom(a[..], i, i - idx))
      decreases a.Length - i
    {
      var b := a[i];
      if b < 0x80 {
        if i - idx > 9 || (b > 1 && i - idx == 9) {
          return Overflow;
        }
        return Value(res + scale * b, i + 1);
      }
      // res |= (b & 0x7F) << s: the group lands above every bit set so far
      ShiftedTwice(res, scale, b - 0x80, DecodeFrom(a[..], i + 1, i + 1 - idx));
      res := res + scale * (b - 0x80);
      scale := scale * 0x80;
      i := i + 1;
    }
    return Truncated;
  }

  lemma ShiftedTwice(res: nat, scale: nat, low: nat, r: Uvarint)
    ensures Shifted(res, scale, Shifted(low, 0x80, r)) == Shifted(res + scale * low, scale * 0x80, r)
  {
    if r.Value? {
      calc {
        res + scale * (low + 0x80 * r.v);
        res + scale * low + scale * (0x80 * r.v);
        { assert scale * (0x80 * r.v) == (scale * 0x80) * r.v; }
        res + scale * low + (scale * 0x80) * r.v;
      }
    }
  }

  /** getDecodedLength: the header value as an int, or -1. The value is the
      64-bit pattern getUvarint returns, read as a signed long: above
      0x7FFFFFFF it is refused, otherwise the (int) cast keeps its low 32
      bits. */
  function DecodedLength(r: Uvarint): (n: int)
    ensures -0x8000_0000 <= n <= MAX_INT
    ensures !r.Value? ==> n == -1
    ensures r.Value? && r.v <= MAX_INT ==> n == r.v
    ensures r.Value? && MAX_INT < r.v < TWO_63 ==> n == -1
    ensures r.Value? && TWO_63 <= r.v < TWO_64 ==> n == Int32(r.v - TWO_64)
  {
    match r
    case Value(v, _) =>
      var asLong := if v >= TWO_63 then v - TWO_64 else v;
      if asLong > MAX_INT then -1 else Int32(asLong)
    case _ => -1
  }

  /** getDecodedLength with its cursor update: the index moves past the
      header only when getUvarint returned a value. */
  method GetDecodedLength(a: array<byte>, idx: nat) returns (n: int, next: nat)
    ensures n == DecodedLength(Decode(a[..], idx))
    ensures next == if Decode(a[..], idx).Value? then Decode(a[..], idx).next else idx
  {
    var r := GetUvarint(a, idx);
    n := DecodedLength(r);
    next := if r.Value? then r.next else idx;
  }

  /** Every value below 2^(7m) takes at most m bytes. */
  lemma {:induction false} EncodeLength(x: nat, m: nat)
    requires 1 <= m && x < Pow2(7 * m)
    ensures |Encode(x)| <= m
  {
    if x >= 0x80 {
      assert Pow2(7) == 0x80;
      assert m > 1;
      Pow2Add(7, 7 * (m - 1));
      EncodeLength(x / 0x80, m - 1);
    }
  }

  /** A header for any Java int takes at most five bytes. */
  lemma EncodeLengthInt(x: nat)
    requires x <= MAX_INT
    ensures |Encode(x)| <= 5
  {
    Pow2Of35();
    EncodeLength(x, 5);
  }

  /** Decoding what putUvarint wrote returns the value and leaves the cursor
      just past the last byte written. */
  lemma {:induction false} DecodeEncodeFrom(x: nat, a: seq<byte>, i: nat, k: nat)
    requires k <= 9 && x < Pow2(64 - 7 * k)
    requires i + |Encode(x)| <= |a| && a[i..i + |Encode(x)|] == Encode(x)
    ensures DecodeFrom(a, i, k) == Value(x, i + |Encode(x)|)
    decreases x
  {
    if x < 0x80 {
      assert a[i] == Encode(x)[0];
      assert k == 9 ==> x < 2;
    } else {
      assert k < 9;
      var rest := 64 - 7 * (k + 1);
      Pow2Add(7, rest);
      Pow2Of16();
      DivBound(x, Pow2(rest));
      SliceCons(a, i, x % 0x80 + 0x80, Encode(x / 0x80));
      DecodeEncodeFrom(x / 0x80, a, i + 1, k + 1);
    }
  }

  lemma DivBound(x: nat, p: nat)
    requires x < 0x80 * p
    ensures x / 0x80 < p
  {
  }

  lemma SliceCons(a: seq<byte>, i: nat, b: byte, e: seq<byte>)
    requires i + 1 + |e| <= |a| && a[i..i + 1 + |e|] == [b] + e
    ensures a[i] == b && a[i + 1..i + 1 + |e|] == e
  {
    assert a[i..i + 1 + |e|][0] == b;
    assert a[i + 1..i + 1 + |e|] == a[i..i + 1 + |e|][1..];
  }

  lemma DecodeEncode(x: nat, a: seq<byte>, i: nat)
    requires x < TWO_64
    requires i + |Encode(x)| <= |a| && a[i..i + |Encode(x)|] == Encode(x)
    ensures Decode(a, i) == Value(x, i + |Encode(x)|)
  {
    Pow2Of64();
    DecodeEncodeFrom(x, a, i, 0);
  }

  /** The outcome of getUvarint is decided by the first byte below 0x80:
      none before the end of the array is Truncated; one that is the
      eleventh or later byte, or a tenth byte above 1, is Overflow; any
      other ends the value, and the cursor moves just past it. */
  lemma {:induction false} DecodeFromCases(a: seq<byte>, i: nat, k: nat)
    requires i <= |a|
    ensures var j := Terminator(a, i);
      && (DecodeFrom(a, i, k).Truncated? <==> j == |a|)
      && (DecodeFrom(a, i, k).Overflow? <==>
            j < |a| && (k + (j - i) > 9 || (a[j] > 1 && k + (j - i) == 9)))
      && (DecodeFrom(a, i, k).Value? ==> DecodeFrom(a, i, k).next == j + 1)
    decreases |a| - i
  {
    if i < |a| && a[i] >= 0x80 {
      DecodeFromCases(a, i + 1, k + 1);
    }
  }

  /** A decoded value fits in the 64 - 7k bits left after k bytes. */
  lemma {:induction false} DecodeFromBound(a: seq<byte>, i: nat, k: nat)
    requires DecodeFrom(a, i, k).Value?
    ensures k <= 9 && DecodeFrom(a, i, k).v < Pow2(64 - 7 * k)
    decreases |a| - i
  {
    if a[i] < 0x80 {
      assert Pow2(8) == 0x100;
      if k < 9 {
        Pow2Monotone(8, 64 - 7 * k);
      }
    } else {
      DecodeFromBound(a, i + 1, k + 1);
      var r := DecodeFrom(a, i + 1, k + 1);
      Pow2Add(7, 64 - 7 * (k + 1));
      assert r.v + 1 <= Pow2(64 - 7 * (k + 1));
      assert 0x80 * (r.v + 1) <= 0x80 * Pow2(64 - 7 * (k + 1));
    }
  }

  lemma DecodeCases(a: seq<byte>, idx: nat)
    requires idx <= |a|
    ensures var j := Terminator(a, idx);
      && (Decode(a, idx).Truncated? <==> j == |a|)
      && (Decode(a, idx).Overflow? <==> j < |a| && (j - idx > 9 || (a[j] > 1 && j - idx == 9)))
      && (Decode(a, idx).Value? ==> Decode(a, idx).next == j + 1 && Decode(a, idx).v < TWO_64)
  {
    DecodeFromCases(a, idx, 0);
    if Decode(a, idx).Value? {
      DecodeFromBound(a, idx, 0);
      Pow2Of64();
    }
  }

  /** getDecodedLength maps a well-formed header up to 0x7FFFFFFF to its
      value, and every error and every larger value below 2^63 to -1. */
  lemma DecodedLengthOfEncode(x: nat, a: seq<byte>, i: nat)
    requires x <= MAX_INT
    requires i + |Encode(x)| <= |a| && a[i..i + |Encode(x)|] == Encode(x)
    ensures DecodedLength(Decode(a, i)) == x
  {
    DecodeEncode(x, a, i);
  }

  /** As written, a ten-byte header whose last byte is 1 is a value of at
      least 2^63, which Java holds as a negative long: it passes the
      `v > 0x7FFFFFFF` test and the (int) cast keeps its low 32 bits. The
      header 80 80 80 80 80 80 80 80 80 01 (the value 2^63) therefore reads
      as length 0 instead of -1. */
  lemma DecodedLengthOfHugeHeader()
    ensures Decode(HUGE_HEADER, 0) == Value(TWO_63, 10)
    ensures DecodedLength(Decode(HUGE_HEADER, 0)) == 0
  {
    var a := HUGE_HEADER;
    assert DecodeFrom(a, 9, 9) == Value(1, 10);
    assert DecodeFrom(a, 8, 8) == Value(0x80, 10);
    assert DecodeFrom(a, 7, 7) == Value(0x4000, 10);
    assert DecodeFrom(a, 6, 6) == Value(0x20_0000, 10);
    assert DecodeFrom(a, 5, 5) == Value(0x1000_0000, 10);
    assert DecodeFrom(a, 4, 4) == Value(0x8_0000_0000, 10);
    assert DecodeFrom(a, 3, 3) == Value(0x400_0000_0000, 10);
    assert DecodeFrom(a, 2, 2) == Value(0x2_0000_0000_0000, 10);
    assert DecodeFrom(a, 1, 1) == Value(0x100_0000_0000_0000, 10);
  }

  const HUGE_HEADER: seq<byte> := [0x80, 0x80, 0x80, 0x80, 0x80, 0x80, 0x80, 0x80, 0x80, 0x01]
}
