/** Byte values, Java's 32-bit integer arithmetic and the helpers shared by the codec. */
module Bytes {

  /** A Java byte read through `b & 0xFF`: the codec compares and combines
      bytes only through that unsigned view (or through equality, which the
      signed and unsigned views agree on). */
  type byte = x: int | 0 <= x < 256

  datatype Option<T> = None | Some(value: T)

  /** Integer.MAX_VALUE */
  const MAX_INT: int := 0x7FFF_FFFF

  /** The value a Java `int` holds after an arithmetic result `x` is stored
      into it (two's complement wrap-around). */
  function Int32(x: int): (r: int)
    ensures -0x8000_0000 <= r <= MAX_INT
    ensures (r - x) % 0x1_0000_0000 == 0
    ensures -0x8000_0000 <= x <= MAX_INT ==> r == x
  {
    (x + 0x8000_0000) % 0x1_0000_0000 - 0x8000_0000
  }

  function Pow2(n: nat): (r: nat)
    ensures r >= 1
  {
    if n == 0 then 1 else 2 * Pow2(n - 1)
  }

  lemma {:induction false} Pow2Add(a: nat, b: nat)
    ensures Pow2(a + b) == Pow2(a) * Pow2(b)
  {
    if a > 0 {
      Pow2Add(a - 1, b);
    }
  }

  lemma {:induction false} Pow2Monotone(a: nat, b: nat)
    requires a <= b
    ensures Pow2(a) <= Pow2(b)
  {
    if a < b {
      Pow2Monotone(a, b - 1);
    }
  }

  const TWO_31: int := 0x8000_0000
  const TWO_32: int := 0x1_0000_0000
  const TWO_63: int := 0x8000_0000_0000_0000
  const TWO_64: int := 0x1_0000_0000_0000_0000

  lemma Pow2Of16()
    ensures Pow2(7) == 0x80 && Pow2(8) == 0x100 && Pow2(16) == 0x1_0000
  {
    Pow2Add(8, 8);
  }

  lemma Pow2Of32()
    ensures Pow2(31) == TWO_31 && Pow2(32) == TWO_32
  {
    Pow2Of16();
    Pow2Add(16, 15);
    Pow2Add(16, 16);
  }

  lemma Pow2Of35()
    ensures Pow2(35) == 0x8_0000_0000
  {
    Pow2Of32();
    Pow2Add(32, 3);
  }

  lemma Pow2Of64()
    ensures Pow2(63) == TWO_63 && Pow2(64) == TWO_64
  {
    Pow2Of32();
    Pow2Add(32, 31);
    Pow2Add(32, 32);
  }

  lemma ConcatAssoc(a: seq<byte>, b: seq<byte>, c: seq<byte>)
    ensures a + (b + c) == (a + b) + c
  {
  }

  /** Two adjacent slices make one. */
  lemma SliceJoin(x: seq<byte>, a: nat, b: nat, c: nat)
    requires a <= b <= c <= |x|
    ensures x[a..b] + x[b..c] == x[a..c]
  {
  }

  /** `a` is `b` with `bytes` written over positions [at, at + |bytes|) and
      nothing else changed. */
  ghost predicate Placed(a: seq<byte>, b: seq<byte>, at: nat, bytes: seq<byte>)
  {
    && |a| == |b|
    && at + |bytes| <= |a|
    && a[..at] == b[..at]
    && a[at..at + |bytes|] == bytes
    && a[at + |bytes|..] == b[at + |bytes|..]
  }

  /** Writing one more byte just past a placed run extends the run. */
  lemma PlacedExtend(a: seq<byte>, b: seq<byte>, at: nat, bytes: seq<byte>, v: byte)
    requires Placed(a, b, at, bytes) && at + |bytes| < |a|
    ensures Placed(a[at + |bytes| := v], b, at, bytes + [v])
  {
    var a' := a[at + |bytes| := v];
    assert a'[at..at + |bytes| + 1] == a[at..at + |bytes|] + [v];
    assert a'[at + |bytes| + 1..] == a[at + |bytes| + 1..];
  }

  /** Two placed runs side by side make one. */
  lemma PlacedConcat(c: seq<byte>, a: seq<byte>, b: seq<byte>, at: nat, first: seq<byte>, second: seq<byte>)
    requires Placed(a, b, at, first)
    requires Placed(c, a, at + |first|, second)
    ensures Placed(c, b, at, first + second)
  {
    assert c[..at] == a[..at];
    assert c[at..at + |first|] == a[at..at + |first|];
    assert c[at..at + |first| + |second|] == c[at..at + |first|] + c[at + |first|..at + |first| + |second|];
  }

  /** A placed run is the old contents with the run spliced in. */
  lemma PlacedSplice(a: seq<byte>, b: seq<byte>, at: nat, bytes: seq<byte>)
    requires Placed(a, b, at, bytes)
    ensures a == b[..at] + bytes + b[at + |bytes|..]
  {
    assert a == a[..at] + a[at..at + |bytes|] + a[at + |bytes|..];
  }

  /** Placing nothing changes nothing. */
  lemma PlacedNothing(a: seq<byte>, at: nat)
    requires at <= |a|
    ensures Placed(a, a, at, [])
  {
  }

  /** The bytes of a run written position by position. */
  lemma PlacedFromElements(a: seq<byte>, b: seq<byte>, at: nat, bytes: seq<byte>)
    requires |a| == |b| && at + |bytes| <= |a|
    requires forall k :: 0 <= k < |a| && !(at <= k < at + |bytes|) ==> a[k] == b[k]
    requires forall k :: 0 <= k < |bytes| ==> a[at + k] == bytes[k]
    ensures Placed(a, b, at, bytes)
  {
    assert a[..at] == b[..at];
    assert a[at + |bytes|..] == b[at + |bytes|..];
  }

  /** Stores `bytes` at positions [at, at + |bytes|) of `a`: a run of
      consecutive byte stores, or System.arraycopy from another array. */
  method Store(a: array<byte>, at: nat, bytes: seq<byte>)
    requires at + |bytes| <= a.Length
    modifies a
    ensures Placed(a[..], old(a[..]), at, bytes)
  {
    forall k | 0 <= k < |bytes| {
      a[at + k] := bytes[k];
    }
    PlacedFromElements(a[..], old(a[..]), at, bytes);
  }

  /** Stores `bytes` at idx, just past a run `done` already placed at `at`
      over `orig`, extending that run. */
  method StoreAfter(a: array<byte>, at: nat, idx: nat, ghost orig: seq<byte>, ghost done: seq<byte>, bytes: seq<byte>)
    requires Placed(a[..], orig, at, done) && idx == at + |done|
    requires idx + |bytes| <= a.Length
    modifies a
    ensures Placed(a[..], orig, at, done + bytes)
  {
    ghost var before := a[..];
    Store(a, idx, bytes);
    PlacedConcat(a[..], before, orig, at, done, bytes);
  }
}
