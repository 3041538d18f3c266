/** The literal and copy elements of a block: their tag layouts and the two
    emitters that write them (emitLiteral and emitCopy of SnappyCodec). */
module Tags {
  import opened Bytes

  const TAG_LITERAL: byte := 0x00
  const TAG_COPY1: byte := 0x01
  const TAG_COPY2: byte := 0x02
  const TAG_DEC_LEN1: byte := 60
  const TAG_DEC_LEN2: byte := 61
  const TAG_DEC_LEN3: byte := 62
  const TAG_DEC_LEN4: byte := 63
  const TAG_ENC_LEN1: byte := 60 * 4 + TAG_LITERAL
  const TAG_ENC_LEN2: byte := 61 * 4 + TAG_LITERAL
  const TAG_ENC_LEN3: byte := 62 * 4 + TAG_LITERAL
  const TAG_ENC_LEN4: byte := 63 * 4 + TAG_LITERAL

  /** The unsigned value of little-endian bytes. */
  function LittleEndian(bs: seq<byte>): nat
  {
    if bs == [] then 0 else bs[0] + 0x100 * LittleEndian(bs[1..])
  }

  /** The tag bytes emitLiteral writes for a literal of n + 1 bytes. */
  function LiteralTag(n: nat): (r: seq<byte>)
    requires n < MAX_INT
    ensures 1 <= |r| <= 5 && r[0] % 4 == TAG_LITERAL
  {
    if n < 60 then
      [n * 4 + TAG_LITERAL]
    else if n < 0x100 then
      [TAG_ENC_LEN1, n % 0x100]
    else if n < 0x1_0000 then
      [TAG_ENC_LEN2, n % 0x100, (n / 0x100) % 0x100]
    else if n < 0x100_0000 then
      [TAG_ENC_LEN3, n % 0x100, (n / 0x100) % 0x100, (n / 0x1_0000) % 0x100]
    else
      [TAG_ENC_LEN4, n % 0x100, (n / 0x100) % 0x100, (n / 0x1_0000) % 0x100, (n / 0x100_0000) % 0x100]
  }

  /** What a literal tag says: its upper six bits hold n when n < 60, and
      otherwise the selector 58 + |tag| for the narrowest count (one to four)
      of little-endian extra bytes that holds n, followed by those bytes. */
  lemma LiteralTagDecodes(n: nat)
    requires n < MAX_INT
    ensures var r := LiteralTag(n);
            && (|r| == 1 ==> r[0] / 4 == n)
            && (|r| > 1 ==> r[0] / 4 == 58 + |r| && LittleEndian(r[1..]) == n)
            && (|r| == 1 <==> n < 60)
            && (|r| == 2 <==> 60 <= n < 0x100)
            && (|r| == 3 <==> 0x100 <= n < 0x1_0000)
            && (|r| == 4 <==> 0x1_0000 <= n < 0x100_0000)
            && (|r| == 5 <==> 0x100_0000 <= n)
  {
    var r := LiteralTag(n);
    if 60 <= n < 0x100 {
      LittleEndianCons(n % 0x100, []);
      assert r[1..] == [n % 0x100];
    } else if 0x100 <= n < 0x1_0000 {
      LittleEndianCons((n / 0x100) % 0x100, []);
      LittleEndianCons(n % 0x100, [(n / 0x100) % 0x100]);
      assert r[1..] == [n % 0x100, (n / 0x100) % 0x100];
    } else if 0x1_0000 <= n < 0x100_0000 {
      LittleEndian3(n);
      assert r[1..] == [n % 0x100, (n / 0x100) % 0x100, (n / 0x1_0000) % 0x100];
    } else if 0x100_0000 <= n {
      LittleEndian4(n);
      assert r[1..] == [n % 0x100, (n / 0x100) % 0x100, (n / 0x1_0000) % 0x100, (n / 0x100_0000) % 0x100];
    }
  }

  lemma DivDiv(n: nat)
    ensures n / 0x1_0000 == (n / 0x100) / 0x100
    ensures n / 0x100_0000 == (n / 0x1_0000) / 0x100
  {
    var q := n / 0x100;
    assert n == 0x1_0000 * (q / 0x100) + (n % 0x100 + 0x100 * (q % 0x100));
    var q3 := n / 0x1_0000;
    assert n == 0x100_0000 * (q3 / 0x100) + (n % 0x1_0000 + 0x1_0000 * (q3 % 0x100));
  }

  lemma LittleEndianCons(b: byte, rest: seq<byte>)
    ensures LittleEndian([b] + rest) == b + 0x100 * LittleEndian(rest)
  {
    assert ([b] + rest)[1..] == rest;
  }

  lemma LittleEndian3(n: nat)
    requires n < 0x100_0000
    ensures LittleEndian([n % 0x100, (n / 0x100) % 0x100, (n / 0x1_0000) % 0x100]) == n
  {
    DivDiv(n);
    var q := n / 0x100;
    LittleEndianCons(q / 0x100, []);
    LittleEndianCons(q % 0x100, [q / 0x100]);
    LittleEndianCons(n % 0x100, [q % 0x100, q / 0x100]);
  }

  lemma LittleEndian4(n: nat)
    requires n < 0x1_0000_0000
    ensures LittleEndian([n % 0x100, (n / 0x100) % 0x100, (n / 0x1_0000) % 0x100, (n / 0x100_0000) % 0x100]) == n
  {
    DivDiv(n);
    DivDiv(n / 0x100);
    var q := n / 0x100;
    var q2 := q / 0x100;
    LittleEndianCons(q2 / 0x100, []);
    LittleEndianCons(q2 % 0x100, [q2 / 0x100]);
    LittleEndianCons(q % 0x100, [q2 % 0x100, q2 / 0x100]);
    LittleEndianCons(n % 0x100, [q % 0x100, q2 % 0x100, q2 / 0x100]);
  }

  /** A literal element: its tag followed by the bytes verbatim. */
  function LiteralElement(bytes: seq<byte>): (r: seq<byte>)
    requires 1 <= |bytes| <= MAX_INT
    ensures |r| == |LiteralTag(|bytes| - 1)| + |bytes| <= |bytes| + 5
    ensures r[0] % 4 == TAG_LITERAL && r[|r| - |bytes|..] == bytes
  {
    LiteralTag(|bytes| - 1) + bytes
  }

  /** A 2-byte tag-01 element for a copy of 4 <= len < 12 bytes: the three
      high bits of the offset, len - 4, then the low offset byte b1. */
  function Copy1Element(len: nat, b1: byte, b2: byte): seq<byte>
    requires 4 <= len < 12
  {
    [(b2 % 8) * 32 + (len - 4) * 4 + TAG_COPY1, b1]
  }

  /** A 3-byte tag-10 element for a copy of 1 <= x <= 64 bytes: x - 1, then
      the offset as two little-endian bytes b1, b2. */
  function Copy2Element(x: nat, b1: byte, b2: byte): seq<byte>
    requires 1 <= x <= 64
  {
    [(x - 1) * 4 + TAG_COPY2, b1, b2]
  }

  /** The bytes emitCopy writes for a copy of `len` bytes at distance
      `offset`: one tag-01 element when offset < 2048 and 4 <= len < 12,
      otherwise a tag-10 element for min(len, 64) bytes followed by the
      elements for the rest. The offset bytes are those of Java's (byte)
      casts of offset and offset >> 8. */
  function CopyChunks(offset: nat, len: nat): (r: seq<byte>)
    ensures r == [] <==> len == 0
    ensures r != [] ==> r[0] % 4 == TAG_COPY1 || r[0] % 4 == TAG_COPY2
    decreases len
  {
    if len == 0 then []
    else if offset < 2048 && len < 12 && len >= 4 then
      Copy1Element(len, offset % 0x100, (offset / 0x100) % 0x100)
    else
      var x := if len <= 64 then len else 64;
      Copy2Element(x, offset % 0x100, (offset / 0x100) % 0x100) + CopyChunks(offset, len - x)
  }

  /** A copy never costs more than two bytes over its length, and one of
      four or more bytes is shorter than the bytes it stands for. */
  lemma {:induction false} CopyChunksCost(offset: nat, len: nat)
    ensures len >= 1 ==> |CopyChunks(offset, len)| <= len + 2
    ensures len >= 4 ==> |CopyChunks(offset, len)| <= len - 1
    decreases len
  {
    if len > 64 {
      CopyChunksCost(offset, len - 64);
    }
  }

  lemma PlacedLiteral(c: seq<byte>, b: seq<byte>, at: nat, tag: seq<byte>, bytes: seq<byte>)
    requires 1 <= |bytes| <= MAX_INT && tag == LiteralTag(|bytes| - 1)
    requires Placed(c, b, at, tag + bytes)
    ensures Placed(c, b, at, LiteralElement(bytes))
  {
  }

  /** Copies src[srcIdx..srcIdx + len] to dst at idx, just past a run
      `done` already placed at `at` over `orig`. */
  method CopyRange(src: array<byte>, srcIdx: nat, dst: array<byte>, at: nat, idx: nat,
                   ghost orig: seq<byte>, ghost done: seq<byte>, len: nat)
    requires src != dst
    requires srcIdx + len <= src.Length && idx + len <= dst.Length
    requires Placed(dst[..], orig, at, done) && idx == at + |done|
    modifies dst
    ensures Placed(dst[..], orig, at, done + src[srcIdx..srcIdx + len])
  {
    StoreAfter(dst, at, idx, orig, done, src[srcIdx..srcIdx + len]);
  }

  /** A literal's tag never costs more than one byte plus a sixth of the
      literal's length. */
  lemma LiteralTagCost(len: nat)
    requires 1 <= len <= MAX_INT
    ensures |LiteralTag(len - 1)| <= 1 + len / 6
  {
  }

  /** emitLiteral: writes LiteralElement(src[srcIdx..srcIdx + len]) at dstIdx and
      returns the number of bytes written, tag size plus len. */
  method EmitLiteral(src: array<byte>, srcIdx: nat, dst: array<byte>, dstIdx: nat, len: nat)
    returns (written: nat)
    requires src != dst
    requires 1 <= len <= MAX_INT && srcIdx + len <= src.Length
    requires dstIdx + |LiteralTag(len - 1)| + len <= dst.Length
    modifies dst
    ensures written == |LiteralTag(len - 1)| + len
    ensures Placed(dst[..], old(dst[..]), dstIdx, LiteralElement(src[srcIdx..srcIdx + len]))
  {
    var n := len - 1;
    var tag: seq<byte>;
    if n < 60 {
      tag := [n * 4 + TAG_LITERAL];
    } else if n < 0x100 {
      tag := [TAG_ENC_LEN1, n % 0x100];
    } else if n < 0x1_0000 {
      tag := [TAG_ENC_LEN2, n % 0x100, (n / 0x100) % 0x100];
    } else if n < 0x100_0000 {
      tag := [TAG_ENC_LEN3, n % 0x100, (n / 0x100) % 0x100, (n / 0x1_0000) % 0x100];
    } else {
      tag := [TAG_ENC_LEN4, n % 0x100, (n / 0x100) % 0x100, (n / 0x1_0000) % 0x100,
              (n / 0x100_0000) % 0x100];
    }
    assert tag == LiteralTag(n);
    var inc := |tag|;
    Store(dst, dstIdx, tag);
    // the byte loop for short literals and System.arraycopy for long ones
    // copy the same range
    CopyRange(src, srcIdx, dst, dstIdx, dstIdx + inc, old(dst[..]), tag, len);
    PlacedLiteral(dst[..], old(dst[..]), dstIdx, tag, src[srcIdx..srcIdx + len]);
    written := inc + len;
  }

  /** The last element of a copy, in the short form: `done` followed by it
      is the whole copy. */
  lemma CopyChunksShort(offset: nat, len: nat, chunk: seq<byte>, done: seq<byte>, total: seq<byte>)
    requires offset < 2048 && 4 <= len < 12
    requires chunk == Copy1Element(len, offset % 0x100, (offset / 0x100) % 0x100)
    requires done + CopyChunks(offset, len) == total
    ensures done + chunk == total
  {
  }

  /** One element of a copy in the long form, covering x bytes, moves from
      what is still to write to what is written. */
  lemma CopyChunksLong(offset: nat, len: nat, x: nat, chunk: seq<byte>, done: seq<byte>, total: seq<byte>)
    requires len > 0 && !(offset < 2048 && 4 <= len < 12)
    requires x == if len <= 64 then len else 64
    requires chunk == Copy2Element(x, offset % 0x100, (offset / 0x100) % 0x100)
    requires done + CopyChunks(offset, len) == total
    ensures (done + chunk) + CopyChunks(offset, len - x) == total
  {
  }

  /** Nothing is left to write once the whole length is covered. */
  lemma CopyChunksDone(offset: nat, done: seq<byte>, total: seq<byte>)
    requires done + CopyChunks(offset, 0) == total
    ensures done == total
  {
  }

  /** emitCopy: writes CopyChunks(offset, len) at dstIdx and returns the
      number of bytes written. */
  method EmitCopy(dst: array<byte>, dstIdx: nat, offset: nat, len: nat) returns (written: nat)
    requires dstIdx + |CopyChunks(offset, len)| <= dst.Length
    modifies dst
    ensures written == |CopyChunks(offset, len)|
    ensures Placed(dst[..], old(dst[..]), dstIdx, CopyChunks(offset, len))
  {
    var b1: byte := offset % 0x100;
    var b2: byte := (offset / 0x100) % 0x100;
    var idx := dstIdx;
    var rest: nat := len;
    ghost var done: seq<byte> := [];
    PlacedNothing(dst[..], dstIdx);
    while rest > 0
      invariant idx == dstIdx + |done|
      invariant done + CopyChunks(offset, rest) == CopyChunks(offset, len)
      invariant Placed(dst[..], old(dst[..]), dstIdx, done)
      decreases rest
    {
      if offset < 2048 && rest < 12 && rest >= 4 {
        var chunk := Copy1Element(rest, b1, b2);
        CopyChunksShort(offset, rest, chunk, done, CopyChunks(offset, len));
        StoreAfter(dst, dstIdx, idx, old(dst[..]), done, chunk);
        done := done + chunk;
        idx := idx + 2;
        break;
      }
      var x := if rest <= 64 then rest else 64;
      var chunk := Copy2Element(x, b1, b2);
      CopyChunksLong(offset, rest, x, chunk, done, CopyChunks(offset, len));
      StoreAfter(dst, dstIdx, idx, old(dst[..]), done, chunk);
      done := done + chunk;
      idx := idx + 3;
      rest := rest - x;
    }
    if rest == 0 {
      CopyChunksDone(offset, done, CopyChunks(offset, len));
    }
    written := idx - dstIdx;
  }
}
