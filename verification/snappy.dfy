/** SnappyCodec: the compressor (forward), the decompressor (inverse) and
    the block size parameter, over byte arrays with a start index. */
module Snappy {
  import opened Bytes
  import opened Varint
  import opened Tags
  import opened Block
  import opened Decoder

  /** The largest hash table forward uses, in slots. */
  const MAX_TABLE_SIZE: nat := 16384

  /** The multiplier of forward's hash. */
  const HASH_SEED: nat := 0x1e35a7bd

  /** The number of bytes a call works on: the size the codec was given, or
      when it is not positive, everything from index to the end. */
  function BlockCount(size: int, length: nat, index: nat): (count: nat)
    requires index <= length
    ensures size > 0 ==> count == size
    ensures size <= 0 ==> index + count == length
  {
    if size > 0 then size else length - index
  }

  /** The end of the bytes forward encodes: the count when it is at most 4,
      otherwise the end of the array, as the scan runs to src.length. */
  function ScanEnd(size: int, length: nat, index: nat): (end: nat)
    requires index <= length
    ensures index <= end
    ensures BlockCount(size, length, index) <= 4 ==> end - index == BlockCount(size, length, index)
    ensures BlockCount(size, length, index) > 4 ==> end == length
  {
    var count := BlockCount(size, length, index);
    if count <= 4 then index + count else length
  }

  /** The four bytes at s as a little-endian 32-bit word. Java assembles
      them into an int that is negative when the last byte is 0x80 or more,
      but only the low 32 bits of its product with HASH_SEED are kept, and
      those are the same for the signed and the unsigned reading. */
  function Word(src: seq<byte>, s: nat): (w: nat)
    requires s + 4 <= |src|
    ensures w < TWO_32 && w % 0x100 == src[s] && w / 0x100_0000 == src[s + 3]
  {
    src[s] + 0x100 * (src[s + 1] as int) + 0x1_0000 * (src[s + 2] as int) + 0x100_0000 * (src[s + 3] as int)
  }

  /** Java's `>>` on a non-negative value: k halvings. */
  function ShiftRight(v: nat, k: nat): (r: nat)
    ensures r <= v
  {
    if k == 0 then v else ShiftRight(v / 2, k - 1)
  }

  /** The hash table slot of a word: the low 32 bits of its product with
      HASH_SEED, shifted right. */
  function Hash(w: nat, shift: nat): (h: nat)
    ensures h < TWO_32
  {
    ShiftRight((w * HASH_SEED) % TWO_32, shift)
  }

  lemma {:induction false} ShiftRightBelow(v: nat, k: nat, m: nat)
    requires v < Pow2(k + m)
    ensures ShiftRight(v, k) < Pow2(m)
  {
    if k > 0 {
      ShiftRightBelow(v / 2, k - 1, m);
    }
  }

  /** Every hash is a slot of a table of 2^(32 - shift) entries. */
  lemma HashBound(w: nat, shift: nat)
    requires shift <= 32
    ensures Hash(w, shift) < Pow2(32 - shift)
  {
    Pow2Of32();
    ShiftRightBelow((w * HASH_SEED) % TWO_32, shift, 32 - shift);
  }

  lemma Pow2Of14()
    ensures Pow2(8) == 256 && Pow2(14) == MAX_TABLE_SIZE
  {
    Pow2Of16();
  }

  /** The shape of forward's hash table: the smallest power of two that is
      at least 256 and at least min(count, MAX_TABLE_SIZE), with
      tableSize == 2^(32 - shift). */
  method TableShape(count: int) returns (shift: nat, tableSize: nat)
    ensures 18 <= shift <= 24 && tableSize == Pow2(32 - shift)
    ensures 256 <= tableSize <= MAX_TABLE_SIZE
    ensures count <= tableSize || tableSize == MAX_TABLE_SIZE
    ensures tableSize == 256 || tableSize / 2 < count
  {
    Pow2Of14();
    shift := 24;
    tableSize := 256;
    var max := if count < MAX_TABLE_SIZE then count else MAX_TABLE_SIZE;
    while tableSize < max
      invariant 18 <= shift <= 24 && tableSize == Pow2(32 - shift)
      invariant 256 <= tableSize <= MAX_TABLE_SIZE
      invariant tableSize == 256 || tableSize / 2 < max
      decreases MAX_TABLE_SIZE - tableSize
    {
      shift := shift - 1;
      tableSize := tableSize * 2;
    }
  }

  /** Extends a match: from s and t, both move forward while the bytes
      agree. The result e is where they first differ, or the end of the
      array; every byte in [s, e) equals the one s - t before it. */
  method ExtendMatch(src: array<byte>, s: nat, t: nat) returns (e: nat)
    requires t < s <= src.Length
    ensures s <= e <= src.Length
    ensures forall k :: s <= k < e ==> src[k] == src[k - (s - t)]
    ensures e == src.Length || src[e] != src[e - (s - t)]
  {
    e := s;
    var u := t;
    while e < src.Length && src[e] == src[u]
      invariant s <= e <= src.Length && u == e - (s - t)
      invariant forall k :: s <= k < e ==> src[k] == src[k - (s - t)]
      decreases src.Length - e
    {
      e := e + 1;
      u := u + 1;
    }
  }

  /** The items forward has emitted, which stand for x[srcIdx..lit]. */
  ghost predicate Emitted(items: seq<Item>, x: seq<byte>, srcIdx: nat, lit: nat)
  {
    && srcIdx <= lit <= |x|
    && WellFormed(items)
    && NoAdjacentLiterals(items)
    && Expand([], items) == Some(x[srcIdx..lit])
  }

  /** No items stand for no bytes. */
  lemma EmittedNothing(x: seq<byte>, srcIdx: nat)
    requires srcIdx <= |x|
    ensures Emitted([], x, srcIdx, srcIdx)
  {
    assert x[srcIdx..srcIdx] == [];
  }

  /** x[p..p + n] repeats, byte for byte, the bytes o positions before. */
  ghost predicate Repeats(x: seq<byte>, p: nat, o: nat, n: nat)
    requires o <= p && p + n <= |x|
  {
    forall k :: p <= k < p + n ==> x[k] == x[k - o]
  }

  /** A match found at s0 against t: four equal bytes, then the bytes the
      extension loop compared equal up to e. */
  lemma MatchRepeats(x: seq<byte>, s0: nat, t: nat, e: nat)
    requires t < s0 && s0 + 4 <= e <= |x|
    requires x[s0] == x[t] && x[s0 + 1] == x[t + 1] && x[s0 + 2] == x[t + 2] && x[s0 + 3] == x[t + 3]
    requires Repeats(x, s0 + 4, s0 - t, e - (s0 + 4))
    ensures Repeats(x, s0, s0 - t, e - s0)
  {
  }

  /** The header for count and the items are written at dstIdx over orig,
      and d is the index just past them. */
  ghost predicate Written(dst: seq<byte>, orig: seq<byte>, dstIdx: nat, count: nat, items: seq<Item>, d: nat)
  {
    && WellFormed(items)
    && d == dstIdx + |Encode(count)| + |EncodeItems(items)|
    && Placed(dst, orig, dstIdx, Encode(count) + EncodeItems(items))
  }

  /** Written, from its parts. */
  lemma WrittenOf(dst: seq<byte>, orig: seq<byte>, dstIdx: nat, count: nat, items: seq<Item>, d: nat, enc: seq<byte>)
    requires WellFormed(items) && enc == Encode(count) + EncodeItems(items)
    requires d == dstIdx + |enc| && Placed(dst, orig, dstIdx, enc)
    ensures Written(dst, orig, dstIdx, count, items, d)
  {
  }

  /** Writing one more item's bytes just past the items written so far. */
  lemma WrittenExtend(dst: seq<byte>, before: seq<byte>, orig: seq<byte>, dstIdx: nat, count: nat,
                      items: seq<Item>, it: Item, bytes: seq<byte>, d: nat)
    requires Written(before, orig, dstIdx, count, items, d)
    requires WellFormed(items + [it]) && EncodeItems(items + [it]) == EncodeItems(items) + bytes
    requires Placed(dst, before, d, bytes)
    ensures Written(dst, orig, dstIdx, count, items + [it], d + |bytes|)
  {
    var head := Encode(count) + EncodeItems(items);
    PlacedConcat(dst, before, orig, dstIdx, head, bytes);
    ConcatAssoc(Encode(count), EncodeItems(items), bytes);
    WrittenOf(dst, orig, dstIdx, count, items + [it], d + |bytes|, head + bytes);
  }

  /** There is room for the bytes of one more item: with it the items still
      stand for at most `room` bytes, so the whole stays within
      getMaxEncodedLength(room), whatever int the header holds. */
  lemma Room(before: seq<byte>, orig: seq<byte>, dstIdx: nat, count: nat, room: nat, items: seq<Item>, next: seq<Item>,
             bytes: seq<byte>, d: nat, dstLen: nat)
    requires Written(before, orig, dstIdx, count, items, d)
    requires WellFormed(next) && NoAdjacentLiterals(next) && Length(next) <= room <= MAX_INT && count <= MAX_INT
    requires EncodeItems(next) == EncodeItems(items) + bytes
    requires dstIdx + MaxEncodedLength(room) <= dstLen
    ensures d + |bytes| <= dstLen
  {
    Fits(next, count, room);
  }

  /** The larger of a and b. */
  function Max(a: nat, b: nat): (m: nat)
    ensures a <= m && b <= m && (m == a || m == b)
  {
    if a < b then b else a
  }

  /** What forward leaves behind: items that stand for x[srcIdx..end] and
      never put two literals side by side, written after the header for
      count at dstIdx, ending at dstNext, within getMaxEncodedLength of the
      larger of count and the number of bytes encoded (they differ when the
      codec's size differs from what is left of the source). */
  ghost predicate Compressed(x: seq<byte>, srcIdx: nat, end: nat, dst: seq<byte>, orig: seq<byte>, dstIdx: nat,
                             count: nat, items: seq<Item>, dstNext: nat)
  {
    && Emitted(items, x, srcIdx, end)
    && Written(dst, orig, dstIdx, count, items, dstNext)
    && dstNext - dstIdx <= MaxEncodedLength(Max(count, end - srcIdx))
  }

  /** After the header for at most four bytes there is room for their
      literal. */
  lemma SmallRoom(dst: seq<byte>, orig: seq<byte>, dstIdx: nat, count: nat, d0: nat, dstLen: nat)
    requires 0 < count <= 4 && Written(dst, orig, dstIdx, count, [], d0)
    requires dstIdx + MaxEncodedLength(count) <= dstLen
    ensures d0 + |LiteralTag(count - 1)| + count <= dstLen
  {
    assert Encode(count) == [count as byte];
  }

  /** A single literal written after the header stands for the whole
      block of at most four bytes. */
  lemma SingleLiteral(x: seq<byte>, srcIdx: nat, end: nat, before: seq<byte>, out: seq<byte>, orig: seq<byte>,
                      dstIdx: nat, count: nat, d0: nat, d: nat)
    requires srcIdx < end <= |x| && end - srcIdx == count <= 4
    requires Written(before, orig, dstIdx, count, [], d0)
    requires Placed(out, before, d0, LiteralElement(x[srcIdx..end]))
    requires d == d0 + |LiteralTag(count - 1)| + count
    ensures Compressed(x, srcIdx, end, out, orig, dstIdx, count, [Literal(x[srcIdx..end])], d)
  {
    var b := x[srcIdx..end];
    EmittedNothing(x, srcIdx);
    AppendLiteral(x, srcIdx, srcIdx, end, []);
    assert [] + [Literal(b)] == [Literal(b)];
    WrittenExtend(out, before, orig, dstIdx, count, [], Literal(b), LiteralElement(b), d0);
    CompressedOf(x, srcIdx, end, end, out, orig, dstIdx, count, [Literal(b)], d);
  }

  /** Compressed, from what the scan leaves: the bound on the size follows. */
  lemma CompressedOf(x: seq<byte>, srcIdx: nat, e: nat, end: nat, dst: seq<byte>, orig: seq<byte>, dstIdx: nat,
                     count: nat, items: seq<Item>, dstNext: nat)
    requires Emitted(items, x, srcIdx, e) && e == end && Written(dst, orig, dstIdx, count, items, dstNext)
    requires end - srcIdx <= MAX_INT && count <= MAX_INT
    ensures Compressed(x, srcIdx, end, dst, orig, dstIdx, count, items, dstNext)
  {
    ExpandLength([], items);
    Fits(items, count, Max(count, end - srcIdx));
  }

  lemma NoAdjacentAppend(items: seq<Item>, it: Item)
    requires NoAdjacentLiterals(items)
    requires it.Literal? ==> !EndsWithLiteral(items)
    ensures NoAdjacentLiterals(items + [it])
  {
    var all := items + [it];
    forall i | 0 < i < |all|
      ensures !(all[i - 1].Literal? && all[i].Literal?)
    {
      if i < |items| {
        assert all[i - 1] == items[i - 1] && all[i] == items[i];
      }
    }
  }

  /** Emitted, from its parts. */
  lemma EmittedOf(items: seq<Item>, x: seq<byte>, srcIdx: nat, lit: nat, y: seq<byte>)
    requires srcIdx <= lit <= |x| && WellFormed(items) && NoAdjacentLiterals(items)
    requires Expand([], items) == Some(y) && y == x[srcIdx..lit]
    ensures Emitted(items, x, srcIdx, lit)
  {
  }

  /** Emitting the pending bytes x[lit..s] as a literal extends what the
      items stand for to x[srcIdx..s]. */
  lemma AppendLiteral(x: seq<byte>, srcIdx: nat, lit: nat, s: nat, items: seq<Item>)
    requires Emitted(items, x, srcIdx, lit) && !EndsWithLiteral(items)
    requires lit < s <= |x| && s - lit <= MAX_INT
    ensures var next := items + [Literal(x[lit..s])];
      && Emitted(next, x, srcIdx, s) && EndsWithLiteral(next)
      && EncodeItems(next) == EncodeItems(items) + LiteralElement(x[lit..s])
      && Length(next) == s - srcIdx
  {
    var b := x[lit..s];
    var next := items + [Literal(b)];
    EncodeItemsAppend(items, Literal(b));
    NoAdjacentAppend(items, Literal(b));
    ExpandLiteral([], items, b, x[srcIdx..lit]);
    SliceJoin(x, srcIdx, lit, s);
    ExpandLength([], next);
    EmittedOf(next, x, srcIdx, s, x[srcIdx..s]);
  }

  /** The pending literal x[lit..s] extends the items to x[srcIdx..s], and
      its element fits after the output so far. */
  lemma PendingFits(x: seq<byte>, srcIdx: nat, lit: nat, s: nat, items: seq<Item>, before: seq<byte>, orig: seq<byte>,
                    dstIdx: nat, count: nat, room: nat, d: nat, dstLen: nat)
    requires Emitted(items, x, srcIdx, lit) && !EndsWithLiteral(items) && lit < s <= |x|
    requires s - srcIdx <= room <= MAX_INT && count <= MAX_INT && dstIdx + MaxEncodedLength(room) <= dstLen
    requires Written(before, orig, dstIdx, count, items, d)
    ensures var next := items + [Literal(x[lit..s])];
      && Emitted(next, x, srcIdx, s) && EndsWithLiteral(next) && WellFormed(next)
      && EncodeItems(next) == EncodeItems(items) + LiteralElement(x[lit..s])
      && d + |LiteralTag(s - lit - 1)| + (s - lit) <= dstLen
  {
    var next := items + [Literal(x[lit..s])];
    AppendLiteral(x, srcIdx, lit, s, items);
    Room(before, orig, dstIdx, count, room, items, next, LiteralElement(x[lit..s]), d, dstLen);
  }

  /** Emitting a copy of the bytes from p to e, from o back, when they
      repeat with period o, extends what the items stand for to
      x[srcIdx..e]. */
  lemma AppendCopy(x: seq<byte>, srcIdx: nat, p: nat, o: nat, e: nat, items: seq<Item>)
    requires Emitted(items, x, srcIdx, p)
    requires 1 <= o < MAX_OFFSET && srcIdx + o <= p && p + 4 <= e <= |x|
    requires Repeats(x, p, o, e - p)
    ensures var next := items + [Copy(o, e - p)];
      && Emitted(next, x, srcIdx, e) && !EndsWithLiteral(next)
      && EncodeItems(next) == EncodeItems(items) + CopyChunks(o, e - p)
      && Length(next) == e - srcIdx
  {
    var n := e - p;
    var next := items + [Copy(o, n)];
    EncodeItemsAppend(items, Copy(o, n));
    NoAdjacentAppend(items, Copy(o, n));
    ExpandCopy([], items, o, n, x[srcIdx..p]);
    CopyExtends(x, srcIdx, p, o, e);
    ExpandLength([], next);
    EmittedOf(next, x, srcIdx, e, x[srcIdx..e]);
  }

  /** Copying e - p bytes from o back onto x[srcIdx..p], when x repeats
      with period o from p to e, gives x[srcIdx..e]. */
  lemma CopyExtends(x: seq<byte>, srcIdx: nat, p: nat, o: nat, e: nat)
    requires 1 <= o && srcIdx + o <= p <= e <= |x|
    requires Repeats(x, p, o, e - p)
    ensures CopyOut(x[srcIdx..p], o, e - p) == x[srcIdx..e]
  {
    var y := x[srcIdx..e];
    assert y[..p - srcIdx] == x[srcIdx..p];
    forall k | p - srcIdx <= k < e - srcIdx
      ensures y[k] == y[k - o]
    {
      assert y[k] == x[srcIdx + k] && y[k - o] == x[srcIdx + k - o];
    }
    CopyOutOfPeriodic(y, p - srcIdx, o, e - p);
    assert y[..e - srcIdx] == y;
  }

  /** Items that never put two literals side by side, with the header for
      any int, never take more than getMaxEncodedLength of any int bound on
      the number of bytes they stand for. */
  lemma Fits(items: seq<Item>, count: nat, room: nat)
    requires WellFormed(items) && NoAdjacentLiterals(items) && Length(items) <= room <= MAX_INT && count <= MAX_INT
    ensures |Encode(count)| + |EncodeItems(items)| <= MaxEncodedLength(room)
  {
    EncodeLengthInt(count);
    EncodedSizeBound(items);
    assert Length(items) / 6 <= room / 6;
  }

  /** The index getDecodedLength leaves the source at: just past the header
      when it holds a value, where it was otherwise. */
  function HeaderEnd(src: seq<byte>, srcIdx: nat): nat
  {
    if Decode(src, srcIdx).Value? then Decode(src, srcIdx).next else srcIdx
  }

  /** What inverse does: the new contents of dst and the new source and
      destination indexes, or None when it returns false. The header must
      be a length that fits in dst after dstIdx, the loop must run to
      count (compared with the absolute index, as written), and it must
      write exactly that many bytes. */
  function Decompress(src: seq<byte>, srcIdx: nat, size: int, dst: seq<byte>, dstIdx: nat): (r: Option<(seq<byte>, nat, nat)>)
    requires srcIdx <= |src| && dstIdx <= |dst| && BlockCount(size, |src|, srcIdx) <= |src|
    ensures r.Some? ==> |r.value.0| == |dst| && r.value.1 == srcIdx + BlockCount(size, |src|, srcIdx)
    ensures r.Some? ==> r.value.2 == dstIdx + DecodedLength(Decode(src, srcIdx)) <= |dst|
  {
    var dLen := DecodedLength(Decode(src, srcIdx));
    if dLen < 0 || |dst| - dstIdx < dLen then None
    else
      var count := BlockCount(size, |src|, srcIdx);
      match Run(src, count, HeaderEnd(src, srcIdx), dst, dstIdx)
      case None => None
      case Some((out, d)) => if d - dstIdx != dLen then None else Some((out, srcIdx + count, d))
  }

  /** inverse writes exactly the bytes from dstIdx up to the new destination
      index, as many as the header says, and leaves the rest of dst as it
      was; the source index moves to srcIdx + count. */
  lemma DecompressFrame(src: seq<byte>, srcIdx: nat, size: int, dst: seq<byte>, dstIdx: nat)
    requires srcIdx <= |src| && dstIdx <= |dst| && BlockCount(size, |src|, srcIdx) <= |src|
    requires Decompress(src, srcIdx, size, dst, dstIdx).Some?
    ensures var r := Decompress(src, srcIdx, size, dst, dstIdx).value;
      && Decode(src, srcIdx).Value?
      && r.2 == dstIdx + DecodedLength(Decode(src, srcIdx)) <= |dst|
      && |r.0| == |dst| && r.0[..dstIdx] == dst[..dstIdx] && r.0[r.2..] == dst[r.2..]
      && r.1 == srcIdx + BlockCount(size, |src|, srcIdx)
  {
    RunFrame(src, BlockCount(size, |src|, srcIdx), HeaderEnd(src, srcIdx), dst, dstIdx);
  }

  lemma ConcatParts(a: seq<byte>, b: seq<byte>)
    ensures (a + b)[..|a|] == a && (a + b)[|a|..|a + b|] == b
  {
  }

  /** The round trip: a block made of the header for |x| and the bytes of
      items that expand to x, read from index 0 with the whole array as its
      count, decodes to x at dstIdx; the source index ends past the block
      and the destination index past x. */
  lemma RoundTrip(src: seq<byte>, size: int, dst: seq<byte>, dstIdx: nat, x: seq<byte>, items: seq<Item>)
    requires WellFormed(items) && Expand([], items) == Some(x) && |x| <= MAX_INT
    requires src == Encode(|x|) + EncodeItems(items)
    requires size <= 0 || size == |src|
    requires dstIdx + |x| <= |dst|
    ensures Decompress(src, 0, size, dst, dstIdx) == Some((dst[..dstIdx] + x + dst[dstIdx + |x|..], |src|, dstIdx + |x|))
  {
    BlockHeader(|x|, src, EncodeItems(items));
    ItemsAfterHeader(src, size, dst, dstIdx, x, items, |Encode(|x|)|);
  }

  /** The same round trip once the header has been read: a header for |x|
      ending at hLen, followed by the bytes of items. */
  lemma ItemsAfterHeader(src: seq<byte>, size: int, dst: seq<byte>, dstIdx: nat, x: seq<byte>, items: seq<Item>, hLen: nat)
    requires WellFormed(items) && Expand([], items) == Some(x)
    requires Decode(src, 0) == Value(|x|, hLen) && DecodedLength(Decode(src, 0)) == |x|
    requires hLen <= |src| && src[hLen..|src|] == EncodeItems(items)
    requires size <= 0 || size == |src|
    requires dstIdx + |x| <= |dst|
    ensures Decompress(src, 0, size, dst, dstIdx) == Some((dst[..dstIdx] + x + dst[dstIdx + |x|..], |src|, dstIdx + |x|))
  {
    RunBlock(src, hLen, dst, dstIdx, x, items);
    DecompressBlockWhen(src, size, dst, dstIdx, hLen, |x|, dst[..dstIdx] + x + dst[dstIdx + |x|..]);
  }

  /** DecompressBlock, stated as an implication. */
  lemma DecompressBlockWhen(src: seq<byte>, size: int, dst: seq<byte>, dstIdx: nat, hLen: nat, n: nat, out: seq<byte>)
    ensures (Decode(src, 0) == Value(n, hLen) && DecodedLength(Decode(src, 0)) == n &&
             hLen <= |src| && (size <= 0 || size == |src|) && dstIdx + n <= |dst| &&
             Run(src, |src|, hLen, dst, dstIdx) == Some((out, dstIdx + n))) ==>
      Decompress(src, 0, size, dst, dstIdx) == Some((out, |src|, dstIdx + n))
  {
    if Decode(src, 0) == Value(n, hLen) && DecodedLength(Decode(src, 0)) == n &&
      hLen <= |src| && (size <= 0 || size == |src|) && dstIdx + n <= |dst| &&
      Run(src, |src|, hLen, dst, dstIdx) == Some((out, dstIdx + n))
    {
      DecompressBlock(src, size, dst, dstIdx, hLen, n, out);
    }
  }

  /** A block read from index 0 to its end decodes to what the loop after
      its header writes, when that is as many bytes as the header says. */
  lemma DecompressBlock(src: seq<byte>, size: int, dst: seq<byte>, dstIdx: nat, hLen: nat, n: nat, out: seq<byte>)
    requires Decode(src, 0) == Value(n, hLen) && DecodedLength(Decode(src, 0)) == n
    requires hLen <= |src| && (size <= 0 || size == |src|) && dstIdx + n <= |dst|
    requires Run(src, |src|, hLen, dst, dstIdx) == Some((out, dstIdx + n))
    ensures Decompress(src, 0, size, dst, dstIdx) == Some((out, |src|, dstIdx + n))
  {
    DecompressOfWhen(src, 0, size, dst, dstIdx, |src|, hLen, n, out, |src|, dstIdx + n);
  }

  /** A block that starts with the header for n reads back n, and its
      items start right after the header. */
  lemma BlockHeader(n: nat, src: seq<byte>, rest: seq<byte>)
    requires n <= MAX_INT && src == Encode(n) + rest
    ensures Decode(src, 0) == Value(n, |Encode(n)|) && DecodedLength(Decode(src, 0)) == n
    ensures src[|Encode(n)|..|src|] == rest
  {
    ConcatParts(Encode(n), rest);
    DecodeEncode(n, src, 0);
    DecodedLengthOfEncode(n, src, 0);
  }

  /** The items after a header of hLen bytes decode to x at dstIdx. */
  lemma RunBlock(src: seq<byte>, hLen: nat, dst: seq<byte>, dstIdx: nat, x: seq<byte>, items: seq<Item>)
    requires WellFormed(items) && Expand([], items) == Some(x)
    requires hLen <= |src| && src[hLen..|src|] == EncodeItems(items)
    requires dstIdx + |x| <= |dst|
    ensures Run(src, |src|, hLen, dst, dstIdx) == Some((dst[..dstIdx] + x + dst[dstIdx + |x|..], dstIdx + |x|))
  {
    assert |src| == hLen + |EncodeItems(items)|;
    DecodeAll(src, |src|, hLen, dst, dstIdx, items, x);
  }

  /** Decompress succeeds when the header reads as a length that fits and
      the loop, run from the end of the header, writes exactly that many. */
  lemma DecompressOf(src: seq<byte>, srcIdx: nat, size: int, dst: seq<byte>, dstIdx: nat,
                     count: nat, hEnd: nat, n: nat, out: seq<byte>, srcEnd: nat, d: nat)
    requires srcIdx <= |src| && dstIdx <= |dst| && count == BlockCount(size, |src|, srcIdx) <= |src|
    requires Decode(src, srcIdx).Value? && hEnd == Decode(src, srcIdx).next
    requires DecodedLength(Decode(src, srcIdx)) == n && dstIdx + n <= |dst|
    requires Run(src, count, hEnd, dst, dstIdx) == Some((out, d))
    requires srcEnd == srcIdx + count && d == dstIdx + n
    ensures Decompress(src, srcIdx, size, dst, dstIdx) == Some((out, srcEnd, d))
  {
  }

  /** DecompressOf stated as an implication, so that a caller has nothing
      to establish before the call. */
  lemma DecompressOfWhen(src: seq<byte>, srcIdx: nat, size: int, dst: seq<byte>, dstIdx: nat,
                         count: nat, hEnd: nat, n: nat, out: seq<byte>, srcEnd: nat, d: nat)
    ensures (&& srcIdx <= |src| && dstIdx <= |dst| && count == BlockCount(size, |src|, srcIdx) <= |src|
             && Decode(src, srcIdx).Value? && hEnd == Decode(src, srcIdx).next
             && DecodedLength(Decode(src, srcIdx)) == n && dstIdx + n <= |dst|
             && Run(src, count, hEnd, dst, dstIdx) == Some((out, d))
             && srcEnd == srcIdx + count && d == dstIdx + n)
            ==> Decompress(src, srcIdx, size, dst, dstIdx) == Some((out, srcEnd, d))
  {
    if && srcIdx <= |src| && dstIdx <= |dst| && count == BlockCount(size, |src|, srcIdx) <= |src|
       && Decode(src, srcIdx).Value? && hEnd == Decode(src, srcIdx).next
       && DecodedLength(Decode(src, srcIdx)) == n && dstIdx + n <= |dst|
       && Run(src, count, hEnd, dst, dstIdx) == Some((out, d))
       && srcEnd == srcIdx + count && d == dstIdx + n
    {
      DecompressOf(src, srcIdx, size, dst, dstIdx, count, hEnd, n, out, srcEnd, d);
    }
  }

  /** Every block forward writes for bytes x decodes back to x, whatever
      buffer it is decoded into. */
  lemma BlockRoundTrip(block: seq<byte>, x: seq<byte>, items: seq<Item>)
    requires WellFormed(items) && Expand([], items) == Some(x) && |x| <= MAX_INT
    requires block == Encode(|x|) + EncodeItems(items)
    ensures forall out: seq<byte> :: |x| <= |out| ==>
      Decompress(block, 0, 0, out, 0) == Some((x + out[|x|..], |block|, |x|))
  {
    forall out: seq<byte> | |x| <= |out|
      ensures Decompress(block, 0, 0, out, 0) == Some((x + out[|x|..], |block|, |x|))
    {
      BlockDecodes(block, x, items, out, |x|, |block|);
    }
  }

  /** The round trip into one buffer, from index 0, for a block of m bytes
      that stands for the count bytes y. */
  lemma BlockDecodes(block: seq<byte>, y: seq<byte>, items: seq<Item>, buf: seq<byte>, count: nat, m: nat)
    requires WellFormed(items) && Expand([], items) == Some(y) && |y| == count <= MAX_INT
    requires block == Encode(count) + EncodeItems(items) && |block| == m && count <= |buf|
    ensures Decompress(block, 0, 0, buf, 0) == Some((y + buf[count..], m, count))
  {
    RoundTrip(block, 0, buf, 0, y, items);
    assert buf[..0] + y == y;
  }

  /** What forward writes, read back by inverse: when the header's count is
      the number of bytes encoded (the codec's size is 0, or is what is left
      of the source), the bytes from dstIdx to dstNext decompress to those
      bytes. */
  lemma ForwardInverse(x: seq<byte>, srcIdx: nat, end: nat, out: seq<byte>, orig: seq<byte>, dstIdx: nat,
                       count: nat, items: seq<Item>, dstNext: nat, buf: seq<byte>)
    requires Compressed(x, srcIdx, end, out, orig, dstIdx, count, items, dstNext)
    requires count == end - srcIdx <= MAX_INT && count <= |buf|
    ensures dstIdx <= dstNext <= |out|
    ensures Decompress(out[dstIdx..dstNext], 0, 0, buf, 0) == Some((x[srcIdx..end] + buf[count..], dstNext - dstIdx, count))
  {
    CompressedBlock(x, srcIdx, end, out, orig, dstIdx, count, items, dstNext);
    BlockDecodesWhen(out[dstIdx..dstNext], count, x[srcIdx..end], items, buf, dstNext - dstIdx);
  }

  /** block is the header for count followed by the bytes of items, and
      the items expand to y. */
  ghost predicate Encodes(block: seq<byte>, count: nat, y: seq<byte>, items: seq<Item>)
  {
    && WellFormed(items) && Expand([], items) == Some(y)
    && block == Encode(count) + EncodeItems(items)
  }

  /** BlockDecodes stated as an implication, so that a caller has nothing
      to establish before the call. */
  lemma BlockDecodesWhen(block: seq<byte>, count: nat, y: seq<byte>, items: seq<Item>, buf: seq<byte>, m: nat)
    ensures (Encodes(block, count, y, items) && |y| == count <= MAX_INT && |block| == m && count <= |buf|)
            ==> Decompress(block, 0, 0, buf, 0) == Some((y + buf[count..], m, count))
  {
    if Encodes(block, count, y, items) && |y| == count <= MAX_INT && |block| == m && count <= |buf| {
      BlockDecodes(block, y, items, buf, count, m);
    }
  }

  /** What Compressed says about the block on its own: it lies within out,
      and it is the header for count followed by the bytes of items that
      expand to x[srcIdx..end]. */
  lemma CompressedBlock(x: seq<byte>, srcIdx: nat, end: nat, out: seq<byte>, orig: seq<byte>, dstIdx: nat,
                        count: nat, items: seq<Item>, dstNext: nat)
    requires Compressed(x, srcIdx, end, out, orig, dstIdx, count, items, dstNext)
    ensures dstIdx <= dstNext <= |out| && srcIdx <= end <= |x|
    ensures Encodes(out[dstIdx..dstNext], count, x[srcIdx..end], items)
  {
  }

  /** A header whose count differs from the number of bytes the items stand
      for is refused by inverse: the loop writes the items' bytes, not
      count of them. Forward writes such a block when the codec's size is
      positive and differs from what is left of the source. */
  lemma MismatchedHeader(block: seq<byte>, count: nat, x: seq<byte>, items: seq<Item>, buf: seq<byte>)
    requires WellFormed(items) && Expand([], items) == Some(x) && count <= MAX_INT && count != |x|
    requires block == Encode(count) + EncodeItems(items)
    requires |x| <= |buf|
    ensures Decompress(block, 0, 0, buf, 0).None?
  {
    var h := Encode(count);
    BlockHeader(count, block, EncodeItems(items));
    if count <= |buf| {
      RunBlock(block, |h|, buf, 0, x, items);
    }
  }

  /** Inverse compares the absolute source index with the relative count,
      so a block that does not start at index 0 loses its last srcIdx
      bytes: the one-byte block 01 00 41 ("A") decodes at index 0, but not
      after one leading byte. */
  lemma InverseAtOffset()
    ensures Decompress([0x01, 0x00, 0x41], 0, 0, [0], 0) == Some(([0x41], 3, 1))
    ensures Decompress([0x09, 0x01, 0x00, 0x41], 1, 0, [0], 0).None?
  {
    AtStart();
    AfterOneByte();
  }

  /** The block 01 00 41 at index 0: one literal of one byte. */
  lemma AtStart()
    ensures Decompress([0x01, 0x00, 0x41], 0, 0, [0], 0) == Some(([0x41], 3, 1))
  {
    var a: seq<byte> := [0x01, 0x00, 0x41];
    AtStartHeader(a);
    AtStartRun(a);
    DecompressOf(a, 0, 0, [0], 0, 3, 1, 1, [0x41], 3, 1);
  }

  /** The header of that block says one byte and takes one byte. */
  lemma AtStartHeader(a: seq<byte>)
    requires a == [0x01, 0x00, 0x41]
    ensures Decode(a, 0) == Value(1, 1) && DecodedLength(Decode(a, 0)) == 1
  {
    assert DecodeFrom(a, 0, 0) == Value(1, 1);
  }

  /** The loop after that header writes the literal byte and stops. */
  lemma AtStartRun(a: seq<byte>)
    requires a == [0x01, 0x00, 0x41]
    ensures Run(a, 3, 1, [0], 0) == Some(([0x41], 1))
  {
    assert LiteralHeader(a, 1, 3) == Some((0, 2));
    assert a[2..3] == [0x41];
    assert ReadElement(a, 3, 1) == Some((Put([0x41]), 3));
    var z: seq<byte> := [0];
    var v: seq<byte> := [0x41];
    assert z[..0] + v + z[1..] == v;
    assert ApplyOp(z, 0, Put(v)) == Some((v, 1));
    assert Element(a, 3, 1, [0], 0) == Some((3, [0x41], 1));
  }

  /** The same block after one leading byte: count is 3, but the literal
      ends at the absolute index 4. */
  lemma AfterOneByte()
    ensures Decompress([0x09, 0x01, 0x00, 0x41], 1, 0, [0], 0).None?
  {
    var b: seq<byte> := [0x09, 0x01, 0x00, 0x41];
    assert DecodeFrom(b, 1, 0) == Value(1, 2);
    assert DecodedLength(Decode(b, 1)) == 1;
    assert LiteralHeader(b, 2, 3) == Some((0, 3));
    assert ReadElement(b, 3, 2).None?;
    assert Run(b, 3, 2, [0], 0).None?;
  }

  /** The block `01 03`: a header for one byte, then a tag of type 11 where
      the first element should be. inverse, as written, enters its loop with
      s = 1, d = 0 and offset and length 0, and no number of turns moves it
      from there; the model refuses the block. */
  lemma Tag11Block(dst: seq<byte>, k: nat)
    requires 1 <= |dst| <= MAX_INT
    ensures Decode([0x01, 0x03], 0) == Value(1, 1) && DecodedLength(Decode([0x01, 0x03], 0)) == 1
    ensures JavaTurns([0x01, 0x03], 2, LoopState(1, dst, 0, 0, 0), k) == Some(LoopState(1, dst, 0, 0, 0))
    ensures Decompress([0x01, 0x03], 0, 0, dst, 0) == None
  {
    var a: seq<byte> := [0x01, 0x03];
    assert DecodeFrom(a, 0, 0) == Value(1, 1);
    Tag11Stalls(a, 2, LoopState(1, dst, 0, 0, 0), k);
    Tag11Fails(a, 2, 1, dst, 0);
  }

  /** Reads the length field of the literal tag at s, as inverse's switch
      does: from the tag itself or from the one to four bytes after it. */
  method GetLiteralHeader(src: array<byte>, s: nat, count: int) returns (ok: bool, x: int, s1: nat)
    requires s < count <= src.Length
    ensures ok <==> LiteralHeader(src[..], s, count).Some?
    ensures ok ==> LiteralHeader(src[..], s, count) == Some((x, s1))
  {
    x := src[s] / 4;
    s1 := s + 1;
    ok := true;
    if x == TAG_DEC_LEN1 {
      s1 := s + 2;
      if s1 > count {
        return false, x, s1;
      }
      x := src[s + 1];
    } else if x == TAG_DEC_LEN2 {
      s1 := s + 3;
      if s1 > count {
        return false, x, s1;
      }
      x := src[s + 1] + 0x100 * (src[s + 2] as int);
    } else if x == TAG_DEC_LEN3 {
      s1 := s + 4;
      if s1 > count {
        return false, x, s1;
      }
      x := src[s + 1] + 0x100 * (src[s + 2] as int) + 0x1_0000 * (src[s + 3] as int);
    } else if x == TAG_DEC_LEN4 {
      s1 := s + 5;
      if s1 > count {
        return false, x, s1;
      }
      x := Int32(src[s + 1] + 0x100 * (src[s + 2] as int) + 0x1_0000 * (src[s + 3] as int) + 0x100_0000 * (src[s + 4] as int));
    }
  }

  /** The back-reference loop `dst[d] = dst[d - offset]` for length bytes. */
  method CopyBack(dst: array<byte>, d: nat, offset: nat, length: nat)
    requires offset <= d && d + length <= dst.Length
    modifies dst
    ensures dst[..] == RunCopy(old(dst[..]), d, offset, length)
  {
    ghost var orig := dst[..];
    RunCopyNone(orig, d, offset);
    var i := 0;
    while i < length
      invariant i <= length
      invariant dst[..] == RunCopy(orig, d, offset, i)
    {
      RunCopyExtend(orig, d, offset, i);
      dst[d + i] := dst[d + i - offset];
      i := i + 1;
    }
  }

  /** Reads the element at s, as inverse's switch does. */
  method GetElement(src: array<byte>, count: int, s: nat) returns (ok: bool, op: Op, s1: nat)
    requires s < count <= src.Length
    ensures ok <==> ReadElement(src[..], count, s).Some?
    ensures ok ==> ReadElement(src[..], count, s) == Some((op, s1))
  {
    var tag := src[s];
    op, s1 := Repeat(0, 0), s;
    if tag % 4 == TAG_LITERAL {
      var okH, n, s2 := GetLiteralHeader(src, s, count);
      if !okH {
        return false, op, s1;
      }
      var length := Int32(n + 1);
      if length <= 0 || length > count - s2 {
        return false, op, s1;
      }
      return true, Put(src[s2..s2 + length]), s2 + length;
    } else if tag % 4 == TAG_COPY1 {
      if s + 2 > count {
        return false, op, s1;
      }
      return true, Repeat(Copy1Offset(tag, src[s + 1]), Copy1Length(tag)), s + 2;
    } else if tag % 4 == TAG_COPY2 {
      if s + 3 > count {
        return false, op, s1;
      }
      return true, Repeat(Copy2Offset(src[s + 1], src[s + 2]), Copy2Length(tag)), s + 3;
    } else {
      return false, op, s1;
    }
  }

  /** Carries out an element at d: the literal's bytes stored, or the back
      reference copied. On failure nothing has been written. */
  method Apply(dst: array<byte>, d: nat, op: Op) returns (ok: bool, d1: nat)
    requires d <= dst.Length
    modifies dst
    ensures ok <==> ApplyOp(old(dst[..]), d, op).Some?
    ensures ok ==> ApplyOp(old(dst[..]), d, op) == Some((dst[..], d1))
    ensures !ok ==> dst[..] == old(dst[..])
  {
    match op
    case Put(b) =>
      if |b| > dst.Length - d {
        return false, d;
      }
      ghost var before := dst[..];
      Store(dst, d, b);
      PlacedSplice(dst[..], before, d, b);
      return true, d + |b|;
    case Repeat(offset, length) =>
      if offset > d || d + length > dst.Length {
        return false, d;
      }
      CopyBack(dst, d, offset, length);
      return true, d + length;
  }

  /** One turn of inverse's loop: decodes the element at s into dst at d.
      On failure nothing has been written. */
  method Step(src: array<byte>, count: int, s: nat, dst: array<byte>, d: nat) returns (ok: bool, s1: nat, d1: nat)
    requires src != dst && s < count <= src.Length && d <= dst.Length
    modifies dst
    ensures ok <==> Element(src[..], count, s, old(dst[..]), d).Some?
    ensures ok ==> Element(src[..], count, s, old(dst[..]), d) == Some((s1, dst[..], d1))
    ensures !ok ==> dst[..] == old(dst[..])
  {
    var op;
    ok, op, s1 := GetElement(src, count, s);
    if !ok {
      return false, s, d;
    }
    ok, d1 := Apply(dst, d, op);
  }

  /** The codec object: the block size it was given (0 for "the rest of the
      array") and the hash table forward reuses from call to call. */
  class SnappyCodec {
    var size: int
    const buffer: array<int>

    ghost predicate Valid()
      reads this
    {
      buffer.Length == MAX_TABLE_SIZE && -TWO_31 <= size <= MAX_INT
    }

    /** new SnappyCodec(size); Java throws for a negative size. */
    constructor (size: int)
      requires 0 <= size <= MAX_INT
      ensures Valid() && this.size == size && fresh(buffer)
    {
      this.size := size;
      buffer := new int[MAX_TABLE_SIZE];
    }

    /** new SnappyCodec(): block size 0. */
    constructor Default()
      ensures Valid() && size == 0 && fresh(buffer)
    {
      size := 0;
      buffer := new int[MAX_TABLE_SIZE];
    }

    /** setSize, as written: it refuses a new size when the current one is
      negative, not when the argument is, so a negative argument is
      accepted and every later call is then refused. */
    method SetSize(sz: int) returns (ok: bool)
      requires Valid() && -TWO_31 <= sz <= MAX_INT
      modifies this
      ensures Valid()
      ensures ok <==> old(size) >= 0
      ensures size == if ok then sz else old(size)
    {
      if size < 0 {
        return false;
      }
      size := sz;
      return true;
    }

    /** Emits the pending bytes src[lit..s] as one literal at d, after the
        items emitted so far. */
    method EmitPending(src: array<byte>, srcIdx: nat, lit: nat, s: nat, dst: array<byte>, dstIdx: nat, d: nat,
                       count: nat, ghost room: nat, ghost x: seq<byte>, ghost orig: seq<byte>, ghost items: seq<Item>)
      returns (d1: nat, ghost items1: seq<Item>)
      requires src != dst && x == src[..]
      requires Emitted(items, x, srcIdx, lit) && !EndsWithLiteral(items) && lit < s <= src.Length
      requires s - srcIdx <= room <= MAX_INT && count <= MAX_INT && dstIdx + MaxEncodedLength(room) <= dst.Length
      requires Written(dst[..], orig, dstIdx, count, items, d)
      modifies dst
      ensures items1 == items + [Literal(x[lit..s])]
      ensures Emitted(items1, x, srcIdx, s) && EndsWithLiteral(items1)
      ensures Written(dst[..], orig, dstIdx, count, items1, d1)
    {
      ghost var b := x[lit..s];
      items1 := items + [Literal(b)];
      ghost var before := dst[..];
      PendingFits(x, srcIdx, lit, s, items, before, orig, dstIdx, count, room, d, dst.Length);
      var written := EmitLiteral(src, lit, dst, d, s - lit);
      ghost var after := dst[..];
      assert src[lit..lit + (s - lit)] == b;
      assert Placed(after, before, d, LiteralElement(b));
      WrittenExtend(after, before, orig, dstIdx, count, items, Literal(b), LiteralElement(b), d);
      d1 := d + written;
    }

    /** Emits a copy of the bytes from p to e, from o back, at d, after the
        items emitted so far, which stand for src[srcIdx..p]. */
    method EmitMatch(src: array<byte>, srcIdx: nat, p: nat, o: nat, e: nat, dst: array<byte>, dstIdx: nat, d: nat,
                     count: nat, ghost room: nat, ghost x: seq<byte>, ghost orig: seq<byte>, ghost items: seq<Item>)
      returns (d1: nat, ghost items1: seq<Item>)
      requires src != dst && x == src[..]
      requires Emitted(items, x, srcIdx, p)
      requires 1 <= o < MAX_OFFSET && srcIdx + o <= p && p + 4 <= e <= src.Length
      requires Repeats(x, p, o, e - p)
      requires e - srcIdx <= room <= MAX_INT && count <= MAX_INT && dstIdx + MaxEncodedLength(room) <= dst.Length
      requires Written(dst[..], orig, dstIdx, count, items, d)
      modifies dst
      ensures items1 == items + [Copy(o, e - p)]
      ensures Emitted(items1, x, srcIdx, e) && !EndsWithLiteral(items1)
      ensures Written(dst[..], orig, dstIdx, count, items1, d1)
    {
      items1 := items + [Copy(o, e - p)];
      AppendCopy(x, srcIdx, p, o, e, items);
      ghost var before := dst[..];
      Room(before, orig, dstIdx, count, room, items, items1, CopyChunks(o, e - p), d, dst.Length);
      var written := EmitCopy(dst, d, o, e - p);
      WrittenExtend(dst[..], before, orig, dstIdx, count, items, Copy(o, e - p), CopyChunks(o, e - p), d);
      d1 := d + written;
    }

    /** A match at s against t: emits the pending bytes src[lit..s], extends
        the match as far as the bytes agree, and emits the copy; returns the
        position just past the match. */
    method TakeMatch(src: array<byte>, srcIdx: nat, lit: nat, s: nat, t: nat, dst: array<byte>, dstIdx: nat, d: nat,
                     count: nat, ghost room: nat, ghost x: seq<byte>, ghost orig: seq<byte>, ghost items: seq<Item>)
      returns (s1: nat, d1: nat, ghost items1: seq<Item>)
      requires src != dst && x == src[..]
      requires Emitted(items, x, srcIdx, lit) && !EndsWithLiteral(items) && lit <= s
      requires srcIdx <= t < s && s - t < MAX_OFFSET && s + 4 <= src.Length
      requires x[s] == x[t] && x[s + 1] == x[t + 1] && x[s + 2] == x[t + 2] && x[s + 3] == x[t + 3]
      requires src.Length - srcIdx <= room <= MAX_INT && count <= MAX_INT && dstIdx + MaxEncodedLength(room) <= dst.Length
      requires Written(dst[..], orig, dstIdx, count, items, d)
      modifies dst
      ensures s + 4 <= s1 <= src.Length
      ensures Emitted(items1, x, srcIdx, s1) && !EndsWithLiteral(items1)
      ensures Written(dst[..], orig, dstIdx, count, items1, d1)
    {
      d1, items1 := d, items;
      if lit != s {
        d1, items1 := EmitPending(src, srcIdx, lit, s, dst, dstIdx, d1, count, room, x, orig, items1);
      }
      s1 := ExtendMatch(src, s + 4, t + 4);
      assert Repeats(x, s + 4, s - t, s1 - (s + 4));
      MatchRepeats(x, s, t, s1);
      d1, items1 := EmitMatch(src, srcIdx, s, s - t, s1, dst, dstIdx, d1, count, room, x, orig, items1);
    }

    /** Hashes the four bytes at s into the table: returns the position
        the slot remembered and remembers s there instead. */
    method Remember(src: array<byte>, srcIdx: nat, s: nat, shift: nat, tableSize: nat) returns (t: int)
      requires buffer.Length == MAX_TABLE_SIZE && 18 <= shift <= 24 && tableSize == Pow2(32 - shift)
      requires tableSize <= MAX_TABLE_SIZE && srcIdx <= s && s + 4 <= src.Length
      requires forall j :: 0 <= j < tableSize ==> buffer[j] == -1 || srcIdx <= buffer[j] < s
      modifies buffer
      ensures Hash(Word(src[..], s), shift) < tableSize
      ensures t == old(buffer[Hash(Word(src[..], s), shift)]) && buffer[Hash(Word(src[..], s), shift)] == s
      ensures forall j :: 0 <= j < buffer.Length && j != Hash(Word(src[..], s), shift) ==> buffer[j] == old(buffer[j])
      ensures t == -1 || srcIdx <= t < s
      ensures forall j :: 0 <= j < tableSize ==> buffer[j] == -1 || srcIdx <= buffer[j] < s + 1
    {
      var w := src[s] + 0x100 * (src[s + 1] as int) + 0x1_0000 * (src[s + 2] as int) + 0x100_0000 * (src[s + 3] as int);
      assert w == Word(src[..], s);
      var h := Hash(w, shift);
      HashBound(w, shift);
      t := buffer[h];
      buffer[h] := s;
    }

    /** The scan of forward for more than four bytes: hashes the four bytes
        at each position into the table, which remembers the last position
        with each hash; a position whose remembered one is less than
        MAX_OFFSET back and starts with the same four bytes begins a match,
        which is extended as far as the bytes agree. Pending bytes are
        emitted as a literal before each match and at the end. The items
        stand for everything from srcIdx to the end of the array. */
    method Scan(src: array<byte>, srcIdx: nat, dst: array<byte>, dstIdx: nat, d0: nat, count: nat,
                ghost x: seq<byte>, ghost orig: seq<byte>)
      returns (d: nat, ghost items: seq<Item>)
      requires Valid() && src != dst && x == src[..]
      requires srcIdx <= src.Length <= MAX_INT && count <= MAX_INT
      requires dstIdx + MaxEncodedLength(Max(count, src.Length - srcIdx)) <= dst.Length
      requires Written(dst[..], orig, dstIdx, count, [], d0)
      modifies buffer, dst
      ensures Compressed(x, srcIdx, src.Length, dst[..], orig, dstIdx, count, items, d)
    {
      items := [];
      d := d0;
      ghost var room := Max(count, src.Length - srcIdx);
      EmittedNothing(x, srcIdx);
      var shift, tableSize := TableShape(count);
      ghost var start := dst[..];
      for i := 0 to tableSize
        modifies buffer
        invariant dst[..] == start
        invariant forall j :: 0 <= j < i ==> buffer[j] == -1
      {
        buffer[i] := -1;
      }

      var s := srcIdx;
      var lit := srcIdx;
      var len := src.Length;
      while s + 3 < len
        invariant srcIdx <= lit <= s <= len
        invariant Emitted(items, x, srcIdx, lit) && !EndsWithLiteral(items)
        invariant Written(dst[..], orig, dstIdx, count, items, d)
        invariant forall j :: 0 <= j < tableSize ==> buffer[j] == -1 || srcIdx <= buffer[j] < s
        decreases len - s
      {
        var t := Remember(src, srcIdx, s, shift, tableSize);

        if t < 0 || s - t >= MAX_OFFSET {
          s := s + 1;
          continue;
        }
        if src[s] != src[t] || src[s + 1] != src[t + 1] || src[s + 2] != src[t + 2] || src[s + 3] != src[t + 3] {
          s := s + 1;
          continue;
        }

        s, d, items := TakeMatch(src, srcIdx, lit, s, t, dst, dstIdx, d, count, room, x, orig, items);
        lit := s;
      }

      if lit != len {
        d, items := EmitPending(src, srcIdx, lit, len, dst, dstIdx, d, count, room, x, orig, items);
      }
      CompressedOf(x, srcIdx, len, len, dst[..], orig, dstIdx, count, items, d);
    }

    /** What forward does after the header: encodes the bytes from srcIdx
        to end as items written at d0, by one literal when there are at most
        four of them and by the scan otherwise. */
    method Compress(src: array<byte>, srcIdx: nat, dst: array<byte>, dstIdx: nat, d0: nat, count: nat,
                    ghost x: seq<byte>, ghost orig: seq<byte>, ghost end: nat)
      returns (d: nat, ghost items: seq<Item>)
      requires Valid() && src != dst && x == src[..]
      requires srcIdx <= src.Length <= MAX_INT && count <= MAX_INT && dstIdx + MaxEncodedLength(count) <= dst.Length
      requires count <= 4 ==> end == srcIdx + count <= src.Length
      requires count > 4 ==> end == src.Length && dstIdx + MaxEncodedLength(src.Length - srcIdx) <= dst.Length
      requires Placed(dst[..], orig, dstIdx, Encode(count)) && d0 == dstIdx + |Encode(count)|
      modifies buffer, dst
      ensures Compressed(x, srcIdx, end, dst[..], orig, dstIdx, count, items, d)
      ensures count <= 4 ==> items == if count == 0 then [] else [Literal(x[srcIdx..end])]
    {
      items := [];
      assert Encode(count) + EncodeItems([]) == Encode(count);
      WrittenOf(dst[..], orig, dstIdx, count, items, d0, Encode(count));
      if count <= 4 {
        d, items := CompressSmall(src, srcIdx, dst, dstIdx, d0, count, x, orig, end);
      } else {
        d, items := Scan(src, srcIdx, dst, dstIdx, d0, count, x, orig);
      }
    }

    /** At most four bytes: one literal, or nothing. */
    method CompressSmall(src: array<byte>, srcIdx: nat, dst: array<byte>, dstIdx: nat, d0: nat, count: nat,
                         ghost x: seq<byte>, ghost orig: seq<byte>, ghost end: nat)
      returns (d: nat, ghost items: seq<Item>)
      requires src != dst && x == src[..]
      requires count <= 4 && end == srcIdx + count <= src.Length && dstIdx + MaxEncodedLength(count) <= dst.Length
      requires Written(dst[..], orig, dstIdx, count, [], d0)
      modifies dst
      ensures Compressed(x, srcIdx, end, dst[..], orig, dstIdx, count, items, d)
      ensures items == if count == 0 then [] else [Literal(x[srcIdx..end])]
    {
      if count == 0 {
        items, d := [], d0;
        EmittedNothing(x, srcIdx);
        CompressedOf(x, srcIdx, srcIdx, end, dst[..], orig, dstIdx, count, items, d);
      } else {
        d, items := CompressLiteral(src, srcIdx, dst, dstIdx, d0, count, x, orig, end);
      }
    }

    /** Between one and four bytes: a single literal. */
    method CompressLiteral(src: array<byte>, srcIdx: nat, dst: array<byte>, dstIdx: nat, d0: nat, count: nat,
                           ghost x: seq<byte>, ghost orig: seq<byte>, ghost end: nat)
      returns (d: nat, ghost items: seq<Item>)
      requires src != dst && x == src[..]
      requires 0 < count <= 4 && end == srcIdx + count <= src.Length && dstIdx + MaxEncodedLength(count) <= dst.Length
      requires Written(dst[..], orig, dstIdx, count, [], d0)
      modifies dst
      ensures Compressed(x, srcIdx, end, dst[..], orig, dstIdx, count, items, d)
      ensures items == [Literal(x[srcIdx..end])]
    {
      ghost var before := dst[..];
      SmallRoom(before, orig, dstIdx, count, d0, dst.Length);
      var written := EmitLiteral(src, srcIdx, dst, d0, count);
      d := d0 + written;
      items := [Literal(x[srcIdx..end])];
      assert src[srcIdx..srcIdx + count] == x[srcIdx..end];
      SingleLiteral(x, srcIdx, end, before, dst[..], orig, dstIdx, count, d0, d);
    }

    /** forward: refuses (returning false, changing nothing) when dst has
        fewer than getMaxEncodedLength(count) bytes after dstIdx; otherwise
        writes at dstIdx the header for count followed by items that stand
        for src[srcIdx..ScanEnd] and never put two literals side by side,
        and moves the source index on by count and the destination index
        past what it wrote. When count is above 4 the scan runs to the end
        of src whatever count is, so the output can need
        getMaxEncodedLength(src.Length - srcIdx) bytes; when that exceeds
        the room the test checked, Java may run off the end of dst, and the
        precondition excludes that. The ghost result `items` names the
        items. */
    method Forward(src: array<byte>, srcIdx: nat, dst: array<byte>, dstIdx: nat)
      returns (ok: bool, srcNext: nat, dstNext: nat, ghost items: seq<Item>)
      requires Valid() && src != dst
      requires srcIdx <= src.Length <= MAX_INT && dstIdx <= dst.Length
      requires BlockCount(size, src.Length, srcIdx) <= 4 ==> srcIdx + BlockCount(size, src.Length, srcIdx) <= src.Length
      requires BlockCount(size, src.Length, srcIdx) > 4 && dst.Length - dstIdx >= MaxEncodedLength(BlockCount(size, src.Length, srcIdx)) ==>
        dst.Length - dstIdx >= MaxEncodedLength(src.Length - srcIdx)
      modifies buffer, dst
      ensures Valid()
      ensures ok <==> dst.Length - dstIdx >= MaxEncodedLength(BlockCount(size, src.Length, srcIdx))
      ensures !ok ==> dst[..] == old(dst[..]) && srcNext == srcIdx && dstNext == dstIdx
      ensures ok ==> srcNext == srcIdx + BlockCount(size, src.Length, srcIdx)
      ensures ok ==> Compressed(src[..], srcIdx, ScanEnd(size, src.Length, srcIdx), dst[..], old(dst[..]), dstIdx,
                                BlockCount(size, src.Length, srcIdx), items, dstNext)
      ensures ok && BlockCount(size, src.Length, srcIdx) <= 4 ==>
        items == if BlockCount(size, src.Length, srcIdx) == 0 then [] else [Literal(src[srcIdx..ScanEnd(size, src.Length, srcIdx)])]
    {
      var count := BlockCount(size, src.Length, srcIdx);
      if dst.Length - dstIdx < MaxEncodedLength(count) {
        return false, srcIdx, dstIdx, [];
      }
      ghost var orig := dst[..];
      EncodeLengthInt(count);
      var d := PutUvarint(dst, dstIdx, count);
      d, items := Compress(src, srcIdx, dst, dstIdx, d, count, src[..], orig, ScanEnd(size, src.Length, srcIdx));
      ok, srcNext, dstNext := true, srcIdx + count, d;
    }

    /** inverse: decodes the block at srcIdx into dst at dstIdx, as
        Decompress says; on failure the bytes before dstIdx are as they were
        and the source index is left past the header when it held a value. */
    method Inverse(src: array<byte>, srcIdx: nat, dst: array<byte>, dstIdx: nat)
      returns (ok: bool, srcNext: nat, dstNext: nat)
      requires Valid() && src != dst
      requires srcIdx <= src.Length && dstIdx <= dst.Length
      requires BlockCount(size, src.Length, srcIdx) <= src.Length
      modifies dst
      ensures ok <==> Decompress(src[..], srcIdx, size, old(dst[..]), dstIdx).Some?
      ensures ok ==> Decompress(src[..], srcIdx, size, old(dst[..]), dstIdx) == Some((dst[..], srcNext, dstNext))
      ensures !ok ==> srcNext == HeaderEnd(src[..], srcIdx) && dstNext == dstIdx
      ensures dst[..dstIdx] == old(dst[..dstIdx])
    {
      ghost var x := src[..];
      ghost var orig := dst[..];
      var dLen, hEnd := GetDecodedLength(src, srcIdx);
      if dLen < 0 || dst.Length - dstIdx < dLen {
        return false, hEnd, dstIdx;
      }
      var count := BlockCount(size, src.Length, srcIdx);
      var s, d := hEnd, dstIdx;
      while s < count
        invariant dstIdx <= d <= dst.Length
        invariant dst[..dstIdx] == orig[..dstIdx]
        invariant Run(x, count, s, dst[..], d) == Run(x, count, hEnd, orig, dstIdx)
      {
        ghost var before := dst[..];
        var okStep, s1, d1 := Step(src, count, s, dst, d);
        if !okStep {
          ElementFails(x, count, s, before, d);
          return false, hEnd, dstIdx;
        }
        ElementKeeps(x, count, s, before, d, s1, dst[..], d1, dstIdx);
        s, d := s1, d1;
      }
      if d - dstIdx != dLen {
        return false, hEnd, dstIdx;
      }
      return true, srcIdx + count, d;
    }
  }
}
