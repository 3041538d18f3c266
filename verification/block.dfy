/** A compressed block as a sequence of items: literal runs and back
    references. An item list has two readings: the bytes the encoder writes
    for it, and the bytes it expands to. */
module Block {
  import opened Bytes
  import opened Tags

  /** Largest distance forward looks back for a match, exclusive. */
  const MAX_OFFSET: int := 32768

  datatype Item =
    | Literal(bytes: seq<byte>)
    | Copy(offset: nat, len: nat)

  /** The items forward emits: nonempty literals no longer than an int can
      count, and copies of at least four bytes from less than MAX_OFFSET back. */
  predicate WellFormedItem(it: Item)
  {
    match it
    case Literal(b) => 1 <= |b| <= MAX_INT
    case Copy(o, n) => 1 <= o < MAX_OFFSET && n >= 4
  }

  predicate WellFormed(items: seq<Item>)
  {
    forall i :: 0 <= i < |items| ==> WellFormedItem(items[i])
  }

  /** Forward never emits two literals in a row: pending bytes are emitted
      as one literal just before a copy, or at the end. */
  predicate NoAdjacentLiterals(items: seq<Item>)
  {
    forall i :: 0 < i < |items| ==> !(items[i - 1].Literal? && items[i].Literal?)
  }

  predicate EndsWithLiteral(items: seq<Item>)
  {
    |items| > 0 && items[|items| - 1].Literal?
  }

  function EncodeItem(it: Item): seq<byte>
    requires WellFormedItem(it)
  {
    match it
    case Literal(b) => LiteralElement(b)
    case Copy(o, n) => CopyChunks(o, n)
  }

  /** The bytes forward writes for the items, after the header. */
  function EncodeItems(items: seq<Item>): seq<byte>
    requires WellFormed(items)
  {
    if items == [] then [] else EncodeItem(items[0]) + EncodeItems(items[1..])
  }

  function ItemLength(it: Item): nat
  {
    match it
    case Literal(b) => |b|
    case Copy(_, n) => n
  }

  /** The number of bytes the items stand for. */
  function Length(items: seq<Item>): nat
  {
    if items == [] then 0 else ItemLength(items[0]) + Length(items[1..])
  }

  /** When the bytes from position p on repeat with period o, the position
      before p whose byte position k repeats. */
  function Back(p: nat, o: nat, k: nat): (j: nat)
    requires 1 <= o <= p <= k
    ensures p - o <= j < p
    decreases k - p
  {
    if k - o < p then k - o else Back(p, o, k - o)
  }

  /** Moving everything t places along moves the repeated position too. */
  lemma {:induction false} BackShift(p: nat, o: nat, k: nat, t: nat)
    requires 1 <= o <= p <= k
    ensures Back(p + t, o, k + t) == Back(p, o, k) + t
    decreases k - p
  {
    if k - o >= p {
      BackShift(p, o, k - o, t);
    }
  }

  /** A position at or after p + a repeats, with period o, a position
      before p + a, which in turn, when it is at or after p, repeats one
      before p: the same one k repeats directly. */
  lemma {:induction false} BackCompose(p: nat, o: nat, a: nat, k: nat)
    requires 1 <= o <= p && p + a <= k
    ensures var j := Back(p + a, o, k); Back(p, o, k) == if j >= p then Back(p, o, j) else j
    decreases k
  {
    if k - o >= p + a {
      BackCompose(p, o, a, k - o);
    }
  }

  /** `out` followed by n bytes, each a repeat of the byte o positions
      before it: a back reference that may overlap the bytes it produces. */
  function CopyOut(out: seq<byte>, o: nat, n: nat): (r: seq<byte>)
    requires 1 <= o <= |out|
    ensures |r| == |out| + n && r[..|out|] == out
  {
    out + seq(n, i requires 0 <= i < n => out[Back(|out|, o, |out| + i)])
  }

  /** Each byte a copy appends repeats the byte o positions before it. */
  lemma CopyOutRepeats(out: seq<byte>, o: nat, n: nat, k: nat)
    requires 1 <= o <= |out| && |out| <= k < |out| + n
    ensures CopyOut(out, o, n)[k] == CopyOut(out, o, n)[k - o]
  {
    var r := CopyOut(out, o, n);
    assert r[k] == out[Back(|out|, o, k)];
    if k - o >= |out| {
      assert r[k - o] == out[Back(|out|, o, k - o)];
    } else {
      assert r[k - o] == r[..|out|][k - o];
    }
  }

  /** What the items expand to after the bytes `out`: literals append their
      bytes, copies append CopyOut; a copy reaching before the start fails. */
  function Expand(out: seq<byte>, items: seq<Item>): Option<seq<byte>>
    decreases |items|
  {
    if items == [] then Some(out)
    else match items[0]
      case Literal(b) => Expand(out + b, items[1..])
      case Copy(o, n) => if 1 <= o <= |out| then Expand(CopyOut(out, o, n), items[1..]) else None
  }

  /** getMaxEncodedLength, over unbounded integers. */
  function MaxEncodedLength(n: nat): (r: nat)
    ensures 32 + n <= r && 6 * (r - 32 - n) <= n
  {
    32 + n + n / 6
  }

  /** getMaxEncodedLength as Java evaluates it, in 32-bit int arithmetic. */
  function MaxEncodedLengthInt32(n: nat): (r: int)
    requires n <= MAX_INT
    ensures -0x8000_0000 <= r <= MAX_INT
    ensures r == MaxEncodedLength(n) || r == MaxEncodedLength(n) - 0x1_0000_0000
  {
    Int32(Int32(32 + n) + n / 6)
  }

  /** The int result is the true bound exactly up to 1840700242. */
  lemma MaxEncodedLengthInt32Exact(n: nat)
    requires n <= MAX_INT
    ensures MaxEncodedLengthInt32(n) == MaxEncodedLength(n) <==> n <= 1840700242
  {
    if n > 1840700242 {
      assert MaxEncodedLength(n) > MAX_INT;
    }
  }

  /** For the largest int the bound wraps to a negative value, so forward's
      capacity test `dst.length - dstIdx < getMaxEncodedLength(count)` passes
      whatever the destination's size. */
  lemma MaxEncodedLengthInt32Wraps()
    ensures MaxEncodedLengthInt32(MAX_INT) == -1789569676
    ensures MaxEncodedLengthInt32(MAX_INT) < 0
  {
  }

  /** A copy reproduces a stretch of bytes that repeats with period o. */
  lemma CopyOutOfPeriodic(x: seq<byte>, p: nat, o: nat, n: nat)
    requires 1 <= o <= p && p + n <= |x|
    requires forall k :: p <= k < p + n ==> x[k] == x[k - o]
    ensures CopyOut(x[..p], o, n) == x[..p + n]
  {
    forall k | p <= k < p + n
      ensures x[k] == x[Back(p, o, k)]
    {
      PeriodicAt(x, p, o, n, k);
    }
  }

  lemma {:induction false} PeriodicAt(x: seq<byte>, p: nat, o: nat, n: nat, k: nat)
    requires 1 <= o <= p <= k < p + n <= |x|
    requires forall k :: p <= k < p + n ==> x[k] == x[k - o]
    ensures x[k] == x[Back(p, o, k)]
    decreases k - p
  {
    if k - o >= p {
      PeriodicAt(x, p, o, n, k - o);
    }
  }

  lemma {:induction false} ExpandAppend(out: seq<byte>, items: seq<Item>, it: Item)
    ensures Expand(out, items + [it]) ==
      match Expand(out, items)
      case None => None
      case Some(r) => Expand(r, [it])
    decreases |items|
  {
    if items == [] {
      assert items + [it] == [it];
    } else {
      assert (items + [it])[1..] == items[1..] + [it];
      match items[0]
      case Literal(b) =>
        ExpandAppend(out + b, items[1..], it);
      case Copy(o, n) =>
        if 1 <= o <= |out| {
          ExpandAppend(CopyOut(out, o, n), items[1..], it);
        }
    }
  }

  /** A literal after the items adds its bytes to what they expand to. */
  lemma ExpandLiteral(out: seq<byte>, items: seq<Item>, b: seq<byte>, r: seq<byte>)
    requires Expand(out, items) == Some(r)
    ensures Expand(out, items + [Literal(b)]) == Some(r + b)
  {
    ExpandAppend(out, items, Literal(b));
    assert Expand(r, [Literal(b)]) == Expand(r + b, []);
  }

  /** A back reference after the items copies from what they expand to. */
  lemma ExpandCopy(out: seq<byte>, items: seq<Item>, o: nat, n: nat, r: seq<byte>)
    requires Expand(out, items) == Some(r) && 1 <= o <= |r|
    ensures Expand(out, items + [Copy(o, n)]) == Some(CopyOut(r, o, n))
  {
    ExpandAppend(out, items, Copy(o, n));
    assert Expand(r, [Copy(o, n)]) == Expand(CopyOut(r, o, n), []);
  }

  /** Expanding keeps what came before and adds Length(items) bytes. */
  lemma {:induction false} ExpandLength(out: seq<byte>, items: seq<Item>)
    requires Expand(out, items).Some?
    ensures |Expand(out, items).value| == |out| + Length(items)
    ensures Expand(out, items).value[..|out|] == out
    decreases |items|
  {
    if items != [] {
      match items[0]
      case Literal(b) =>
        ExpandLength(out + b, items[1..]);
        assert (out + b)[..|out|] == out;
      case Copy(o, n) =>
        ExpandLength(CopyOut(out, o, n), items[1..]);
    }
  }

  /** One more well-formed item keeps the list well formed. */
  lemma WellFormedAppend(items: seq<Item>, it: Item)
    requires WellFormed(items) && WellFormedItem(it)
    ensures WellFormed(items + [it])
  {
    var all := items + [it];
    forall i | 0 <= i < |all|
      ensures WellFormedItem(all[i])
    {
      if i < |items| {
        assert all[i] == items[i];
      }
    }
  }

  /** The bytes of a non-empty list: its first item's, then the others'. */
  lemma EncodeItemsCons(items: seq<Item>)
    requires items != [] && WellFormed(items)
    ensures WellFormed(items[1..])
    ensures EncodeItems(items) == EncodeItem(items[0]) + EncodeItems(items[1..])
  {
    var rest := items[1..];
    forall i | 0 <= i < |rest|
      ensures WellFormedItem(rest[i])
    {
      assert rest[i] == items[i + 1];
    }
  }

  lemma {:induction false} EncodeItemsAppend(items: seq<Item>, it: Item)
    requires WellFormed(items) && WellFormedItem(it)
    ensures WellFormed(items + [it])
    ensures EncodeItems(items + [it]) == EncodeItems(items) + EncodeItem(it)
    decreases |items|
  {
    WellFormedAppend(items, it);
    var all := items + [it];
    if items == [] {
      assert all == [it];
      EncodeItemsCons(all);
      assert all[1..] == [];
    } else {
      var rest := items[1..];
      assert all[0] == items[0];
      assert all[1..] == rest + [it];
      EncodeItemsCons(items);
      EncodeItemsCons(all);
      EncodeItemsAppend(rest, it);
      ConcatAssoc(EncodeItem(items[0]), EncodeItems(rest), EncodeItem(it));
    }
  }

  lemma {:induction false} LengthAppend(items: seq<Item>, it: Item)
    ensures Length(items + [it]) == Length(items) + ItemLength(it)
    decreases |items|
  {
    if items == [] {
      assert items + [it] == [it];
    } else {
      assert (items + [it])[1..] == items[1..] + [it];
      LengthAppend(items[1..], it);
    }
  }

  /** The worst case behind getMaxEncodedLength: items that never put two
      literals side by side take at most one byte more than their length plus
      a sixth of it, and none more once they end with a copy. A copy of
      n >= 4 bytes costs at most n - 1 bytes, which pays for the tag of the
      literal before it; a literal's tag beyond its first byte costs at most
      a sixth of the literal. */
  lemma {:induction false} EncodedSizeBound(items: seq<Item>)
    requires WellFormed(items) && NoAdjacentLiterals(items)
    ensures |EncodeItems(items)| <= Length(items) + Length(items) / 6 + (if EndsWithLiteral(items) then 1 else 0)
    decreases |items|
  {
    if items != [] {
      var init := items[..|items| - 1];
      var last := items[|items| - 1];
      assert items == init + [last];
      assert WellFormed(init) && NoAdjacentLiterals(init);
      EncodedSizeBound(init);
      EncodeItemsAppend(init, last);
      LengthAppend(init, last);
      match last
      case Literal(b) =>
        assert !EndsWithLiteral(init);
        LiteralTagCost(|b|);
      case Copy(o, n) =>
        CopyChunksCost(o, n);
    }
  }
}
