/** The body of inverse: the loop that reads one element at a time and
    writes the bytes it stands for, over sequences. Each turn of the loop
    reads an element (ReadElement) and then carries it out on the output
    (ApplyOp); the loop as a whole is Run. */
module Decoder {
  import opened Bytes
  import opened Tags
  import opened Block

  /** The length field of a literal's tag at s: (x, s1) with x the value
      held in the upper six bits or in the one to four little-endian bytes
      after the tag, and s1 the index past them; None when those bytes run
      past count. Four bytes are read into a Java int, so they may wrap. */
  function LiteralHeader(src: seq<byte>, s: nat, count: int): (r: Option<(int, nat)>)
    requires s < count <= |src|
    ensures r.Some? ==> s < r.value.1 <= count
  {
    var x := src[s] / 4;
    if x < TAG_DEC_LEN1 then Some((x, s + 1))
    else if x == TAG_DEC_LEN1 then
      if s + 2 > count then None else Some((src[s + 1], s + 2))
    else if x == TAG_DEC_LEN2 then
      if s + 3 > count then None else Some((src[s + 1] + 0x100 * (src[s + 2] as int), s + 3))
    else if x == TAG_DEC_LEN3 then
      if s + 4 > count then None
      else Some((src[s + 1] + 0x100 * (src[s + 2] as int) + 0x1_0000 * (src[s + 3] as int), s + 4))
    else
      if s + 5 > count then None
      else Some((Int32(src[s + 1] + 0x100 * (src[s + 2] as int) + 0x1_0000 * (src[s + 3] as int) + 0x100_0000 * (src[s + 4] as int)), s + 5))
  }

  /** What the back-reference loop `dst[d] = dst[d - o]`, run for n bytes
      from d, leaves in the array: as the copy may overlap its own output,
      the o bytes before d repeat with period o. An offset of 0 leaves the
      bytes as they are. */
  function RunCopy(dst: seq<byte>, d: nat, o: nat, n: nat): (r: seq<byte>)
    requires o <= d && d + n <= |dst|
    ensures |r| == |dst|
  {
    seq(|dst|, k requires 0 <= k < |dst| => if d <= k < d + n && o > 0 then dst[Back(d, o, k)] else dst[k])
  }

  /** The length a tag-01 element encodes: 4 plus three bits of its tag. */
  function Copy1Length(tag: byte): nat
  {
    4 + (tag / 4) % 8
  }

  /** The offset a tag-01 element encodes: the three high bits of its tag
      above the byte after it. */
  function Copy1Offset(tag: byte, b1: byte): nat
  {
    (tag / 32) * 0x100 + b1
  }

  /** The length a tag-10 element encodes: 1 plus the upper six bits of its tag. */
  function Copy2Length(tag: byte): nat
  {
    1 + tag / 4
  }

  /** The offset a tag-10 element encodes: two little-endian bytes. */
  function Copy2Offset(b1: byte, b2: byte): nat
  {
    b1 + 0x100 * (b2 as int)
  }

  /** What one element tells the loop to do: write the literal bytes it
      holds, or copy len bytes from offset back in the output. */
  datatype Op =
    | Put(bytes: seq<byte>)
    | Repeat(offset: nat, len: nat)

  /** Reads the element at s: the operation it stands for and the index past
      it; None when inverse returns false on reading it (it runs past count,
      or the tag is of type 11). */
  function ReadElement(src: seq<byte>, count: int, s: nat): (r: Option<(Op, nat)>)
    requires s < count <= |src|
    ensures r.Some? ==> s < r.value.1 <= count
  {
    var tag := src[s];
    if tag % 4 == TAG_LITERAL then
      ReadLiteral(src, count, s)
    else if tag % 4 == TAG_COPY1 then
      if s + 2 > count then None
      else Some((Repeat(Copy1Offset(tag, src[s + 1]), Copy1Length(tag)), s + 2))
    else if tag % 4 == TAG_COPY2 then
      if s + 3 > count then None
      else Some((Repeat(Copy2Offset(src[s + 1], src[s + 2]), Copy2Length(tag)), s + 3))
    else
      None
  }

  /** Reads the literal element at s: refused when its length, as a Java
      int, is not positive or runs past count. */
  function ReadLiteral(src: seq<byte>, count: int, s: nat): (r: Option<(Op, nat)>)
    requires s < count <= |src|
    ensures r.Some? ==> r.value.0.Put? && s < r.value.1 <= count
  {
    match LiteralHeader(src, s, count)
    case None => None
    case Some((x, s1)) =>
      var length := Int32(x + 1);
      if length <= 0 || length > count - s1 then None
      else Some((Put(src[s1..s1 + length]), s1 + length))
  }

  /** Carries out an operation at output index d: the new output and output
      index; None when inverse returns false there (the literal runs past the
      end of the array, or the back reference reaches before its start or
      runs past its end). */
  function ApplyOp(dst: seq<byte>, d: nat, op: Op): (r: Option<(seq<byte>, nat)>)
    requires d <= |dst|
    ensures r.Some? ==> |r.value.0| == |dst| && d <= r.value.1 <= |dst|
  {
    match op
    case Put(b) =>
      if |b| > |dst| - d then None
      else Some((dst[..d] + b + dst[d + |b|..], d + |b|))
    case Repeat(offset, length) =>
      if offset > d || d + length > |dst| then None
      else Some((RunCopy(dst, d, offset, length), d + length))
  }

  /** One turn of the loop at s: the index past the element, the new output
      and the new output index; None when inverse returns false there. */
  function Element(src: seq<byte>, count: int, s: nat, dst: seq<byte>, d: nat): (r: Option<(nat, seq<byte>, nat)>)
    requires s < count <= |src| && d <= |dst|
    ensures r.Some? ==> s < r.value.0 && |r.value.1| == |dst| && d <= r.value.2 <= |dst|
  {
    match ReadElement(src, count, s)
    case None => None
    case Some((op, s1)) =>
      match ApplyOp(dst, d, op)
      case None => None
      case Some((dst1, d1)) => Some((s1, dst1, d1))
  }

  /** inverse's loop from index s with output index d: elements are decoded
      while s < count. */
  function Run(src: seq<byte>, count: int, s: nat, dst: seq<byte>, d: nat): (r: Option<(seq<byte>, nat)>)
    requires count <= |src| && d <= |dst|
    ensures r.Some? ==> |r.value.0| == |dst| && d <= r.value.1 <= |dst|
    decreases count - s
  {
    if s >= count then Some((dst, d))
    else
      match Element(src, count, s, dst, d)
      case None => None
      case Some((s1, dst1, d1)) => Run(src, count, s1, dst1, d1)
  }

  /** One element decoded, the loop goes on from what follows it. */
  lemma RunUnfold(src: seq<byte>, count: int, s: nat, dst: seq<byte>, d: nat, s1: nat, dst1: seq<byte>, d1: nat)
    requires count <= |src| && d <= |dst| && s < count
    requires Element(src, count, s, dst, d) == Some((s1, dst1, d1))
    ensures d1 <= |dst1|
    ensures Run(src, count, s, dst, d) == Run(src, count, s1, dst1, d1)
  {
  }

  /** The operations of all the elements from s up to count, in order;
      None when one of them cannot be read. */
  function ReadAll(src: seq<byte>, count: int, s: nat): Option<seq<Op>>
    requires count <= |src|
    decreases count - s
  {
    if s >= count then Some([])
    else
      match ReadElement(src, count, s)
      case None => None
      case Some((op, s1)) =>
        match ReadAll(src, count, s1)
        case None => None
        case Some(ops) => Some([op] + ops)
  }

  /** The operations carried out one after the other from output index d. */
  function ApplyAll(ops: seq<Op>, dst: seq<byte>, d: nat): (r: Option<(seq<byte>, nat)>)
    requires d <= |dst|
    ensures r.Some? ==> |r.value.0| == |dst| && r.value.1 <= |dst|
    decreases |ops|
  {
    if ops == [] then Some((dst, d))
    else
      match ApplyOp(dst, d, ops[0])
      case None => None
      case Some((dst1, d1)) => ApplyAll(ops[1..], dst1, d1)
  }

  /** When every element of the block can be read, the loop, which reads
      and carries out one element at a time, does what reading them all and
      then carrying them all out does, failure included. */
  lemma {:induction false} RunSplit(src: seq<byte>, count: int, s: nat, dst: seq<byte>, d: nat, ops: seq<Op>)
    requires count <= |src| && d <= |dst|
    requires ReadAll(src, count, s) == Some(ops)
    ensures Run(src, count, s, dst, d) == ApplyAll(ops, dst, d)
    decreases count - s
  {
    if s < count {
      var (op, s1) := ReadElement(src, count, s).value;
      var tail := ReadAll(src, count, s1).value;
      assert ops[0] == op && ops[1..] == tail;
      match ApplyOp(dst, d, op)
      case None =>
      case Some((dst1, d1)) =>
        RunSplit(src, count, s1, dst1, d1, tail);
    }
  }

  /** One turn of the loop writes only from d up to the new output index. */
  lemma ElementFrame(src: seq<byte>, count: int, s: nat, dst: seq<byte>, d: nat)
    requires s < count <= |src| && d <= |dst| && Element(src, count, s, dst, d).Some?
    ensures var r := Element(src, count, s, dst, d).value;
      d <= r.2 && r.1[..d] == dst[..d] && r.1[r.2..] == dst[r.2..]
  {
    var op := ReadElement(src, count, s).value.0;
    match op
    case Put(b) =>
      var dst1 := dst[..d] + b + dst[d + |b|..];
      assert dst1[..d] == dst[..d];
      assert dst1[d + |b|..] == dst[d + |b|..];
    case Repeat(o, n) =>
      RunCopyFrame(dst, d, o, n);
  }

  /** Two writes, one at [d, d1) and one at [d1, e), leave everything
      outside [d, e) as it was. */
  lemma FrameCompose(a: seq<byte>, b: seq<byte>, c: seq<byte>, d: nat, d1: nat, e: nat)
    requires d <= d1 <= e <= |a| && |a| == |b| == |c|
    requires b[..d] == a[..d] && b[d1..] == a[d1..]
    requires c[..d1] == b[..d1] && c[e..] == b[e..]
    ensures c[..d] == a[..d] && c[e..] == a[e..]
  {
    assert c[..d] == c[..d1][..d];
    assert b[..d] == b[..d1][..d];
    assert b[e..] == b[d1..][e - d1..];
    assert a[e..] == a[d1..][e - d1..];
  }

  /** The loop writes only from the output index it starts at up to the one
      it ends at: everything before and after is left as it was. */
  lemma {:induction false} RunFrame(src: seq<byte>, count: int, s: nat, dst: seq<byte>, d: nat)
    requires count <= |src| && d <= |dst| && Run(src, count, s, dst, d).Some?
    ensures var r := Run(src, count, s, dst, d).value;
      d <= r.1 <= |r.0| == |dst| && r.0[..d] == dst[..d] && r.0[r.1..] == dst[r.1..]
    decreases count - s
  {
    if s < count {
      var r1 := Element(src, count, s, dst, d).value;
      RunUnfold(src, count, s, dst, d, r1.0, r1.1, r1.2);
      ElementFrame(src, count, s, dst, d);
      RunFrame(src, count, r1.0, r1.1, r1.2);
      var r := Run(src, count, s, dst, d).value;
      FrameCompose(dst, r1.1, r.0, d, r1.2, r.1);
    }
  }

  /** A turn of the loop that succeeds leaves the output before lo as it
      was, and the loop goes on from what follows the element. */
  lemma ElementKeeps(src: seq<byte>, count: int, s: nat, dst: seq<byte>, d: nat, s1: nat, dst1: seq<byte>, d1: nat, lo: nat)
    requires s < count <= |src| && lo <= d <= |dst|
    requires Element(src, count, s, dst, d) == Some((s1, dst1, d1))
    ensures lo <= d1 <= |dst1| && dst1[..lo] == dst[..lo]
    ensures Run(src, count, s1, dst1, d1) == Run(src, count, s, dst, d)
  {
    ElementFrame(src, count, s, dst, d);
    assert dst1[..lo] == dst1[..d][..lo];
    assert dst[..lo] == dst[..d][..lo];
  }

  /** A turn of the loop that fails ends the loop with failure. */
  lemma ElementFails(src: seq<byte>, count: int, s: nat, dst: seq<byte>, d: nat)
    requires s < count <= |src| && d <= |dst|
    requires Element(src, count, s, dst, d).None?
    ensures Run(src, count, s, dst, d).None?
  {
  }

  /** A tag of type 11 refuses the block: the turn fails, and with it the
      loop. */
  lemma Tag11Fails(src: seq<byte>, count: int, s: nat, dst: seq<byte>, d: nat)
    requires s < count <= |src| && d <= |dst| && src[s] % 4 == 3
    ensures ReadElement(src, count, s) == None
    ensures Element(src, count, s, dst, d) == None && Run(src, count, s, dst, d) == None
  {
  }

  /** What inverse's loop, as written, carries from one turn to the next:
      the source index, the output and its index, and the offset and length
      of the last element, which the copy code after the switch reads. */
  datatype LoopState = LoopState(s: nat, dst: seq<byte>, d: nat, offset: nat, length: int)

  /** One turn of inverse's loop exactly as written. A tag of type 11
      matches no case of the switch: s stays where it is, and the copy code
      runs with the offset and length the previous element left. None when
      inverse returns false. */
  function JavaTurn(src: seq<byte>, count: int, st: LoopState): (r: Option<LoopState>)
    requires st.s < count <= |src| && st.d <= |st.dst|
    ensures r.Some? ==> |r.value.dst| == |st.dst| && st.d <= r.value.d <= |r.value.dst|
    ensures r.Some? ==> st.s <= r.value.s <= count && (src[st.s] % 4 != 3 ==> st.s < r.value.s)
  {
    var tag := src[st.s];
    if tag % 4 == TAG_LITERAL then
      match LiteralHeader(src, st.s, count)
      case None => None
      case Some((x, s1)) =>
        var length := Int32(x + 1);
        if length <= 0 || length > |st.dst| - st.d || length > count - s1 then None
        else Some(LoopState(s1 + length, st.dst[..st.d] + src[s1..s1 + length] + st.dst[st.d + length..],
                            st.d + length, st.offset, length))
    else if tag % 4 == TAG_COPY1 then
      if st.s + 2 > count then None
      else CopyTurn(st.s + 2, st.dst, st.d, Copy1Offset(tag, src[st.s + 1]), Copy1Length(tag))
    else if tag % 4 == TAG_COPY2 then
      if st.s + 3 > count then None
      else CopyTurn(st.s + 3, st.dst, st.d, Copy2Offset(src[st.s + 1], src[st.s + 2]), Copy2Length(tag))
    else
      CopyTurn(st.s, st.dst, st.d, st.offset, st.length)
  }

  /** The copy code after the switch, the source index already at s1:
      `end = d + length` in int arithmetic, the refusal test, then
      `dst[d] = dst[d - offset]` while d < end. */
  function CopyTurn(s1: nat, dst: seq<byte>, d: nat, offset: nat, length: int): (r: Option<LoopState>)
    requires d <= |dst|
    ensures r.Some? <==> offset <= d && Int32(d + length) <= |dst|
    ensures r.Some? ==> r.value.s == s1 && |r.value.dst| == |dst| && d <= r.value.d <= |dst|
    ensures r.Some? ==> r.value.d == if Int32(d + length) <= d then d else Int32(d + length)
    ensures r.Some? ==> r.value.offset == offset && r.value.length == length
  {
    var end := Int32(d + length);
    if offset > d || end > |dst| then None
    else if end <= d then Some(LoopState(s1, dst, d, offset, length))
    else Some(LoopState(s1, RunCopy(dst, d, offset, end - d), end, offset, length))
  }

  /** k turns of the loop as written, stopping when inverse returns false
      (None) or when s reaches count. */
  function JavaTurns(src: seq<byte>, count: int, st: LoopState, k: nat): (r: Option<LoopState>)
    requires count <= |src| && st.d <= |st.dst|
    ensures r.Some? ==> |r.value.dst| == |st.dst| && st.d <= r.value.d <= |r.value.dst|
    decreases k
  {
    if k == 0 || st.s >= count then Some(st)
    else
      match JavaTurn(src, count, st)
      case None => None
      case Some(st1) => JavaTurns(src, count, st1, k - 1)
  }

  /** Away from tags of type 11, and for arrays at least 64 entries short of
      the int range (so that `d + length` does not wrap), a turn as written
      is Element: it fails on the same input, and otherwise it reaches the
      same source index, output and output index. */
  lemma TurnAgrees(src: seq<byte>, count: int, st: LoopState)
    requires st.s < count <= |src| && st.d <= |st.dst| <= MAX_INT - 64
    requires src[st.s] % 4 != 3
    ensures JavaTurn(src, count, st).Some? <==> Element(src, count, st.s, st.dst, st.d).Some?
    ensures JavaTurn(src, count, st).Some? ==>
      var t := JavaTurn(src, count, st).value;
      Element(src, count, st.s, st.dst, st.d) == Some((t.s, t.dst, t.d))
  {
    if src[st.s] % 4 == TAG_LITERAL {
      LiteralTurnAgrees(src, count, st);
    } else {
      CopyElementAgrees(src, count, st);
    }
  }

  /** TurnAgrees for a literal: the three refusals of line 456 taken at
      once are ReadLiteral's two and ApplyOp's one. */
  lemma LiteralTurnAgrees(src: seq<byte>, count: int, st: LoopState)
    requires st.s < count <= |src| && st.d <= |st.dst| && src[st.s] % 4 == TAG_LITERAL
    ensures JavaTurn(src, count, st).Some? <==> Element(src, count, st.s, st.dst, st.d).Some?
    ensures JavaTurn(src, count, st).Some? ==>
      var t := JavaTurn(src, count, st).value;
      Element(src, count, st.s, st.dst, st.d) == Some((t.s, t.dst, t.d))
  {
    match LiteralHeader(src, st.s, count)
    case None =>
    case Some((x, s1)) =>
      var length := Int32(x + 1);
      if length > 0 && length <= count - s1 {
        assert ReadElement(src, count, st.s) == Some((Put(src[s1..s1 + length]), s1 + length));
      }
  }

  /** TurnAgrees for the elements of type 01 and 10. */
  lemma CopyElementAgrees(src: seq<byte>, count: int, st: LoopState)
    requires st.s < count <= |src| && st.d <= |st.dst| <= MAX_INT - 64
    requires src[st.s] % 4 == TAG_COPY1 || src[st.s] % 4 == TAG_COPY2
    ensures JavaTurn(src, count, st).Some? <==> Element(src, count, st.s, st.dst, st.d).Some?
    ensures JavaTurn(src, count, st).Some? ==>
      var t := JavaTurn(src, count, st).value;
      Element(src, count, st.s, st.dst, st.d) == Some((t.s, t.dst, t.d))
  {
    var tag := src[st.s];
    if tag % 4 == TAG_COPY1 {
      if st.s + 2 <= count {
        CopyTurnApply(st.s + 2, st.dst, st.d, Copy1Offset(tag, src[st.s + 1]), Copy1Length(tag));
      }
    } else {
      if st.s + 3 <= count {
        CopyTurnApply(st.s + 3, st.dst, st.d, Copy2Offset(src[st.s + 1], src[st.s + 2]), Copy2Length(tag));
      }
    }
  }

  /** When d + n stays in the int range, the copy code after the switch is
      ApplyOp of the back reference. */
  lemma CopyTurnApply(s1: nat, dst: seq<byte>, d: nat, o: nat, n: nat)
    requires d <= |dst| && 1 <= n && d + n <= MAX_INT
    ensures CopyTurn(s1, dst, d, o, n).Some? <==> ApplyOp(dst, d, Repeat(o, n)).Some?
    ensures CopyTurn(s1, dst, d, o, n).Some? ==>
      var t := CopyTurn(s1, dst, d, o, n).value;
      t.s == s1 && ApplyOp(dst, d, Repeat(o, n)) == Some((t.dst, t.d))
  {
    assert Int32(d + n) == d + n;
  }

  /** A tag of type 11 met while length is 0, as it is before any element
      has been decoded: the turn leaves the state exactly as it was, so
      however many turns follow, the loop is still at s < count. */
  lemma {:induction false} Tag11Stalls(src: seq<byte>, count: int, st: LoopState, k: nat)
    requires st.s < count <= |src| && st.d <= |st.dst| <= MAX_INT
    requires src[st.s] % 4 == 3 && st.length == 0 && st.offset <= st.d
    ensures JavaTurn(src, count, st) == Some(st)
    ensures JavaTurns(src, count, st, k) == Some(st)
    decreases k
  {
    if k > 0 {
      Tag11Stalls(src, count, st, k - 1);
    }
  }

  /** A tag of type 11 met after an element that left a positive length:
      each turn repeats that copy without moving s, adding length to d, so
      once k turns cover what is left of dst, inverse has returned false.
      (As long as d + length stays in the int range.) */
  lemma {:induction false} Tag11Overruns(src: seq<byte>, count: int, st: LoopState, k: nat)
    requires st.s < count <= |src| && st.d <= |st.dst| && |st.dst| + st.length <= MAX_INT
    requires src[st.s] % 4 == 3 && st.length > 0
    requires k * st.length > |st.dst| - st.d
    ensures JavaTurns(src, count, st, k) == None
    decreases k
  {
    if st.offset <= st.d && st.d + st.length <= |st.dst| {
      var st1 := JavaTurn(src, count, st).value;
      assert st1 == st.(d := st.d + st.length, dst := st1.dst);
      assert (k - 1) * st.length == k * st.length - st.length;
      Tag11Overruns(src, count, st1, k - 1);
    }
  }

  /** The little-endian value of one to four explicit bytes. */
  lemma LittleEndianSmall(bs: seq<byte>)
    requires 1 <= |bs| <= 4
    ensures |bs| == 1 ==> LittleEndian(bs) == bs[0]
    ensures |bs| == 2 ==> LittleEndian(bs) == bs[0] + 0x100 * (bs[1] as int)
    ensures |bs| == 3 ==> LittleEndian(bs) == bs[0] + 0x100 * (bs[1] as int) + 0x1_0000 * (bs[2] as int)
    ensures |bs| == 4 ==> LittleEndian(bs) == bs[0] + 0x100 * (bs[1] as int) + 0x1_0000 * (bs[2] as int)
                                              + 0x100_0000 * (bs[3] as int)
  {
    var t := bs[1..];
    if |bs| > 1 {
      var u := t[1..];
      if |t| > 1 {
        var v := u[1..];
        if |u| > 1 {
          assert LittleEndian(v[1..]) == 0;
        }
      }
    }
  }

  /** The length field of a tag emitLiteral wrote for n reads back as n. */
  lemma LiteralHeaderOfTag(src: seq<byte>, s: nat, count: int, n: nat)
    requires n < MAX_INT
    requires s + |LiteralTag(n)| <= count <= |src| && src[s..s + |LiteralTag(n)|] == LiteralTag(n)
    ensures LiteralHeader(src, s, count) == Some((n, s + |LiteralTag(n)|))
  {
    var tag := LiteralTag(n);
    var k := |tag|;
    LiteralTagDecodes(n);
    assert src[s] == tag[0];
    if k > 1 {
      var extra := src[s + 1..s + k];
      assert extra == tag[1..];
      LittleEndianSmall(extra);
      assert forall j :: 0 <= j < k - 1 ==> extra[j] == src[s + 1 + j];
    }
  }

  /** The pieces of a literal element emitLiteral wrote: its tag, which
      reads back as the length less one, and its bytes. */
  lemma LiteralPieces(src: seq<byte>, count: int, s: nat, b: seq<byte>)
    requires 1 <= |b| <= MAX_INT
    requires s + |LiteralElement(b)| <= count <= |src|
    requires src[s..s + |LiteralElement(b)|] == LiteralElement(b)
    ensures src[s] % 4 == TAG_LITERAL
    ensures LiteralHeader(src, s, count) == Some((|b| - 1, s + |LiteralTag(|b| - 1)|))
    ensures src[s + |LiteralTag(|b| - 1)|..s + |LiteralElement(b)|] == b
  {
    var tag := LiteralTag(|b| - 1);
    TagAndBytes(src, s, tag, b);
    LiteralHeaderOfTag(src, s, count, |b| - 1);
  }

  /** Bytes holding tag + b hold tag, then b. */
  lemma TagAndBytes(src: seq<byte>, s: nat, tag: seq<byte>, b: seq<byte>)
    requires 1 <= |tag| && s + |tag| + |b| <= |src| && src[s..s + |tag + b|] == tag + b
    ensures src[s] == tag[0] && src[s..s + |tag|] == tag && src[s + |tag|..s + |tag| + |b|] == b
  {
    var k := |tag|;
    assert src[s..s + k] == src[s..s + |tag + b|][..k];
    assert src[s + k..s + k + |b|] == src[s..s + |tag + b|][k..];
  }

  /** inverse reads back a literal element as the bytes it holds. */
  lemma ReadLiteralElement(src: seq<byte>, count: int, s: nat, b: seq<byte>)
    requires 1 <= |b| <= MAX_INT
    requires s + |LiteralElement(b)| <= count <= |src|
    requires src[s..s + |LiteralElement(b)|] == LiteralElement(b)
    ensures ReadElement(src, count, s) == Some((Put(b), s + |LiteralElement(b)|))
  {
    LiteralPieces(src, count, s, b);
    LiteralRead(src, count, s, |b| - 1, s + |LiteralTag(|b| - 1)|, b);
  }

  lemma LiteralRead(src: seq<byte>, count: int, s: nat, x: int, s1: nat, b: seq<byte>)
    requires s < count <= |src| && src[s] % 4 == TAG_LITERAL
    requires LiteralHeader(src, s, count) == Some((x, s1))
    requires 0 <= x < MAX_INT && |b| == x + 1 && s1 + |b| <= count && src[s1..s1 + |b|] == b
    ensures ReadElement(src, count, s) == Some((Put(b), s1 + |b|))
  {
  }

  /** The tag emitCopy writes for a short copy gives back its offset and
      length. */
  lemma Copy1Fields(o: nat, n: nat)
    requires o < 2048 && 4 <= n < 12
    ensures var tag := Copy1Element(n, o % 0x100, (o / 0x100) % 0x100)[0];
      tag % 4 == TAG_COPY1 && Copy1Offset(tag, o % 0x100) == o && Copy1Length(tag) == n
  {
    var h := o / 0x100;
    assert h < 8 && h % 0x100 == h;
    var tag := Copy1Element(n, o % 0x100, h % 0x100)[0];
    assert tag == h * 32 + (n - 4) * 4 + 1;
    assert tag / 32 == h;
    assert tag / 4 == h * 8 + n - 4;
  }

  /** The tag emitCopy writes for a long copy gives back its length, and
      the two bytes after it its offset. */
  lemma Copy2Fields(o: nat, x: nat)
    requires o < MAX_OFFSET && 1 <= x <= 64
    ensures var e := Copy2Element(x, o % 0x100, (o / 0x100) % 0x100);
      e[0] % 4 == TAG_COPY2 && Copy2Offset(e[1], e[2]) == o && Copy2Length(e[0]) == x
  {
    var h := o / 0x100;
    assert h < 0x100 && h % 0x100 == h;
  }

  /** inverse reads a tag-01 element emitCopy wrote back as its offset and
      length. */
  lemma ReadCopy1(src: seq<byte>, count: int, s: nat, o: nat, n: nat)
    requires o < 2048 && 4 <= n < 12
    requires s + 2 <= count <= |src|
    requires src[s..s + 2] == Copy1Element(n, o % 0x100, (o / 0x100) % 0x100)
    ensures ReadElement(src, count, s) == Some((Repeat(o, n), s + 2))
  {
    assert src[s] == src[s..s + 2][0] && src[s + 1] == src[s..s + 2][1];
    Copy1Fields(o, n);
  }

  /** inverse reads a tag-10 element emitCopy wrote back as its offset and
      length. */
  lemma ReadCopy2(src: seq<byte>, count: int, s: nat, o: nat, x: nat)
    requires o < MAX_OFFSET && 1 <= x <= 64
    requires s + 3 <= count <= |src|
    requires src[s..s + 3] == Copy2Element(x, o % 0x100, (o / 0x100) % 0x100)
    ensures ReadElement(src, count, s) == Some((Repeat(o, x), s + 3))
  {
    assert src[s] == src[s..s + 3][0] && src[s + 1] == src[s..s + 3][1] && src[s + 2] == src[s..s + 3][2];
    Copy2Fields(o, x);
  }

  /** src holds the bytes e from position s on, compared byte by byte. */
  ghost predicate HoldsAt(src: seq<byte>, s: nat, e: seq<byte>)
    decreases |e|
  {
    if e == [] then s <= |src| else s < |src| && src[s] == e[0] && HoldsAt(src, s + 1, e[1..])
  }

  /** HoldsAt is the slice of src at s being e. */
  lemma {:induction false} HoldsAtSlice(src: seq<byte>, s: nat, e: seq<byte>)
    ensures HoldsAt(src, s, e) <==> s + |e| <= |src| && src[s..s + |e|] == e
    decreases |e|
  {
    if e != [] {
      HoldsAtSlice(src, s + 1, e[1..]);
      if s + |e| <= |src| {
        var slice := src[s..s + |e|];
        assert slice == [src[s]] + src[s + 1..s + 1 + |e[1..]|];
        assert e == [e[0]] + e[1..];
        assert slice == e <==> src[s] == e[0] && src[s + 1..s + 1 + |e[1..]|] == e[1..];
      }
    }
  }

  /** Holding a + b is holding a, then b just after it. */
  lemma {:induction false} HoldsAtSplit(src: seq<byte>, s: nat, a: seq<byte>, b: seq<byte>)
    requires HoldsAt(src, s, a + b)
    ensures HoldsAt(src, s, a) && HoldsAt(src, s + |a|, b)
    decreases |a|
  {
    if a == [] {
      assert a + b == b;
    } else {
      assert (a + b)[0] == a[0] && (a + b)[1..] == a[1..] + b;
      HoldsAtSplit(src, s + 1, a[1..], b);
    }
  }

  /** src holds at s, element by element, the bytes emitCopy writes for a
      copy of n bytes at distance o. */
  ghost predicate ChunksAt(src: seq<byte>, s: nat, o: nat, n: nat)
    decreases n
  {
    if n == 0 then true
    else if o < 2048 && n < 12 && n >= 4 then
      HoldsAt(src, s, Copy1Element(n, o % 0x100, (o / 0x100) % 0x100))
    else
      var x := if n <= 64 then n else 64;
      HoldsAt(src, s, Copy2Element(x, o % 0x100, (o / 0x100) % 0x100)) && ChunksAt(src, s + 3, o, n - x)
  }

  lemma {:induction false} ChunksAtOf(src: seq<byte>, s: nat, o: nat, n: nat)
    requires HoldsAt(src, s, CopyChunks(o, n))
    ensures ChunksAt(src, s, o, n)
    decreases n
  {
    if n > 0 && !(o < 2048 && n < 12 && n >= 4) {
      var x := if n <= 64 then n else 64;
      var chunk := Copy2Element(x, o % 0x100, (o / 0x100) % 0x100);
      HoldsAtSplit(src, s, chunk, CopyChunks(o, n - x));
      ChunksAtOf(src, s + 3, o, n - x);
    }
  }

  /** The operations emitCopy's elements for a copy of n bytes at distance
      o stand for: one back reference per element. */
  function CopyOps(o: nat, n: nat): (r: seq<Op>)
    decreases n
  {
    if n == 0 then []
    else if o < 2048 && n < 12 && n >= 4 then [Repeat(o, n)]
    else
      var x := if n <= 64 then n else 64;
      [Repeat(o, x)] + CopyOps(o, n - x)
  }

  /** The first element of a copy's elements, and where the others are. */
  lemma ChunkFirst(src: seq<byte>, count: int, s: nat, o: nat, n: nat, sEnd: nat)
    requires o < MAX_OFFSET && n > 0
    requires ChunksAt(src, s, o, n) && sEnd == s + |CopyChunks(o, n)| && sEnd <= count <= |src|
    ensures o < 2048 && n < 12 && n >= 4 ==>
      ReadElement(src, count, s) == Some((Repeat(o, n), sEnd)) && CopyOps(o, n) == [Repeat(o, n)]
    ensures !(o < 2048 && n < 12 && n >= 4) ==>
      var x := if n <= 64 then n else 64;
      && ReadElement(src, count, s) == Some((Repeat(o, x), s + 3))
      && ChunksAt(src, s + 3, o, n - x) && sEnd == s + 3 + |CopyChunks(o, n - x)|
      && CopyOps(o, n) == [Repeat(o, x)] + CopyOps(o, n - x)
  {
    if o < 2048 && n < 12 && n >= 4 {
      HoldsAtSlice(src, s, Copy1Element(n, o % 0x100, (o / 0x100) % 0x100));
      ReadCopy1(src, count, s, o, n);
    } else {
      var x := if n <= 64 then n else 64;
      HoldsAtSlice(src, s, Copy2Element(x, o % 0x100, (o / 0x100) % 0x100));
      ReadCopy2(src, count, s, o, x);
    }
  }

  /** The elements from s to sEnd read back, one after the other, as the
      back references of a copy of n bytes at distance o. */
  ghost predicate ReadsCopy(src: seq<byte>, count: int, s: nat, o: nat, n: nat, sEnd: nat)
    decreases n
  {
    if n == 0 then sEnd == s
    else
      && s < count <= |src|
      && if o < 2048 && n < 12 && n >= 4 then ReadElement(src, count, s) == Some((Repeat(o, n), sEnd))
         else
           var x := if n <= 64 then n else 64;
           ReadElement(src, count, s) == Some((Repeat(o, x), s + 3)) && ReadsCopy(src, count, s + 3, o, n - x, sEnd)
  }

  /** inverse reads the elements emitCopy wrote for a copy back as that
      copy's back references. */
  lemma {:induction false} ChunksRead(src: seq<byte>, count: int, s: nat, o: nat, n: nat, sEnd: nat)
    requires o < MAX_OFFSET
    requires ChunksAt(src, s, o, n) && sEnd == s + |CopyChunks(o, n)| && sEnd <= count <= |src|
    ensures ReadsCopy(src, count, s, o, n, sEnd)
    decreases n
  {
    if n > 0 {
      ChunkFirst(src, count, s, o, n, sEnd);
      if !(o < 2048 && n < 12 && n >= 4) {
        var x := if n <= 64 then n else 64;
        ChunksRead(src, count, s + 3, o, n - x, sEnd);
      }
    }
  }

  /** One element read, the others follow it. */
  lemma ReadAllStep(src: seq<byte>, count: int, s: nat, op: Op, s1: nat, tail: seq<Op>)
    requires s < count <= |src|
    requires ReadElement(src, count, s) == Some((op, s1)) && ReadAll(src, count, s1) == Some(tail)
    ensures ReadAll(src, count, s) == Some([op] + tail)
  {
  }

  /** A copy's elements read back as CopyOps. */
  lemma {:induction false} ReadChunks(src: seq<byte>, count: int, s: nat, o: nat, n: nat, sEnd: nat, tail: seq<Op>)
    requires count <= |src| && ReadsCopy(src, count, s, o, n, sEnd)
    requires ReadAll(src, count, sEnd) == Some(tail)
    ensures ReadAll(src, count, s) == Some(CopyOps(o, n) + tail)
    decreases n, 2
  {
    if n == 0 {
      assert CopyOps(o, n) + tail == tail;
    } else if o < 2048 && n < 12 && n >= 4 {
      ReadAllStep(src, count, s, Repeat(o, n), sEnd, tail);
    } else {
      var x := if n <= 64 then n else 64;
      ReadChunksLong(src, count, s, o, n, x, n - x, sEnd, tail);
    }
  }

  /** ReadChunks for a copy whose first element is a tag-10 element of x
      bytes, followed by the elements for the other m. */
  lemma {:induction false} ReadChunksLong(src: seq<byte>, count: int, s: nat, o: nat, n: nat, x: nat, m: nat, sEnd: nat, tail: seq<Op>)
    requires n > 0 && !(o < 2048 && n < 12 && n >= 4) && x == (if n <= 64 then n else 64) && m == n - x
    requires count <= |src| && ReadsCopy(src, count, s, o, n, sEnd)
    requires ReadAll(src, count, sEnd) == Some(tail)
    ensures ReadAll(src, count, s) == Some(CopyOps(o, n) + tail)
    decreases n, 1
  {
    ReadsCopyLong(src, count, s, o, n, x, m, sEnd);
    ReadChunksNext(src, count, s, o, n, x, m, sEnd, tail);
    CopyOpsLong(o, n, x, m, tail);
  }

  /** The first element of a long copy's elements, and the others. */
  lemma ReadsCopyLong(src: seq<byte>, count: int, s: nat, o: nat, n: nat, x: nat, m: nat, sEnd: nat)
    requires n > 0 && !(o < 2048 && n < 12 && n >= 4) && x == (if n <= 64 then n else 64) && m == n - x
    requires ReadsCopy(src, count, s, o, n, sEnd)
    ensures s < count <= |src| && ReadElement(src, count, s) == Some((Repeat(o, x), s + 3))
    ensures ReadsCopy(src, count, s + 3, o, m, sEnd)
  {
  }

  lemma {:induction false} ReadChunksNext(src: seq<byte>, count: int, s: nat, o: nat, n: nat, x: nat, m: nat, sEnd: nat, tail: seq<Op>)
    requires m < n
    requires s < count <= |src| && ReadElement(src, count, s) == Some((Repeat(o, x), s + 3))
    requires ReadsCopy(src, count, s + 3, o, m, sEnd)
    requires ReadAll(src, count, sEnd) == Some(tail)
    ensures ReadAll(src, count, s) == Some([Repeat(o, x)] + (CopyOps(o, m) + tail))
    decreases n, 0
  {
    ReadChunks(src, count, s + 3, o, m, sEnd, tail);
    ReadAllStep(src, count, s, Repeat(o, x), s + 3, CopyOps(o, m) + tail);
  }

  /** The operations of a long copy: the first chunk's, then the rest's. */
  lemma CopyOpsLong(o: nat, n: nat, x: nat, m: nat, tail: seq<Op>)
    requires n > 0 && !(o < 2048 && n < 12 && n >= 4) && x == (if n <= 64 then n else 64) && m == n - x
    ensures CopyOps(o, n) + tail == [Repeat(o, x)] + (CopyOps(o, m) + tail)
  {
  }

  /** A back reference of no bytes changes nothing. */
  lemma RunCopyNone(dst: seq<byte>, d: nat, o: nat)
    requires o <= d <= |dst|
    ensures RunCopy(dst, d, o, 0) == dst
  {
  }

  /** The back reference writes only [d, d + n). */
  lemma RunCopyFrame(dst: seq<byte>, d: nat, o: nat, n: nat)
    requires o <= d && d + n <= |dst|
    ensures RunCopy(dst, d, o, n)[..d] == dst[..d]
    ensures RunCopy(dst, d, o, n)[d + n..] == dst[d + n..]
  {
  }

  /** Each byte the back reference writes equals the byte o positions
      before it, in the result. */
  lemma RunCopyRepeats(dst: seq<byte>, d: nat, o: nat, n: nat)
    requires o <= d && d + n <= |dst|
    ensures forall k :: d <= k < d + n ==> RunCopy(dst, d, o, n)[k] == RunCopy(dst, d, o, n)[k - o]
  {
    var r := RunCopy(dst, d, o, n);
    forall k | d <= k < d + n
      ensures r[k] == r[k - o]
    {
      if o > 0 && k - o >= d {
        assert r[k - o] == dst[Back(d, o, k - o)];
      }
    }
  }

  /** One more turn of the loop writes one more byte of the back reference. */
  lemma RunCopyExtend(dst: seq<byte>, d: nat, o: nat, i: nat)
    requires o <= d && d + i < |dst|
    ensures var r := RunCopy(dst, d, o, i); r[d + i := r[d + i - o]] == RunCopy(dst, d, o, i + 1)
  {
    var r := RunCopy(dst, d, o, i);
    var r1 := RunCopy(dst, d, o, i + 1);
    RunCopyRepeats(dst, d, o, i + 1);
    assert r1[d + i] == r1[d + i - o] == r[d + i - o];
    forall k | 0 <= k < |dst| && k != d + i
      ensures r[k] == r1[k]
    {
    }
    assert r[d + i := r[d + i - o]] == r1;
  }

  /** The byte the back reference leaves at k. */
  lemma RunCopyAt(dst: seq<byte>, d: nat, o: nat, n: nat, k: nat)
    requires o <= d && d + n <= |dst| && k < |dst|
    ensures RunCopy(dst, d, o, n)[k] == if d <= k < d + n && o > 0 then dst[Back(d, o, k)] else dst[k]
  {
  }

  /** A byte of the second back reference in RunCopyCompose, read from the
      first one's output, is the byte the single back reference writes. */
  lemma RunCopyComposeAt(dst: seq<byte>, d: nat, o: nat, a: nat, b: nat, k: nat)
    requires 1 <= o <= d && d + a + b <= |dst| && d + a <= k < d + a + b
    ensures RunCopy(RunCopy(dst, d, o, a), d + a, o, b)[k] == RunCopy(dst, d, o, a + b)[k]
  {
    var j := Back(d + a, o, k);
    RunCopyAt(RunCopy(dst, d, o, a), d + a, o, b, k);
    RunCopyAt(dst, d, o, a + b, k);
    RunCopyAt(dst, d, o, a, j);
    BackCompose(d, o, a, k);
  }

  /** Copying a + b bytes is copying a bytes, then b more. */
  lemma RunCopyCompose(dst: seq<byte>, d: nat, o: nat, a: nat, b: nat, c: nat)
    requires o <= d && c == a + b && d + c <= |dst|
    ensures RunCopy(RunCopy(dst, d, o, a), d + a, o, b) == RunCopy(dst, d, o, c)
  {
    var r1 := RunCopy(dst, d, o, a);
    var lhs := RunCopy(r1, d + a, o, b);
    var rhs := RunCopy(dst, d, o, c);
    forall k | 0 <= k < |dst|
      ensures lhs[k] == rhs[k]
    {
      if d + a <= k < d + a + b && o > 0 {
        RunCopyComposeAt(dst, d, o, a, b, k);
      }
    }
    assert lhs == rhs;
  }

  /** A back reference run in the array, where the bytes `out` sit just
      before d, leaves there what CopyOut makes of `out`. */
  lemma RunCopyHistory(dst: seq<byte>, d: nat, out: seq<byte>, o: nat, n: nat)
    requires |out| <= d && d + n <= |dst| && dst[d - |out|..d] == out
    requires 1 <= o <= |out|
    ensures RunCopy(dst, d, o, n)[d - |out|..d + n] == CopyOut(out, o, n)
  {
    var t := d - |out|;
    var x := RunCopy(dst, d, o, n)[t..d + n];
    var c := CopyOut(out, o, n);
    forall k | 0 <= k < |x|
      ensures x[k] == c[k]
    {
      RunCopyAt(dst, d, o, n, t + k);
      if k < |out| {
        assert c[k] == c[..|out|][k];
      } else {
        BackShift(|out|, o, k, t);
        assert c[k] == out[Back(|out|, o, k)];
      }
    }
  }

  /** src holds at s, item by item, the bytes forward writes for the items,
      and each item is one forward emits. */
  ghost predicate ItemsAt(src: seq<byte>, s: nat, items: seq<Item>)
    decreases |items|
  {
    if items == [] then true
    else
      match items[0]
      case Literal(b) =>
        1 <= |b| <= MAX_INT && HoldsAt(src, s, LiteralElement(b)) && ItemsAt(src, s + |LiteralElement(b)|, items[1..])
      case Copy(o, n) =>
        1 <= o < MAX_OFFSET && n >= 4 && ChunksAt(src, s, o, n) && ItemsAt(src, s + |CopyChunks(o, n)|, items[1..])
  }

  lemma {:induction false} ItemsAtOf(src: seq<byte>, s: nat, items: seq<Item>)
    requires WellFormed(items) && HoldsAt(src, s, EncodeItems(items))
    ensures ItemsAt(src, s, items)
    decreases |items|, 1
  {
    if items != [] {
      var rest := items[1..];
      EncodeTail(items);
      match items[0]
      case Literal(b) =>
        ItemsAtOfLiteral(src, s, items, b, rest);
      case Copy(o, n) =>
        ItemsAtOfCopy(src, s, items, o, n, rest);
    }
  }

  lemma {:induction false} ItemsAtOfLiteral(src: seq<byte>, s: nat, items: seq<Item>, b: seq<byte>, rest: seq<Item>)
    requires items != [] && items[0] == Literal(b) && rest == items[1..] && 1 <= |b| <= MAX_INT && WellFormed(rest)
    requires HoldsAt(src, s, LiteralElement(b) + EncodeItems(rest))
    ensures ItemsAt(src, s, items)
    decreases |items|, 0
  {
    HoldsAtSplit(src, s, LiteralElement(b), EncodeItems(rest));
    ItemsAtOf(src, s + |LiteralElement(b)|, rest);
    ItemsAtLiteralCons(src, s, items, b, rest);
  }

  lemma {:induction false} ItemsAtOfCopy(src: seq<byte>, s: nat, items: seq<Item>, o: nat, n: nat, rest: seq<Item>)
    requires items != [] && items[0] == Copy(o, n) && rest == items[1..] && 1 <= o < MAX_OFFSET && n >= 4 && WellFormed(rest)
    requires HoldsAt(src, s, CopyChunks(o, n) + EncodeItems(rest))
    ensures ItemsAt(src, s, items)
    decreases |items|, 0
  {
    HoldsAtSplit(src, s, CopyChunks(o, n), EncodeItems(rest));
    ChunksAtOf(src, s, o, n);
    ItemsAtOf(src, s + |CopyChunks(o, n)|, rest);
    ItemsAtCopyCons(src, s, items, o, n, rest);
  }

  lemma ItemsAtLiteralCons(src: seq<byte>, s: nat, items: seq<Item>, b: seq<byte>, rest: seq<Item>)
    requires items != [] && items[0] == Literal(b) && rest == items[1..] && 1 <= |b| <= MAX_INT
    requires HoldsAt(src, s, LiteralElement(b)) && ItemsAt(src, s + |LiteralElement(b)|, rest)
    ensures ItemsAt(src, s, items)
  {
  }

  lemma ItemsAtCopyCons(src: seq<byte>, s: nat, items: seq<Item>, o: nat, n: nat, rest: seq<Item>)
    requires items != [] && items[0] == Copy(o, n) && rest == items[1..] && 1 <= o < MAX_OFFSET && n >= 4
    requires ChunksAt(src, s, o, n) && ItemsAt(src, s + |CopyChunks(o, n)|, rest)
    ensures ItemsAt(src, s, items)
  {
  }

  /** The operations the elements forward writes for the items stand for. */
  function OpsOf(items: seq<Item>): seq<Op>
    decreases |items|
  {
    if items == [] then []
    else
      match items[0]
      case Literal(b) => [Put(b)] + OpsOf(items[1..])
      case Copy(o, n) => CopyOps(o, n) + OpsOf(items[1..])
  }

  /** The elements from s to count read back, one after the other, as the
      operations of the items. */
  ghost predicate ReadsItems(src: seq<byte>, count: int, s: nat, items: seq<Item>)
    decreases |items|
  {
    if items == [] then s == count
    else
      match items[0]
      case Literal(b) =>
        && 1 <= |b| <= MAX_INT && s < count <= |src|
        && ReadElement(src, count, s) == Some((Put(b), s + |LiteralElement(b)|))
        && ReadsItems(src, count, s + |LiteralElement(b)|, items[1..])
      case Copy(o, n) =>
        && ReadsCopy(src, count, s, o, n, s + |CopyChunks(o, n)|)
        && ReadsItems(src, count, s + |CopyChunks(o, n)|, items[1..])
  }

  /** inverse reads the bytes forward writes for the items back, element by
      element, as the items' operations. */
  lemma {:induction false} ItemsRead(src: seq<byte>, count: int, s: nat, items: seq<Item>)
    requires WellFormed(items) && ItemsAt(src, s, items)
    requires count == s + |EncodeItems(items)| && count <= |src|
    ensures ReadsItems(src, count, s, items)
    decreases |items|, 1
  {
    if items != [] {
      var rest := items[1..];
      match items[0]
      case Literal(b) =>
        ItemsAtLiteral(src, count, s, items, b, rest);
        ItemsReadLiteral(src, count, s, items, b, rest);
      case Copy(o, n) =>
        ItemsAtCopy(src, count, s, items, o, n, rest);
        ItemsReadCopy(src, count, s, items, o, n, rest);
    }
  }

  /** A list that starts with a literal b, as src holds it. */
  lemma ItemsAtLiteral(src: seq<byte>, count: int, s: nat, items: seq<Item>, b: seq<byte>, rest: seq<Item>)
    requires WellFormed(items) && ItemsAt(src, s, items) && items != [] && items[0] == Literal(b) && rest == items[1..]
    requires count == s + |EncodeItems(items)| && count <= |src|
    ensures 1 <= |b| <= MAX_INT && WellFormed(rest)
    ensures HoldsAt(src, s, LiteralElement(b))
    ensures ItemsAt(src, s + |LiteralElement(b)|, rest) && count == s + |LiteralElement(b)| + |EncodeItems(rest)|
  {
    EncodeTail(items);
  }

  /** A list that starts with a copy of n bytes from o back, as src holds it. */
  lemma ItemsAtCopy(src: seq<byte>, count: int, s: nat, items: seq<Item>, o: nat, n: nat, rest: seq<Item>)
    requires WellFormed(items) && ItemsAt(src, s, items) && items != [] && items[0] == Copy(o, n) && rest == items[1..]
    requires count == s + |EncodeItems(items)| && count <= |src|
    ensures 1 <= o < MAX_OFFSET && n >= 4 && WellFormed(rest)
    ensures ChunksAt(src, s, o, n) && s + |CopyChunks(o, n)| <= count
    ensures ItemsAt(src, s + |CopyChunks(o, n)|, rest) && count == s + |CopyChunks(o, n)| + |EncodeItems(rest)|
  {
    EncodeTail(items);
  }

  /** ItemsRead for a list that starts with a literal b. */
  lemma {:induction false} ItemsReadLiteral(src: seq<byte>, count: int, s: nat, items: seq<Item>, b: seq<byte>, rest: seq<Item>)
    requires items != [] && items[0] == Literal(b) && rest == items[1..]
    requires 1 <= |b| <= MAX_INT && WellFormed(rest) && count <= |src|
    requires HoldsAt(src, s, LiteralElement(b))
    requires ItemsAt(src, s + |LiteralElement(b)|, rest) && count == s + |LiteralElement(b)| + |EncodeItems(rest)|
    ensures ReadsItems(src, count, s, items)
    decreases |items|, 0
  {
    var s1 := s + |LiteralElement(b)|;
    HoldsAtSlice(src, s, LiteralElement(b));
    ReadLiteralElement(src, count, s, b);
    ItemsRead(src, count, s1, rest);
    ReadsItemsLiteral(src, count, s, items, b, rest, s1);
  }

  /** ItemsRead for a list that starts with a copy of n bytes from o back. */
  lemma {:induction false} ItemsReadCopy(src: seq<byte>, count: int, s: nat, items: seq<Item>, o: nat, n: nat, rest: seq<Item>)
    requires items != [] && items[0] == Copy(o, n) && rest == items[1..]
    requires 1 <= o < MAX_OFFSET && n >= 4 && WellFormed(rest) && count <= |src|
    requires ChunksAt(src, s, o, n) && s + |CopyChunks(o, n)| <= count
    requires ItemsAt(src, s + |CopyChunks(o, n)|, rest) && count == s + |CopyChunks(o, n)| + |EncodeItems(rest)|
    ensures ReadsItems(src, count, s, items)
    decreases |items|, 0
  {
    var s1 := s + |CopyChunks(o, n)|;
    ChunksRead(src, count, s, o, n, s1);
    ItemsRead(src, count, s1, rest);
    ReadsItemsCopy(src, count, s, items, o, n);
  }

  lemma ReadsItemsLiteral(src: seq<byte>, count: int, s: nat, items: seq<Item>, b: seq<byte>, rest: seq<Item>, s1: nat)
    requires items != [] && items[0] == Literal(b) && rest == items[1..]
    requires 1 <= |b| <= MAX_INT && s1 == s + |LiteralElement(b)| && s < count <= |src|
    requires ReadElement(src, count, s) == Some((Put(b), s1)) && ReadsItems(src, count, s1, rest)
    ensures ReadsItems(src, count, s, items)
  {
  }

  lemma ReadsItemsCopy(src: seq<byte>, count: int, s: nat, items: seq<Item>, o: nat, n: nat)
    requires items != [] && items[0] == Copy(o, n)
    requires ReadsCopy(src, count, s, o, n, s + |CopyChunks(o, n)|)
    requires ReadsItems(src, count, s + |CopyChunks(o, n)|, items[1..])
    ensures ReadsItems(src, count, s, items)
  {
  }

  /** Elements that read back as the items' operations, read together. */
  lemma {:induction false} ReadItems(src: seq<byte>, count: int, s: nat, items: seq<Item>)
    requires count <= |src| && ReadsItems(src, count, s, items)
    ensures ReadAll(src, count, s) == Some(OpsOf(items))
    decreases |items|, 1
  {
    if items != [] {
      var rest := items[1..];
      match items[0]
      case Literal(b) =>
        var s1 := s + |LiteralElement(b)|;
        ReadsItemsFirstLiteral(src, count, s, items, b, rest, s1);
        ReadItemsLiteral(src, count, s, items, b, rest, s1);
      case Copy(o, n) =>
        var s1 := s + |CopyChunks(o, n)|;
        ReadsItemsFirstCopy(src, count, s, items, o, n, rest, s1);
        ReadItemsCopy(src, count, s, items, o, n, rest, s1);
    }
  }

  lemma ReadsItemsFirstLiteral(src: seq<byte>, count: int, s: nat, items: seq<Item>, b: seq<byte>, rest: seq<Item>, s1: nat)
    requires ReadsItems(src, count, s, items) && items != [] && items[0] == Literal(b) && rest == items[1..]
    requires 1 <= |b| <= MAX_INT ==> s1 == s + |LiteralElement(b)|
    ensures 1 <= |b| <= MAX_INT && s1 == s + |LiteralElement(b)| && s < count <= |src|
    ensures ReadElement(src, count, s) == Some((Put(b), s1)) && ReadsItems(src, count, s1, rest)
    ensures OpsOf(items) == [Put(b)] + OpsOf(rest)
  {
  }

  lemma ReadsItemsFirstCopy(src: seq<byte>, count: int, s: nat, items: seq<Item>, o: nat, n: nat, rest: seq<Item>, s1: nat)
    requires ReadsItems(src, count, s, items) && items != [] && items[0] == Copy(o, n) && rest == items[1..]
    requires s1 == s + |CopyChunks(o, n)|
    ensures ReadsCopy(src, count, s, o, n, s1) && ReadsItems(src, count, s1, rest)
    ensures OpsOf(items) == CopyOps(o, n) + OpsOf(rest)
  {
  }

  lemma {:induction false} ReadItemsLiteral(src: seq<byte>, count: int, s: nat, items: seq<Item>, b: seq<byte>, rest: seq<Item>, s1: nat)
    requires items != [] && rest == items[1..] && OpsOf(items) == [Put(b)] + OpsOf(rest)
    requires s < count <= |src| && ReadElement(src, count, s) == Some((Put(b), s1)) && ReadsItems(src, count, s1, rest)
    ensures ReadAll(src, count, s) == Some(OpsOf(items))
    decreases |items|, 0
  {
    ReadItems(src, count, s1, rest);
    ReadAllStep(src, count, s, Put(b), s1, OpsOf(rest));
  }

  lemma {:induction false} ReadItemsCopy(src: seq<byte>, count: int, s: nat, items: seq<Item>, o: nat, n: nat, rest: seq<Item>, s1: nat)
    requires items != [] && rest == items[1..] && OpsOf(items) == CopyOps(o, n) + OpsOf(rest)
    requires count <= |src| && ReadsCopy(src, count, s, o, n, s1) && ReadsItems(src, count, s1, rest)
    ensures ReadAll(src, count, s) == Some(OpsOf(items))
    decreases |items|, 0
  {
    ReadItems(src, count, s1, rest);
    ReadChunks(src, count, s, o, n, s1, OpsOf(rest));
  }

  /** Carrying out a + b is carrying out a, then b. */
  lemma {:induction false} ApplyAppend(a: seq<Op>, b: seq<Op>, dst: seq<byte>, d: nat, dst1: seq<byte>, d1: nat)
    requires d <= |dst| && ApplyAll(a, dst, d) == Some((dst1, d1))
    ensures d1 <= |dst1| && ApplyAll(a + b, dst, d) == ApplyAll(b, dst1, d1)
    decreases |a|
  {
    if a == [] {
      assert a + b == b;
    } else {
      assert (a + b)[0] == a[0] && (a + b)[1..] == a[1..] + b;
      var (dst2, d2) := ApplyOp(dst, d, a[0]).value;
      ApplyAppend(a[1..], b, dst2, d2, dst1, d1);
    }
  }

  /** The back references of a copy's elements together copy its n bytes. */
  lemma {:induction false} ApplyChunks(o: nat, n: nat, dst: seq<byte>, d: nat)
    requires 1 <= o <= d && d + n <= |dst|
    ensures ApplyAll(CopyOps(o, n), dst, d) == Some((RunCopy(dst, d, o, n), d + n))
    decreases n
  {
    if n == 0 {
      RunCopyNone(dst, d, o);
    } else if !(o < 2048 && n < 12 && n >= 4) {
      var x := if n <= 64 then n else 64;
      ApplyChunks(o, n - x, RunCopy(dst, d, o, x), d + x);
      RunCopyCompose(dst, d, o, x, n - x, n);
    }
  }

  /** Carrying out the items' operations, with the bytes `out` already in
      the array just before d, writes at d the bytes Expand adds to `out`,
      ends at e, and changes nothing else. */
  lemma {:induction false} ApplyItems(dst: seq<byte>, d: nat, out: seq<byte>, items: seq<Item>, full: seq<byte>, e: nat)
    requires Expand(out, items) == Some(full)
    requires e == d + Length(items) && e <= |dst| && |out| <= d && dst[d - |out|..d] == out
    ensures |full| == |out| + Length(items)
    ensures ApplyAll(OpsOf(items), dst, d) == Some((dst[..d] + full[|out|..] + dst[e..], e))
    decreases |items|, 1
  {
    if items == [] {
      assert dst[..d] + full[|out|..] + dst[d..] == dst;
    } else {
      var rest := items[1..];
      ExpandTail(out, items, full);
      match items[0]
      case Literal(b) =>
        ApplyLiteral(dst, d, out, b, rest, full, e);
      case Copy(o, n) =>
        ApplyCopy(dst, d, out, o, n, rest, full, e);
    }
  }

  /** ApplyItems for a list that starts with a literal b. */
  lemma {:induction false} ApplyLiteral(dst: seq<byte>, d: nat, out: seq<byte>, b: seq<byte>, rest: seq<Item>, full: seq<byte>, e: nat)
    requires Expand(out + b, rest) == Some(full)
    requires e == d + |b| + Length(rest) && e <= |dst| && |out| <= d && dst[d - |out|..d] == out
    ensures |full| == |out| + |b| + Length(rest)
    ensures ApplyAll([Put(b)] + OpsOf(rest), dst, d) == Some((dst[..d] + full[|out|..] + dst[e..], e))
    decreases |rest| + 1, 0
  {
    var dst1 := dst[..d] + b + dst[d + |b|..];
    LiteralWindow(dst, d, out, b);
    ApplyItems(dst1, d + |b|, out + b, rest, full, e);
    ExpandLength(out + b, rest);
    PrefixTail(full, out, b);
    Splice(dst, dst1, d, |b|, e, full, |out|, |out + b|);
    ApplyPut(dst, d, b);
    ApplyAppend([Put(b)], OpsOf(rest), dst, d, dst1, d + |b|);
  }

  /** A literal's operation writes its bytes at d. */
  lemma ApplyPut(dst: seq<byte>, d: nat, b: seq<byte>)
    requires d + |b| <= |dst|
    ensures ApplyAll([Put(b)], dst, d) == Some((dst[..d] + b + dst[d + |b|..], d + |b|))
  {
    assert [Put(b)][1..] == [];
  }

  /** ApplyItems for a list that starts with a copy of n bytes from o back. */
  lemma {:induction false} ApplyCopy(dst: seq<byte>, d: nat, out: seq<byte>, o: nat, n: nat, rest: seq<Item>, full: seq<byte>, e: nat)
    requires 1 <= o <= |out| && Expand(CopyOut(out, o, n), rest) == Some(full)
    requires e == d + n + Length(rest) && e <= |dst| && |out| <= d && dst[d - |out|..d] == out
    ensures |full| == |out| + n + Length(rest)
    ensures ApplyAll(CopyOps(o, n) + OpsOf(rest), dst, d) == Some((dst[..d] + full[|out|..] + dst[e..], e))
    decreases |rest| + 1, 0
  {
    var dst1 := RunCopy(dst, d, o, n);
    var out1 := CopyOut(out, o, n);
    RunCopyHistory(dst, d, out, o, n);
    RunCopyFrame(dst, d, o, n);
    ApplyItems(dst1, d + n, out1, rest, full, e);
    ExpandLength(out1, rest);
    CopyWindow(dst1, d, out, out1, full, n);
    Splice(dst, dst1, d, n, e, full, |out|, |out1|);
    ApplyChunks(o, n, dst, d);
    ApplyAppend(CopyOps(o, n), OpsOf(rest), dst, d, dst1, d + n);
  }

  /** A whole encoded item list reads back as the items' operations. */
  lemma ReadEncoded(src: seq<byte>, count: int, s: nat, items: seq<Item>)
    requires WellFormed(items) && count == s + |EncodeItems(items)| && count <= |src|
    requires src[s..count] == EncodeItems(items)
    ensures ReadAll(src, count, s) == Some(OpsOf(items))
  {
    HoldsAtSlice(src, s, EncodeItems(items));
    ItemsAtOf(src, s, items);
    ItemsRead(src, count, s, items);
    ReadItems(src, count, s, items);
  }

  /** Carrying out a whole list's operations writes its expansion at d. */
  lemma ApplyExpansion(dst: seq<byte>, d: nat, items: seq<Item>, full: seq<byte>)
    requires Expand([], items) == Some(full) && d + |full| <= |dst|
    ensures ApplyAll(OpsOf(items), dst, d) == Some((dst[..d] + full + dst[d + |full|..], d + |full|))
  {
    ghost var out: seq<byte> := [];
    ExpandLength(out, items);
    ApplyItems(dst, d, out, items, full, d + Length(items));
    assert full[|out|..] == full;
  }

  /** A whole encoded item list, read by the loop, writes its expansion at d
      and nothing else. */
  lemma DecodeAll(src: seq<byte>, count: int, s: nat, dst: seq<byte>, d: nat, items: seq<Item>, full: seq<byte>)
    requires WellFormed(items) && count == s + |EncodeItems(items)| && count <= |src|
    requires src[s..count] == EncodeItems(items)
    requires Expand([], items) == Some(full) && d + |full| <= |dst|
    ensures Run(src, count, s, dst, d) == Some((dst[..d] + full + dst[d + |full|..], d + |full|))
  {
    ReadEncoded(src, count, s, items);
    ApplyExpansion(dst, d, items, full);
    RunSplit(src, count, s, dst, d, OpsOf(items));
  }

  /** Expanding a list is expanding its first item, then the others. */
  lemma ExpandTail(out: seq<byte>, items: seq<Item>, full: seq<byte>)
    requires items != [] && Expand(out, items) == Some(full)
    ensures items[0].Literal? ==> Expand(out + items[0].bytes, items[1..]) == Some(full)
    ensures items[0].Copy? ==>
      1 <= items[0].offset <= |out| && Expand(CopyOut(out, items[0].offset, items[0].len), items[1..]) == Some(full)
  {
  }

  /** The bytes and the length of a list, split after its first item. */
  lemma EncodeTail(items: seq<Item>)
    requires WellFormed(items) && items != []
    ensures WellFormedItem(items[0]) && WellFormed(items[1..])
    ensures |EncodeItems(items)| == |EncodeItem(items[0])| + |EncodeItems(items[1..])|
    ensures Length(items) == ItemLength(items[0]) + Length(items[1..])
  {
    assert WellFormed(items[1..]);
  }

  /** Two pieces side by side in src, each at its place. */
  lemma SliceSplit(src: seq<byte>, s: nat, a: seq<byte>, b: seq<byte>)
    requires s + |a + b| <= |src| && src[s..s + |a + b|] == a + b
    ensures src[s..s + |a|] == a && src[s + |a|..s + |a| + |b|] == b
  {
    assert src[s..s + |a|] == src[s..s + |a + b|][..|a|];
    assert src[s + |a|..s + |a| + |b|] == src[s..s + |a + b|][|a|..];
  }

  /** The bytes after `out` in a sequence that starts with out + b. */
  lemma PrefixTail(full: seq<byte>, out: seq<byte>, b: seq<byte>)
    requires |out| + |b| <= |full| && full[..|out| + |b|] == out + b
    ensures full[|out|..|out| + |b|] == b
  {
    assert full[|out|..|out| + |b|] == full[..|out| + |b|][|out|..];
  }

  /** After a literal b is written at d just past the bytes `out`, the
      window before the new position holds out + b. */
  lemma LiteralWindow(dst: seq<byte>, d: nat, out: seq<byte>, b: seq<byte>)
    requires |out| <= d && d + |b| <= |dst| && dst[d - |out|..d] == out
    ensures (dst[..d] + b + dst[d + |b|..])[d + |b| - |out + b|..d + |b|] == out + b
  {
    var dst1 := dst[..d] + b + dst[d + |b|..];
    assert dst1[d - |out|..d] == dst[d - |out|..d];
    assert dst1[d..d + |b|] == b;
    assert dst1[d - |out|..d + |b|] == dst1[d - |out|..d] + dst1[d..d + |b|];
  }

  /** Putting back the m bytes one item wrote at d, in front of what the
      rest of the items write after them up to e. */
  lemma Splice(dst: seq<byte>, dst1: seq<byte>, d: nat, m: nat, e: nat, full: seq<byte>, p: nat, q: nat)
    requires |dst1| == |dst| && d + m <= e <= |dst| && q == p + m <= |full|
    requires dst1[..d] == dst[..d] && dst1[d + m..] == dst[d + m..]
    requires dst1[d..d + m] == full[p..q]
    ensures dst1[..d + m] + full[q..] + dst1[e..] == dst[..d] + full[p..] + dst[e..]
  {
    assert dst1[..d + m] == dst[..d] + full[p..q];
    assert full[p..] == full[p..q] + full[q..];
    assert dst1[e..] == dst[d + m..][e - d - m..];
  }

  /** The n bytes a copy adds after `out`, as they stand in the array and as
      they begin the rest of the expansion. */
  lemma CopyWindow(dst1: seq<byte>, d: nat, out: seq<byte>, out1: seq<byte>, full: seq<byte>, n: nat)
    requires |out| <= d && d + n <= |dst1| && |out1| == |out| + n && |out1| <= |full|
    requires dst1[d - |out|..d + n] == out1 && full[..|out1|] == out1
    ensures full[|out|..|out1|] == dst1[d..d + n]
  {
    assert dst1[d..d + n] == dst1[d - |out|..d + n][|out|..];
    assert full[|out|..|out1|] == full[..|out1|][|out|..];
  }
}
