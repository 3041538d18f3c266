// A contrast filter for packed 0xRRGGBB pixels: a 256-entry table maps
// each channel value to a scaled, clamped one, and the filter rewrites the
// red, green and blue channels of a window of rows, row by row.
module Contrast {
  import opened Bytes

  /** The largest contrast, in percent, the filter accepts. */
  const MAX_CONTRAST: int := 1000

  /** Why the constructor refuses its arguments, in the order it checks them. */
  datatype Rejection = HeightTooSmall | WidthTooSmall | NegativeOffset | StrideTooSmall | ContrastOutOfRange

  /** The first check the constructor fails, or None when it accepts. */
  function Rejected(width: int, height: int, offset: int, stride: int, contrast: int): (r: Option<Rejection>)
    ensures r.None? <==> 8 <= height && 8 <= width && 0 <= offset && 8 <= stride && 0 <= contrast <= MAX_CONTRAST
    ensures r == Some(HeightTooSmall) <==> height < 8
    ensures r == Some(WidthTooSmall) <==> 8 <= height && width < 8
    ensures r == Some(NegativeOffset) <==> 8 <= height && 8 <= width && offset < 0
    ensures r == Some(StrideTooSmall) <==> 8 <= height && 8 <= width && 0 <= offset && stride < 8
  {
    if height < 8 then Some(HeightTooSmall)
    else if width < 8 then Some(WidthTooSmall)
    else if offset < 0 then Some(NegativeOffset)
    else if stride < 8 then Some(StrideTooSmall)
    else if contrast < 0 || contrast > MAX_CONTRAST then Some(ContrastOutOfRange)
    else None
  }

  /** The squared scale factor initBuffer computes for a contrast in
      percent: (contrast << 8) / 100, squared. It is small enough that
      multiplying it by a channel value stays within a Java int. */
  function Ratio(contrast: int): (r: int)
    requires 0 <= contrast <= MAX_CONTRAST
    ensures 0 <= r <= 2560 * 2560 && r * 255 <= MAX_INT
  {
    var q := contrast * 256 / 100;
    assert 0 <= q <= 2560;
    MulBound(q, q, 2560);
    q * q
  }

  /** Table entry i for a contrast in percent: (ratio * i) >> 16, capped
      at 255 (the lower cap at 0 never applies, the product is never
      negative). */
  function Intensity(contrast: int, i: int): (v: int)
    requires 0 <= contrast <= MAX_CONTRAST && 0 <= i < 256
    ensures 0 <= v <= 255
    ensures v == 255 <==> Ratio(contrast) * i >= 255 * 0x10000
    ensures v < 255 ==> v * 0x10000 <= Ratio(contrast) * i < (v + 1) * 0x10000
  {
    var r := Ratio(contrast);
    MulBound(r, i, 2560 * 2560);
    var val := r * i / 0x10000;
    if val > 255 then 255 else if val < 0 then 0 else val
  }

  /** The whole table for a contrast in percent. */
  function Table(contrast: int): (t: seq<int>)
    requires 0 <= contrast <= MAX_CONTRAST
    ensures Levels(t)
  {
    seq(256, i requires 0 <= i < 256 => Intensity(contrast, i))
  }

  /** A table of 256 channel values, each in [0, 255]. */
  ghost predicate Levels(t: seq<int>)
  {
    |t| == 256 && forall i :: 0 <= i < 256 ==> 0 <= t[i] < 256
  }

  /** At 100 percent the table is the identity. */
  lemma IdentityAtHundred()
    ensures forall i :: 0 <= i < 256 ==> Table(100)[i] == i
  {
    assert Ratio(100) == 0x10000;
    forall i | 0 <= i < 256
      ensures Table(100)[i] == i
    {
      assert Ratio(100) * i == i * 0x10000;
    }
  }

  /** At 0 percent every channel becomes 0. */
  lemma BlackAtZero()
    ensures forall i :: 0 <= i < 256 ==> Table(0)[i] == 0
  {
    assert Ratio(0) == 0;
  }

  /** A brighter channel never maps below a darker one. */
  lemma IntensityMonotone(contrast: int, i: int, j: int)
    requires 0 <= contrast <= MAX_CONTRAST && 0 <= i <= j < 256
    ensures Intensity(contrast, i) <= Intensity(contrast, j)
  {
    MulMonotone(Ratio(contrast), i, j);
  }

  /** A higher contrast never maps a channel lower. */
  lemma ContrastMonotone(c1: int, c2: int, i: int)
    requires 0 <= c1 <= c2 <= MAX_CONTRAST && 0 <= i < 256
    ensures Intensity(c1, i) <= Intensity(c2, i)
  {
    var q1, q2 := c1 * 256 / 100, c2 * 256 / 100;
    assert q1 <= q2;
    MulMonotone(q1, q1, q2);
    MulMonotone(q2, q1, q2);
    assert Ratio(c1) <= Ratio(c2);
    MulMonotone(i, Ratio(c1), Ratio(c2));
  }

  lemma MulBound(a: int, b: int, m: int)
    requires 0 <= a <= m && 0 <= b <= m
    ensures 0 <= a * b <= m * m
  {
    MulMonotone(a, b, m);
    MulMonotone(m, a, m);
  }

  lemma MulSucc(a: int, b: int)
    ensures (a + 1) * b == a * b + b
  {
  }

  lemma MulMonotone(a: int, b: int, c: int)
    requires 0 <= a && b <= c
    ensures a * b <= a * c
  {
  }

  /** Channels of a packed pixel: (p >> 16) & 0xFF, (p >> 8) & 0xFF and
      p & 0xFF. Floor division and a non-negative remainder give the same
      bits as Java's arithmetic shift and mask, negative pixels included. */
  function Red(p: int): int { p / 0x10000 % 0x100 }
  function Green(p: int): int { p / 0x100 % 0x100 }
  function Blue(p: int): int { p % 0x100 }

  /** One pixel through the table t: (t[R] << 16) | (t[G] << 8) | t[B].
      The three fields do not overlap, so the or is a sum. */
  function Pixel(t: seq<int>, p: int): int
    requires |t| == 256
  {
    Pack(t[Red(p)], t[Green(p)], t[Blue(p)])
  }

  /** Three channel values packed as 0xRRGGBB. */
  function Pack(r: int, g: int, b: int): int
  {
    r * 0x10000 + g * 0x100 + b
  }

  /** A packed pixel's channels read back as the values packed, and its top
      byte is 0. */
  lemma PackChannels(r: int, g: int, b: int)
    requires 0 <= r < 256 && 0 <= g < 256 && 0 <= b < 256
    ensures 0 <= Pack(r, g, b) < 0x100_0000
    ensures Red(Pack(r, g, b)) == r && Green(Pack(r, g, b)) == g && Blue(Pack(r, g, b)) == b
  {
    var q := Pack(r, g, b);
    assert q / 0x100 == r * 0x100 + g;
    assert q / 0x10000 == r;
  }

  /** Each channel of a filtered pixel is the table's entry for that channel
      of the original, and the top byte is 0 whatever the original's was. */
  lemma PixelChannels(t: seq<int>, p: int)
    requires Levels(t)
    ensures 0 <= Pixel(t, p) < 0x100_0000
    ensures Red(Pixel(t, p)) == t[Red(p)] && Green(Pixel(t, p)) == t[Green(p)] && Blue(Pixel(t, p)) == t[Blue(p)]
  {
    PackChannels(t[Red(p)], t[Green(p)], t[Blue(p)]);
  }

  class ContrastFilter {
    const width: int
    const height: int
    const stride: int
    const intensities: array<int>
    var offset: int
    var contrast256: int

    /** What the constructor and the setters keep: the checked dimensions,
        and a table that is the one for the current contrast. */
    ghost predicate Valid()
      reads this, intensities
    {
      && 8 <= width && 8 <= height && 8 <= stride && 0 <= offset
      && intensities.Length == 256
      && 0 <= contrast256 <= MAX_CONTRAST * 256 && contrast256 % 256 == 0
      && intensities[..] == Table(contrast256 / 256)
    }

    /** The five-argument constructor, on arguments it accepts. */
    constructor (width: int, height: int, offset: int, stride: int, contrast: int)
      requires Rejected(width, height, offset, stride, contrast).None?
      ensures Valid() && fresh(intensities)
      ensures this.width == width && this.height == height && this.stride == stride
      ensures this.offset == offset && GetContrast() == contrast
    {
      this.width := width;
      this.height := height;
      this.stride := stride;
      this.offset := offset;
      intensities := new int[256];
      contrast256 := contrast * 256;
      new;
      InitBuffer(contrast);
    }

    /** The three-argument constructor: offset 0 and stride equal to the width. */
    constructor Plain(width: int, height: int, contrast: int)
      requires Rejected(width, height, 0, width, contrast).None?
      ensures Valid() && fresh(intensities)
      ensures this.width == width && this.height == height && stride == width
      ensures offset == 0 && GetContrast() == contrast
    {
      this.width := width;
      this.height := height;
      stride := width;
      offset := 0;
      intensities := new int[256];
      contrast256 := contrast * 256;
      new;
      InitBuffer(contrast);
    }

    /** initBuffer: fills the table for a contrast in percent. */
    method InitBuffer(contrast: int)
      requires 0 <= contrast <= MAX_CONTRAST && intensities.Length == 256
      modifies intensities
      ensures intensities[..] == Table(contrast)
    {
      var ratio := contrast * 256 / 100;
      ratio := ratio * ratio;
      for i := 0 to 256
        invariant forall k :: 0 <= k < i ==> intensities[k] == Table(contrast)[k]
      {
        var val := ratio * i / 0x10000;
        if val > 255 {
          val := 255;
        } else if val < 0 {
          val := 0;
        }
        intensities[i] := val;
      }
    }

    /** getContrast: the contrast, in percent, whose table is in use. */
    function GetContrast(): (c: int)
      reads this, intensities
      requires Valid()
      ensures 0 <= c <= MAX_CONTRAST && intensities[..] == Table(c)
    {
      contrast256 / 256
    }

    /** setContrast: refuses a value outside [0, 1000], changing nothing;
        otherwise takes it and rebuilds the table. */
    method SetContrast(contrast: int) returns (ok: bool)
      requires Valid()
      modifies this, intensities
      ensures Valid() && offset == old(offset)
      ensures ok <==> 0 <= contrast <= MAX_CONTRAST
      ensures ok ==> GetContrast() == contrast
      ensures !ok ==> contrast256 == old(contrast256) && intensities[..] == old(intensities[..])
    {
      if contrast < 0 || contrast > MAX_CONTRAST {
        return false;
      }
      contrast256 := contrast * 256;
      InitBuffer(contrast);
      ok := true;
    }

    /** getOffset: where the first row starts. */
    function GetOffset(): (o: int)
      reads this, intensities
      requires Valid()
      ensures 0 <= o
    {
      offset
    }

    /** setOffset: refuses a negative offset, changing nothing; otherwise takes it. */
    method SetOffset(offset: int) returns (ok: bool)
      requires Valid()
      modifies this
      ensures Valid() && contrast256 == old(contrast256)
      ensures ok <==> 0 <= offset
      ensures ok ==> GetOffset() == offset
      ensures !ok ==> this.offset == old(this.offset)
    {
      if offset < 0 {
        return false;
      }
      this.offset := offset;
      ok := true;
    }

    /** x lies in row y of the window over an image of len pixels. */
    ghost predicate InRow(x: int, y: int, len: int)
      reads this
    {
      offset + y * stride <= x < offset + y * stride + width && x < len
    }

    /** x lies in one of the first n rows. */
    ghost predicate CoveredBy(x: int, n: int, len: int)
      reads this
    {
      exists y :: 0 <= y < n && InRow(x, y, len)
    }

    /** The first n + 1 rows are the first n and row n. */
    lemma CoveredStep(x: int, n: nat, len: int)
      ensures CoveredBy(x, n + 1, len) <==> CoveredBy(x, n, len) || InRow(x, n, len)
    {
      if CoveredBy(x, n + 1, len) {
        var y :| 0 <= y < n + 1 && InRow(x, y, len);
        if y < n {
          assert CoveredBy(x, n, len);
        }
      }
      if CoveredBy(x, n, len) {
        var y :| 0 <= y < n && InRow(x, y, len);
        assert 0 <= y < n + 1 && InRow(x, y, len);
      }
      if InRow(x, n, len) {
        assert 0 <= n < n + 1 && InRow(x, n, len);
      }
    }

    /** Once a row starts at or past the end, no later row holds a pixel. */
    lemma CoveredRest(x: int, n: nat, m: int, len: int)
      requires 0 < stride && n <= m && offset + n * stride >= len
      ensures CoveredBy(x, m, len) <==> CoveredBy(x, n, len)
    {
      if CoveredBy(x, m, len) {
        var y :| 0 <= y < m && InRow(x, y, len);
        if y >= n {
          MulMonotone(stride, n, y);
          assert false;
        }
        assert 0 <= y < n && InRow(x, y, len);
      }
      if CoveredBy(x, n, len) {
        var y :| 0 <= y < n && InRow(x, y, len);
        assert 0 <= y < m && InRow(x, y, len);
      }
    }

    /** apply: rewrites, through the table, every pixel of src that lies in
        one of the height rows of width pixels starting at offset, stride
        apart, and before the end of src, into the same place in dst;
        every other entry of dst is left as it was. Returns dst. */
    method Apply(src: array<int>, dst: array<int>) returns (r: array<int>)
      requires Valid() && src != dst && dst != intensities
      requires forall x :: 0 <= x < src.Length && CoveredBy(x, height, src.Length) ==> x < dst.Length
      modifies dst
      ensures r == dst
      ensures forall x :: 0 <= x < dst.Length ==>
        dst[x] == if x < src.Length && CoveredBy(x, height, src.Length)
                  then Filtered(src[x]) else old(dst[x])
    {
      var w := width;
      var h := height;
      var len := src.Length;
      var offs := offset;
      var y := 0;
      while y < h
        invariant 0 <= y <= h && offs == offset + y * stride
        invariant forall z :: 0 <= z < dst.Length ==>
          dst[z] == if z < len && CoveredBy(z, y, len) then Filtered(src[z]) else old(dst[z])
      {
        var endX := if offs + w < len then offs + w else len;
        MulMonotone(stride, 0, y);
        if offs < endX {
          assert InRow(endX - 1, y, len) && CoveredBy(endX - 1, height, len);
        }
        ApplyRow(src, dst, offs, endX);
        forall z | 0 <= z < dst.Length
          ensures dst[z] == if z < len && CoveredBy(z, y + 1, len) then Filtered(src[z]) else old(dst[z])
        {
          CoveredStep(z, y, len);
          assert InRow(z, y, len) <==> offs <= z < endX;
        }
        MulSucc(y, stride);
        offs := offs + stride;
        y := y + 1;
        if offs >= len {
          forall z | 0 <= z < dst.Length
            ensures dst[z] == if z < len && CoveredBy(z, h, len) then Filtered(src[z]) else old(dst[z])
          {
            CoveredRest(z, y, h, len);
          }
          break;
        }
      }
      r := dst;
    }

    /** One row of apply: every pixel of src from offs up to endX, through
        the table, into dst; nothing else changes. */
    method ApplyRow(src: array<int>, dst: array<int>, offs: int, endX: int)
      requires Valid() && src != dst && dst != intensities
      requires 0 <= offs && endX <= src.Length && (offs < endX ==> endX <= dst.Length)
      modifies dst
      ensures forall z :: 0 <= z < dst.Length ==>
        dst[z] == if offs <= z < endX then Filtered(src[z]) else old(dst[z])
    {
      var x := offs;
      while x < endX
        invariant offs <= x && (x <= endX || x == offs)
        invariant forall z :: offs <= z < x ==> dst[z] == Filtered(src[z])
        invariant forall z :: 0 <= z < dst.Length && !(offs <= z < x) ==> dst[z] == old(dst[z])
      {
        var q := FilterPixel(src[x]);
        dst[x] := q;
        x := x + 1;
      }
    }

    /** A pixel through the current table. */
    ghost function Filtered(p: int): int
      reads this, intensities
      requires Valid()
    {
      Pixel(intensities[..], p)
    }

    /** One pixel of apply: each of its three channels through the table. */
    method FilterPixel(pixel: int) returns (q: int)
      requires Valid()
      ensures q == Filtered(pixel)
    {
      var r := intensities[Red(pixel)];
      var g := intensities[Green(pixel)];
      var b := intensities[Blue(pixel)];
      q := Pack(r, g, b);
    }
  }

  /** The constructor with its checks: null, and the check that failed,
      where the source throws IllegalArgumentException. */
  method Create(width: int, height: int, offset: int, stride: int, contrast: int)
    returns (f: ContrastFilter?, error: Option<Rejection>)
    ensures error == Rejected(width, height, offset, stride, contrast)
    ensures f == null <==> error.Some?
    ensures f != null ==> fresh(f) && f.Valid() && f.GetContrast() == contrast && f.GetOffset() == offset
    ensures f != null ==> f.width == width && f.height == height && f.stride == stride
  {
    error := Rejected(width, height, offset, stride, contrast);
    if error.Some? {
      return null, error;
    }
    f := new ContrastFilter(width, height, offset, stride, contrast);
  }
}
