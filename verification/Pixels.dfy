/** Pixels in a byte buffer (desktop-metal/src/fb.rs:200-234). */
module Pixels {
  import opened MachineWords

  type color = x: int | 0 <= x < 0x1_0000_0000

  /** Size, bits per pixel and bytes per row, as the kernel reports them for 24- and 32-bit screens. */
  datatype Screen = Screen(width: nat, height: nat, bpp: nat, stride: nat) {
    predicate Valid() {
      (bpp == 24 || bpp == 32) && width * Step() <= stride
    }

    /** Bytes per pixel. */
    function Step(): nat {
      bpp / 8
    }

    predicate Visible(x: int, y: int) {
      0 <= x < width && 0 <= y < height
    }

    function Offset(x: nat, y: nat): nat {
      y * stride + x * Step()
    }
  }

  /** Red, green and blue of a stored colour. */
  function Rgb(c: color): (r: color)
    ensures r < 0x100_0000
  {
    c % 0x100_0000
  }

  /** A pixel lies inside its row, and its row inside the buffer. */
  lemma PixelInRow(s: Screen, x: nat, y: nat)
    requires s.Valid() && s.Visible(x, y)
    ensures y * s.stride <= s.Offset(x, y) && s.Offset(x, y) + s.Step() <= (y + 1) * s.stride <= s.height * s.stride
  {
    ProductMonotone(x + 1, s.width, s.Step());
    ProductMonotone(y + 1, s.height, s.stride);
  }

  /** Different pixels do not share a byte. */
  lemma PixelsApart(s: Screen, x: nat, y: nat, x': nat, y': nat)
    requires s.Valid() && s.Visible(x, y) && s.Visible(x', y') && (x, y) != (x', y')
    ensures s.Offset(x, y) + s.Step() <= s.Offset(x', y') || s.Offset(x', y') + s.Step() <= s.Offset(x, y)
  {
    hide Screen.Offset, Screen.Step;
    if y < y' {
      RowsApart(s, x, y, x', y');
    } else if y' < y {
      RowsApart(s, x', y', x, y);
    } else if x < x' {
      ColumnsApart(s, x, x', y);
    } else {
      ColumnsApart(s, x', x, y);
    }
  }

  lemma RowsApart(s: Screen, x: nat, y: nat, x': nat, y': nat)
    requires s.Valid() && s.Visible(x, y) && s.Visible(x', y') && y < y'
    ensures s.Offset(x, y) + s.Step() <= s.Offset(x', y')
  {
    hide Screen.Offset, Screen.Step;
    PixelInRow(s, x, y);
    PixelInRow(s, x', y');
    ProductMonotone(y + 1, y', s.stride);
  }

  lemma ColumnsApart(s: Screen, x: nat, x': nat, y: nat)
    requires x < x'
    ensures s.Offset(x, y) + s.Step() <= s.Offset(x', y)
  {
    hide Screen.Step;
    Distributes(x, 1, s.Step());
    ProductMonotone(x + 1, x', s.Step());
  }

  predicate Holds(s: Screen, b: seq<byte>) {
    s.Valid() && |b| == s.height * s.stride
  }

  /** Blue, green and red stand one behind the other. */
  function Read(b: seq<byte>, off: nat): color
    requires off + 3 <= |b|
  {
    b[off + 2] as int * 0x1_0000 + b[off + 1] as int * 0x100 + b[off] as int
  }

  function Get(s: Screen, b: seq<byte>, x: nat, y: nat): color
    requires Holds(s, b)
  {
    if s.Visible(x, y) then
      PixelInRow(s, x, y);
      Read(b, s.Offset(x, y))
    else 0
  }

  /** The bytes of a pixel: a 32-bit pixel ends in 0xFF. */
  function Write(s: Screen, b: seq<byte>, off: nat, c: color): (r: seq<byte>)
    requires s.Valid() && off + s.Step() <= |b|
    ensures |r| == |b|
    ensures forall k :: 0 <= k < |b| && !(off <= k < off + s.Step()) ==> r[k] == b[k]
  {
    var p := b[off := c % 0x100][off + 1 := c / 0x100 % 0x100][off + 2 := c / 0x1_0000 % 0x100];
    if s.bpp == 32 then p[off + 3 := 0xFF] else p
  }

  function Set(s: Screen, b: seq<byte>, x: nat, y: nat, c: color): (r: seq<byte>)
    requires Holds(s, b)
    ensures |r| == |b|
  {
    if s.Visible(x, y) then
      PixelInRow(s, x, y);
      Write(s, b, s.Offset(x, y), c)
    else b
  }

  lemma WriteReads(s: Screen, b: seq<byte>, off: nat, c: color)
    requires s.Valid() && off + s.Step() <= |b|
    ensures Read(Write(s, b, off, c), off) == Rgb(c)
  {
    var r := Write(s, b, off, c);
    assert r[off] == c % 0x100 && r[off + 1] == c / 0x100 % 0x100 && r[off + 2] == c / 0x1_0000 % 0x100;
    LowBytes(c);
  }

  /** A colour 0xttRRGGBB is stored as BB GG RR, and on a 32-bit screen FF after it; it is read back as 0x00RRGGBB. */
  lemma BlueComesFirst(s: Screen, b: seq<byte>, off: nat, top: byte, red: byte, green: byte, blue: byte)
    requires s.Valid() && off + s.Step() <= |b|
    ensures var r := Write(s, b, off, top * 0x100_0000 + red * 0x1_0000 + green * 0x100 + blue);
      && r[off..off + s.Step()] == [blue, green, red] + (if s.bpp == 32 then [0xFF] else [])
      && Read(r, off) == red * 0x1_0000 + green * 0x100 + blue
  {
    BytesOfColor(top, red, green, blue);
  }

  lemma BytesOfColor(top: byte, red: byte, green: byte, blue: byte)
    ensures var c := top * 0x100_0000 + red * 0x1_0000 + green * 0x100 + blue;
      c % 0x100 == blue && c / 0x100 % 0x100 == green && c / 0x1_0000 % 0x100 == red
  {
    var high, middle: nat := top * 0x100 + red, top * 0x1_0000 + red * 0x100 + green;
    var c := middle * 0x100 + blue;
    RemainderUnique(c, 0x100, middle, blue);
    RemainderUnique(middle, 0x100, high, green);
    RemainderUnique(high, 0x100, top, red);
    RemainderUnique(c, 0x1_0000, high, green * 0x100 + blue);
  }

  /** The three low bytes of a colour make up its RGB. */
  lemma LowBytes(c: color)
    ensures Rgb(c) == c / 0x1_0000 % 0x100 * 0x1_0000 + c / 0x100 % 0x100 * 0x100 + c % 0x100
  {
    var high, low := c / 0x1_0000, c % 0x1_0000;
    assert c == high * 0x1_0000 + low;
    assert high == high / 0x100 * 0x100 + high % 0x100;
    LowPair(c, high, low);
    RemainderUnique(c, 0x100_0000, high / 0x100, high % 0x100 * 0x1_0000 + low);
  }

  lemma LowPair(c: nat, high: nat, low: nat)
    requires c == high * 0x1_0000 + low && low < 0x1_0000
    ensures low == c / 0x100 % 0x100 * 0x100 + c % 0x100
  {
    var mid := low / 0x100;
    assert c / 0x100 == high * 0x100 + mid;
    RemainderUnique(c / 0x100, 0x100, high, mid);
    RemainderUnique(c, 0x100, high * 0x100 + mid, low % 0x100);
  }

  /** Setting a pixel changes that pixel to the colour's RGB and no other one. */
  lemma SetGet(s: Screen, b: seq<byte>, x: nat, y: nat, c: color, x': nat, y': nat)
    requires Holds(s, b) && s.Visible(x, y) && s.Visible(x', y')
    ensures Get(s, Set(s, b, x, y, c), x', y') == if (x, y) == (x', y') then Rgb(c) else Get(s, b, x', y')
  {
    hide Write, Rgb;
    PixelInRow(s, x, y);
    PixelInRow(s, x', y');
    if (x, y) == (x', y') {
      WriteReads(s, b, s.Offset(x, y), c);
    } else {
      PixelsApart(s, x, y, x', y');
    }
  }

  /** Setting a pixel changes bytes of its own row only. */
  lemma SetStaysInRow(s: Screen, b: seq<byte>, x: nat, y: nat, c: color, k: nat)
    requires Holds(s, b) && s.Visible(x, y) && k < |b|
    requires k < y * s.stride || k >= (y + 1) * s.stride
    ensures Set(s, b, x, y, c)[k] == b[k]
  {
    hide Write;
    PixelInRow(s, x, y);
  }
}
