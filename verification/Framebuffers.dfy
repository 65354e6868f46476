/** The double-buffered framebuffer (desktop-metal/src/fb.rs:13-45, 116-234). */
module Framebuffers {
  import opened MachineWords
  import opened Pixels

  class Framebuffer {
    const screen: Screen
    const back: array<byte>
    const shown: array<byte>
    var brightness: nat
    var brightLut: seq<byte>

    ghost predicate Valid()
      reads this, back
    {
      && back != shown && screen.Valid() && back.Length == shown.Length == screen.height * screen.stride
      && 15 <= brightness <= 100 && |brightLut| == 256
      && forall v :: 0 <= v < 256 ==> brightLut[v] == v * brightness / 100
    }

    /** What a byte looks like on the screen. */
    ghost function Shade(v: byte): byte
      requires |brightLut| == 256
      reads this
    {
      if brightness >= 100 then v else brightLut[v]
    }

    /** The screen shows the backbuffer. */
    ghost predicate Synced()
      requires Valid()
      reads this, back, shown
    {
      forall k :: 0 <= k < shown.Length ==> shown[k] == Shade(back[k])
    }

    constructor (screen: Screen, shown: array<byte>)
      requires screen.Valid() && shown.Length == screen.height * screen.stride
      ensures Valid() && this.screen == screen && this.shown == shown && fresh(back) && brightness == 100
      ensures forall k :: 0 <= k < back.Length ==> back[k] == 0
    {
      this.screen, this.shown := screen, shown;
      back := new byte[shown.Length](_ => 0);
      brightness := 100;
      brightLut := seq(256, i requires 0 <= i < 256 => i);
    }

    /** Brightness in percent, kept between 15 and 100; what is on the screen changes with the next present. */
    method SetBrightness(pct: nat)
      requires Valid()
      modifies this`brightness, this`brightLut
      ensures Valid() && brightness == if pct < 15 then 15 else if pct > 100 then 100 else pct
    {
      var bb := if pct < 15 then 15 else if pct > 100 then 100 else pct;
      brightness := bb;
      var i := 0;
      while i < 256
        invariant 0 <= i <= 256 && |brightLut| == 256 && brightness == bb
        invariant forall v :: 0 <= v < i ==> brightLut[v] == v * bb / 100
      {
        Dims(i, bb);
        brightLut := brightLut[i := i * bb / 100];
        i := i + 1;
      }
    }

    /** Copies the whole backbuffer to the screen. */
    method Present()
      requires Valid()
      modifies shown
      ensures Valid() && Synced()
    {
      CopyBytes(0, back.Length);
    }

    /** Copies the rows from `y0` up to `y1` to the screen. */
    method PresentRows(y0: nat, y1: nat)
      requires Valid()
      modifies shown
      ensures Valid()
      ensures forall k :: 0 <= k < shown.Length ==>
        shown[k] == if y0 * screen.stride <= k < y1 * screen.stride then Shade(back[k]) else old(shown[k])
    {
      hide Screen.Valid, Shade;
      var y1u := if y1 < screen.height then y1 else screen.height;
      BandInside(screen, y0, y1, y1u);
      if y1u <= y0 {
        return;
      }
      CopyBytes(y0 * screen.stride, (y1u - y0) * screen.stride);
    }

    /** Copies `len` bytes from offset `off`, through the table unless the screen is at full brightness. */
    method CopyBytes(off: nat, len: nat)
      requires Valid() && off + len <= back.Length
      modifies shown
      ensures forall k :: 0 <= k < shown.Length ==>
        shown[k] == if off <= k < off + len then Shade(back[k]) else old(shown[k])
    {
      var i := 0;
      while i < len
        invariant 0 <= i <= len
        invariant forall k :: 0 <= k < shown.Length ==>
          shown[k] == if off <= k < off + i then Shade(back[k]) else old(shown[k])
      {
        shown[off + i] := if brightness >= 100 then back[off + i] else brightLut[back[off + i]];
        i := i + 1;
      }
    }

    method GetPixel(x: nat, y: nat) returns (c: color)
      requires Valid()
      ensures c == Get(screen, back[..], x, y)
    {
      if x >= screen.width || y >= screen.height {
        return 0;
      }
      PixelInRow(screen, x, y);
      var off := y * screen.stride + x * (screen.bpp / 8);
      var b, g, r := back[off], back[off + 1], back[off + 2];
      c := r as int * 0x1_0000 + g as int * 0x100 + b as int;
    }

    method SetPixel(x: nat, y: nat, c: color)
      requires Valid()
      modifies back
      ensures Valid() && back[..] == Set(screen, old(back[..]), x, y, c)
    {
      if x >= screen.width || y >= screen.height {
        return;
      }
      PixelInRow(screen, x, y);
      var off := y * screen.stride + x * (screen.bpp / 8);
      var r, g, b := c / 0x1_0000 % 0x100, c / 0x100 % 0x100, c % 0x100;
      back[off], back[off + 1], back[off + 2] := b, g, r;
      if screen.bpp == 32 {
        back[off + 3] := 0xFF;
      }
    }
  }

  /** Dimming never brightens. */
  lemma Dims(v: int, pct: int)
    requires 0 <= v && 0 <= pct <= 100
    ensures 0 <= v * pct / 100 <= v
  {
    assert 0 <= v * pct <= v * 100;
  }

  lemma BandInside(s: Screen, y0: nat, y1: nat, y1u: nat)
    requires y1u == if y1 < s.height then y1 else s.height
    ensures y1u <= y0 ==> y1 * s.stride <= y0 * s.stride || s.height * s.stride <= y0 * s.stride
    ensures y1u > y0 ==> y0 * s.stride + (y1u - y0) * s.stride == y1u * s.stride <= s.height * s.stride
    ensures y1u == s.height ==> s.height * s.stride <= y1 * s.stride
  {
    ProductMonotone(y1u, s.height, s.stride);
    if y1u <= y0 {
      ProductMonotone(y1u, y0, s.stride);
    } else {
      assert y0 * s.stride + (y1u - y0) * s.stride == y1u * s.stride;
    }
    if y1u == s.height {
      ProductMonotone(s.height, y1, s.stride);
    }
  }
}
