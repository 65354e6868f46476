/** The mouse pointer over the backbuffer (desktop-metal/src/main.rs:392-395, 436-525, 3460-3540). */
module Pointers {
  import opened MachineWords
  import opened Pixels
  import opened Framebuffers

  const CURSOR_W := 12
  const CURSOR_H := 18
  const CURSOR_BW := 14
  const CURSOR_BH := 20

  const BG: color := 0x0B0F19
  const CURSOR: color := 0x060912
  const OUTLINE: color := 0xF2F0E8

  /** The arrow, one 12-bit row after the other, leftmost column first. */
  const ARROW: seq<nat> := [
    0x800, 0xC00, 0xE00, 0xF00, 0xF80, 0xFC0, 0xFE0, 0xFF0, 0xFF8, 0xFFC, 0xFE0, 0xEE0, 0xCE0, 0x870, 0x070, 0x038,
    0x038, 0x010]

  predicate CursorMask(col: int, row: int) {
    0 <= row < CURSOR_H && 0 <= col < CURSOR_W && ARROW[row] / Pow2(11 - col) % 2 != 0
  }

  predicate NearMask(col: int, row: int) {
    || CursorMask(col - 1, row - 1) || CursorMask(col, row - 1) || CursorMask(col + 1, row - 1)
    || CursorMask(col - 1, row) || CursorMask(col + 1, row)
    || CursorMask(col - 1, row + 1) || CursorMask(col, row + 1) || CursorMask(col + 1, row + 1)
  }

  /** What the pointer leaves at an offset from its tip, over a pixel `under`. */
  function Stamp(col: int, row: int, under: color): color {
    if CursorMask(col, row) then CURSOR else if NearMask(col, row) then OUTLINE else under
  }

  /** The box that is saved and restored: one pixel around the arrow. */
  predicate InBox(x: int, y: int, px: int, py: int) {
    x - 1 <= px < x - 1 + CURSOR_BW && y - 1 <= py < y - 1 + CURSOR_BH
  }

  /** The pointer does not reach beyond its box. */
  lemma StampStaysInBox(col: int, row: int, under: color)
    requires !InBox(0, 0, col, row)
    ensures Stamp(col, row, under) == under
  {
    hide Pow2;
  }

  /** The part of the box before (row, col) in row order, relative to its corner. */
  predicate Visited(row: int, col: int, r: int, c: int) {
    r < row || (r == row && c < col)
  }

  function Slot(r: nat, c: nat): (i: nat)
    requires r < CURSOR_BH && c < CURSOR_BW
    ensures i < CURSOR_BW * CURSOR_BH
  {
    r * CURSOR_BW + c
  }

  /** Only bytes of the rows from `lo` up to `hi` changed. */
  predicate RowsOnly(s: Screen, before: seq<byte>, after: seq<byte>, lo: int, hi: int) {
    && |after| == |before|
    && forall k :: 0 <= k < |before| && (k < lo * s.stride || k >= hi * s.stride) ==> after[k] == before[k]
  }

  lemma RowsGrow(s: Screen, before: seq<byte>, mid: seq<byte>, after: seq<byte>, lo: int, hi: int, lo': int, hi': int)
    requires RowsOnly(s, before, mid, lo, hi) && RowsOnly(s, mid, after, lo', hi') && lo <= lo' && hi' <= hi
    ensures RowsOnly(s, before, after, lo, hi)
  {
    ProductMonotone(lo, lo', s.stride);
    ProductMonotone(hi', hi, s.stride);
  }

  /** One pixel was set to `c`, if it is visible. */
  ghost predicate PixelPut(s: Screen, before: seq<byte>, after: seq<byte>, x: int, y: int, c: color)
    requires Holds(s, before) && Holds(s, after)
  {
    forall px: nat, py: nat :: s.Visible(px, py) ==>
      Get(s, after, px, py) == if px == x && py == y then Rgb(c) else Get(s, before, px, py)
  }

  /** The source's bounds check around `set_pixel`. */
  method Put(fb: Framebuffer, x: int, y: int, c: color)
    requires fb.Valid()
    modifies fb.back
    ensures fb.Valid() && PixelPut(fb.screen, old(fb.back[..]), fb.back[..], x, y, c)
    ensures RowsOnly(fb.screen, old(fb.back[..]), fb.back[..], y, y + 1)
  {
    if x >= 0 && y >= 0 && x < fb.screen.width && y < fb.screen.height {
      fb.SetPixel(x, y, c);
      PutIsSet(fb.screen, old(fb.back[..]), x, y, c);
    }
  }

  lemma PutIsSet(s: Screen, b: seq<byte>, x: nat, y: nat, c: color)
    requires Holds(s, b) && s.Visible(x, y)
    ensures PixelPut(s, b, Set(s, b, x, y, c), x, y, c)
    ensures RowsOnly(s, b, Set(s, b, x, y, c), y, y + 1)
  {
    hide Get, Set, Rgb;
    forall px: nat, py: nat | s.Visible(px, py)
      ensures Get(s, Set(s, b, x, y, c), px, py) == if px == x && py == y then Rgb(c) else Get(s, b, px, py)
    {
      SetGet(s, b, x, y, c, px, py);
    }
    forall k | 0 <= k < |b| && (k < y * s.stride || k >= (y + 1) * s.stride)
      ensures Set(s, b, x, y, c)[k] == b[k]
    {
      SetStaysInRow(s, b, x, y, c, k);
    }
  }

  // ---- saving and restoring ----

  /** What is saved for a position: the pixel there, or the background colour off the screen. */
  function Under(s: Screen, b: seq<byte>, x: int, y: int): color
    requires Holds(s, b)
  {
    if s.Visible(x, y) then Get(s, b, x, y) else BG
  }

  method SaveCursorBg(fb: Framebuffer, x: int, y: int, buf: array<color>)
    requires fb.Valid() && buf.Length == CURSOR_BW * CURSOR_BH
    modifies buf
    ensures forall r: nat, c: nat :: r < CURSOR_BH && c < CURSOR_BW ==>
      buf[Slot(r, c)] == Under(fb.screen, fb.back[..], x - 1 + c, y - 1 + r)
  {
    hide Get;
    var row := 0;
    while row < CURSOR_BH
      invariant 0 <= row <= CURSOR_BH
      invariant forall r: nat, c: nat :: r < row && c < CURSOR_BW ==>
        buf[Slot(r, c)] == Under(fb.screen, fb.back[..], x - 1 + c, y - 1 + r)
    {
      var col := 0;
      while col < CURSOR_BW
        invariant 0 <= col <= CURSOR_BW
        invariant forall r: nat, c: nat :: r < CURSOR_BH && c < CURSOR_BW && Visited(row, col, r, c) ==>
          buf[Slot(r, c)] == Under(fb.screen, fb.back[..], x - 1 + c, y - 1 + r)
      {
        var px, py := x - 1 + col, y - 1 + row;
        if px >= 0 && py >= 0 && px < fb.screen.width && py < fb.screen.height {
          buf[Slot(row, col)] := fb.GetPixel(px, py);
        } else {
          buf[Slot(row, col)] := BG;
        }
        col := col + 1;
      }
      row := row + 1;
    }
  }

  /** What the picture shows halfway through restoring. */
  ghost predicate Restored(s: Screen, before: seq<byte>, after: seq<byte>, x: int, y: int, buf: seq<color>,
                           row: int, col: int)
    requires Holds(s, before) && Holds(s, after) && |buf| == CURSOR_BW * CURSOR_BH
  {
    forall px: nat, py: nat :: s.Visible(px, py) ==>
      Get(s, after, px, py) ==
      if InBox(x, y, px, py) && Visited(row, col, py - y + 1, px - x + 1)
      then Rgb(buf[Slot(py - y + 1, px - x + 1)]) else Get(s, before, px, py)
  }

  method RestoreCursorBg(fb: Framebuffer, x: int, y: int, buf: array<color>)
    requires fb.Valid() && buf.Length == CURSOR_BW * CURSOR_BH
    modifies fb.back
    ensures fb.Valid()
    ensures Restored(fb.screen, old(fb.back[..]), fb.back[..], x, y, buf[..], CURSOR_BH, 0)
    ensures RowsOnly(fb.screen, old(fb.back[..]), fb.back[..], y - 1, y - 1 + CURSOR_BH)
  {
    hide Get, Rgb, RowsOnly, PixelPut, Restored;
    ghost var s, before := fb.screen, fb.back[..];
    NothingRestored(s, before, x, y, buf[..]);
    var row := 0;
    while row < CURSOR_BH
      invariant 0 <= row <= CURSOR_BH && fb.Valid()
      invariant Restored(s, before, fb.back[..], x, y, buf[..], row, 0)
      invariant RowsOnly(s, before, fb.back[..], y - 1, y - 1 + CURSOR_BH)
    {
      var col := 0;
      while col < CURSOR_BW
        invariant 0 <= col <= CURSOR_BW && fb.Valid()
        invariant Restored(s, before, fb.back[..], x, y, buf[..], row, col)
        invariant RowsOnly(s, before, fb.back[..], y - 1, y - 1 + CURSOR_BH)
      {
        ghost var mid := fb.back[..];
        Put(fb, x - 1 + col, y - 1 + row, buf[Slot(row, col)]);
        RestoreStep(s, before, mid, fb.back[..], x, y, buf[..], row, col);
        RowsGrow(s, before, mid, fb.back[..], y - 1, y - 1 + CURSOR_BH, y - 1 + row, y + row);
        col := col + 1;
      }
      RestoreRow(s, before, fb.back[..], x, y, buf[..], row);
      row := row + 1;
    }
  }

  lemma NothingRestored(s: Screen, b: seq<byte>, x: int, y: int, buf: seq<color>)
    requires Holds(s, b) && |buf| == CURSOR_BW * CURSOR_BH
    ensures Restored(s, b, b, x, y, buf, 0, 0)
    ensures forall lo: int, hi: int :: RowsOnly(s, b, b, lo, hi)
  {
    hide Get, Rgb;
  }

  lemma RestoreStep(s: Screen, before: seq<byte>, mid: seq<byte>, after: seq<byte>, x: int, y: int, buf: seq<color>,
                    row: nat, col: nat)
    requires Holds(s, before) && Holds(s, mid) && Holds(s, after) && |buf| == CURSOR_BW * CURSOR_BH
    requires row < CURSOR_BH && col < CURSOR_BW && Restored(s, before, mid, x, y, buf, row, col)
    requires PixelPut(s, mid, after, x - 1 + col, y - 1 + row, buf[Slot(row, col)])
    ensures Restored(s, before, after, x, y, buf, row, col + 1)
  {
    hide Get, Rgb;
  }

  lemma RestoreRow(s: Screen, before: seq<byte>, after: seq<byte>, x: int, y: int, buf: seq<color>, row: nat)
    requires Holds(s, before) && Holds(s, after) && |buf| == CURSOR_BW * CURSOR_BH
    requires row < CURSOR_BH && Restored(s, before, after, x, y, buf, row, CURSOR_BW)
    ensures Restored(s, before, after, x, y, buf, row + 1, 0)
  {
    hide Get, Rgb;
  }

  // ---- drawing ----

  /** What the picture shows halfway through the outline. */
  ghost predicate Outlined(s: Screen, before: seq<byte>, after: seq<byte>, x: int, y: int, row: int, col: int)
    requires Holds(s, before) && Holds(s, after)
  {
    forall px: nat, py: nat :: s.Visible(px, py) ==>
      Get(s, after, px, py) ==
      if InBox(x, y, px, py) && Visited(row, col, py - y, px - x)
         && !CursorMask(px - x, py - y) && NearMask(px - x, py - y)
      then OUTLINE else Get(s, before, px, py)
  }

  /** What the picture shows halfway through the fill. */
  ghost predicate Filled(s: Screen, before: seq<byte>, after: seq<byte>, x: int, y: int, row: int, col: int)
    requires Holds(s, before) && Holds(s, after)
  {
    forall px: nat, py: nat :: s.Visible(px, py) ==>
      Get(s, after, px, py) ==
      if Visited(row, col, py - y, px - x) && CursorMask(px - x, py - y) then CURSOR else Get(s, before, px, py)
  }

  ghost predicate Stamped(s: Screen, before: seq<byte>, after: seq<byte>, x: int, y: int)
    requires Holds(s, before) && Holds(s, after)
  {
    forall px: nat, py: nat :: s.Visible(px, py) ==>
      Get(s, after, px, py) == Stamp(px - x, py - y, Get(s, before, px, py))
  }

  method DrawCursor(fb: Framebuffer, x: int, y: int)
    requires fb.Valid()
    modifies fb.back
    ensures fb.Valid() && Stamped(fb.screen, old(fb.back[..]), fb.back[..], x, y)
    ensures RowsOnly(fb.screen, old(fb.back[..]), fb.back[..], y - 1, y - 1 + CURSOR_BH)
  {
    hide Get, Rgb, RowsOnly, PixelPut, Stamped, Outlined, Filled, CursorMask, NearMask;
    ghost var s, before := fb.screen, fb.back[..];
    DrawOutline(fb, x, y);
    ghost var mid := fb.back[..];
    FillArrow(fb, x, y);
    DrawnIsStamped(s, before, mid, fb.back[..], x, y);
    RowsGrow(s, before, mid, fb.back[..], y - 1, y - 1 + CURSOR_BH, y, y + CURSOR_H);
  }

  lemma DrawnIsStamped(s: Screen, before: seq<byte>, mid: seq<byte>, after: seq<byte>, x: int, y: int)
    requires Holds(s, before) && Holds(s, mid) && Holds(s, after)
    requires Outlined(s, before, mid, x, y, CURSOR_H + 1, -1) && Filled(s, mid, after, x, y, CURSOR_H, 0)
    ensures Stamped(s, before, after, x, y)
  {
    hide Get, CursorMask, NearMask;
    forall px: nat, py: nat | s.Visible(px, py)
      ensures Get(s, after, px, py) == Stamp(px - x, py - y, Get(s, before, px, py))
    {
      MaskInside(px - x, py - y);
    }
  }

  lemma MaskInside(col: int, row: int)
    ensures CursorMask(col, row) ==> 0 <= row < CURSOR_H && 0 <= col < CURSOR_W
    ensures CursorMask(col, row) || NearMask(col, row) ==> InBox(0, 0, col, row)
  {
    hide Pow2;
  }

  method DrawOutline(fb: Framebuffer, x: int, y: int)
    requires fb.Valid()
    modifies fb.back
    ensures fb.Valid() && Outlined(fb.screen, old(fb.back[..]), fb.back[..], x, y, CURSOR_H + 1, -1)
    ensures RowsOnly(fb.screen, old(fb.back[..]), fb.back[..], y - 1, y - 1 + CURSOR_BH)
  {
    hide Get, Rgb, RowsOnly, PixelPut, Outlined, CursorMask, NearMask;
    ghost var s, before := fb.screen, fb.back[..];
    NothingDrawn(s, before, x, y);
    var row: int := -1;
    while row < CURSOR_H + 1
      invariant -1 <= row <= CURSOR_H + 1 && fb.Valid()
      invariant Outlined(s, before, fb.back[..], x, y, row, -1)
      invariant RowsOnly(s, before, fb.back[..], y - 1, y - 1 + CURSOR_BH)
    {
      var col: int := -1;
      while col < CURSOR_W + 1
        invariant -1 <= col <= CURSOR_W + 1 && fb.Valid()
        invariant Outlined(s, before, fb.back[..], x, y, row, col)
        invariant RowsOnly(s, before, fb.back[..], y - 1, y - 1 + CURSOR_BH)
      {
        ghost var mid := fb.back[..];
        if !CursorMask(col, row) && NearMask(col, row) {
          Put(fb, x + col, y + row, OUTLINE);
          RowsGrow(s, before, mid, fb.back[..], y - 1, y - 1 + CURSOR_BH, y + row, y + row + 1);
        }
        OutlineStep(s, before, mid, fb.back[..], x, y, row, col);
        col := col + 1;
      }
      OutlineRow(s, before, fb.back[..], x, y, row);
      row := row + 1;
    }
  }

  method FillArrow(fb: Framebuffer, x: int, y: int)
    requires fb.Valid()
    modifies fb.back
    ensures fb.Valid() && Filled(fb.screen, old(fb.back[..]), fb.back[..], x, y, CURSOR_H, 0)
    ensures RowsOnly(fb.screen, old(fb.back[..]), fb.back[..], y, y + CURSOR_H)
  {
    hide Get, Rgb, RowsOnly, PixelPut, Filled, CursorMask;
    ghost var s, before := fb.screen, fb.back[..];
    NothingDrawn(s, before, x, y);
    var row := 0;
    while row < CURSOR_H
      invariant 0 <= row <= CURSOR_H && fb.Valid()
      invariant Filled(s, before, fb.back[..], x, y, row, 0)
      invariant RowsOnly(s, before, fb.back[..], y, y + CURSOR_H)
    {
      var col := 0;
      while col < CURSOR_W
        invariant 0 <= col <= CURSOR_W && fb.Valid()
        invariant Filled(s, before, fb.back[..], x, y, row, col)
        invariant RowsOnly(s, before, fb.back[..], y, y + CURSOR_H)
      {
        ghost var mid := fb.back[..];
        if CursorMask(col, row) {
          Put(fb, x + col, y + row, CURSOR);
          RowsGrow(s, before, mid, fb.back[..], y, y + CURSOR_H, y + row, y + row + 1);
        }
        FillStep(s, before, mid, fb.back[..], x, y, row, col);
        col := col + 1;
      }
      FillRow(s, before, fb.back[..], x, y, row);
      row := row + 1;
    }
  }

  lemma NothingDrawn(s: Screen, b: seq<byte>, x: int, y: int)
    requires Holds(s, b)
    ensures Outlined(s, b, b, x, y, -1, -1) && Filled(s, b, b, x, y, 0, 0)
    ensures forall lo: int, hi: int :: RowsOnly(s, b, b, lo, hi)
  {
    hide Get, NearMask, Pow2;
  }

  lemma OutlineStep(s: Screen, before: seq<byte>, mid: seq<byte>, after: seq<byte>, x: int, y: int, row: int, col: int)
    requires Holds(s, before) && Holds(s, mid) && Holds(s, after)
    requires -1 <= row <= CURSOR_H && -1 <= col <= CURSOR_W && Outlined(s, before, mid, x, y, row, col)
    requires if !CursorMask(col, row) && NearMask(col, row) then PixelPut(s, mid, after, x + col, y + row, OUTLINE)
             else after == mid
    ensures Outlined(s, before, after, x, y, row, col + 1)
  {
    hide Get, CursorMask, NearMask;
  }

  lemma OutlineRow(s: Screen, before: seq<byte>, after: seq<byte>, x: int, y: int, row: int)
    requires Holds(s, before) && Holds(s, after) && Outlined(s, before, after, x, y, row, CURSOR_W + 1)
    ensures Outlined(s, before, after, x, y, row + 1, -1)
  {
    hide Get, CursorMask, NearMask;
  }

  lemma FillStep(s: Screen, before: seq<byte>, mid: seq<byte>, after: seq<byte>, x: int, y: int, row: int, col: int)
    requires Holds(s, before) && Holds(s, mid) && Holds(s, after) && Filled(s, before, mid, x, y, row, col)
    requires if CursorMask(col, row) then PixelPut(s, mid, after, x + col, y + row, CURSOR) else after == mid
    ensures Filled(s, before, after, x, y, row, col + 1)
  {
    hide Get, CursorMask;
  }

  lemma FillRow(s: Screen, before: seq<byte>, after: seq<byte>, x: int, y: int, row: int)
    requires Holds(s, before) && Holds(s, after) && Filled(s, before, after, x, y, row, CURSOR_W)
    ensures Filled(s, before, after, x, y, row + 1, 0)
  {
    hide Get, Pow2;
  }

  // ---- pointer frames ----

  /** The scene without the pointer, pixel by pixel. */
  type Scene = (int, int) -> color

  /** The picture is the scene with the pointer at (x, y), and `buf` holds the scene below the pointer's box. */
  ghost predicate PointerOver(s: Screen, b: seq<byte>, buf: seq<color>, x: int, y: int, scene: Scene)
    requires Holds(s, b) && |buf| == CURSOR_BW * CURSOR_BH
  {
    && (forall px: nat, py: nat :: s.Visible(px, py) ==>
          Get(s, b, px, py) == Stamp(px - x, py - y, scene(px, py)) && Rgb(scene(px, py)) == scene(px, py))
    && (forall r: nat, c: nat :: r < CURSOR_BH && c < CURSOR_BW && s.Visible(x - 1 + c, y - 1 + r) ==>
          buf[Slot(r, c)] == scene(x - 1 + c, y - 1 + r))
  }

  ghost predicate Looks(s: Screen, b: seq<byte>, scene: Scene)
    requires Holds(s, b)
  {
    forall px: nat, py: nat :: s.Visible(px, py) ==>
      Get(s, b, px, py) == scene(px, py) && Rgb(scene(px, py)) == scene(px, py)
  }

  /** Restoring takes the pointer off: every visible pixel has the scene's colour again. */
  lemma RestoreRecovers(s: Screen, b: seq<byte>, after: seq<byte>, buf: seq<color>, x: int, y: int, scene: Scene)
    requires Holds(s, b) && Holds(s, after) && |buf| == CURSOR_BW * CURSOR_BH
    requires PointerOver(s, b, buf, x, y, scene) && Restored(s, b, after, x, y, buf, CURSOR_BH, 0)
    ensures Looks(s, after, scene)
  {
    hide Get, Rgb, CursorMask, NearMask;
    forall px: nat, py: nat | s.Visible(px, py)
      ensures Get(s, after, px, py) == scene(px, py)
    {
      if InBox(x, y, px, py) {
        var r: nat, c: nat := py - y + 1, px - x + 1;
        assert buf[Slot(r, c)] == scene(x - 1 + c, y - 1 + r);
      } else {
        StampStaysInBox(px - x, py - y, scene(px, py));
      }
    }
  }

  /** Saving and drawing puts the pointer over the scene. */
  lemma SaveAndDraw(s: Screen, b: seq<byte>, after: seq<byte>, buf: seq<color>, x: int, y: int, scene: Scene)
    requires Holds(s, b) && Holds(s, after) && |buf| == CURSOR_BW * CURSOR_BH && Looks(s, b, scene)
    requires forall r: nat, c: nat :: r < CURSOR_BH && c < CURSOR_BW ==>
      buf[Slot(r, c)] == Under(s, b, x - 1 + c, y - 1 + r)
    requires Stamped(s, b, after, x, y)
    ensures PointerOver(s, after, buf, x, y, scene)
  {
    hide Get, Rgb, Stamp;
  }

  /**
   * A frame in which only the pointer moved: presenting the band it swept leaves the screen in step with the whole
   * backbuffer, as a full present would, and the pointer stands over the same scene.
   */
  method PointerFrame(fb: Framebuffer, buf: array<color>, prevX: int, prevY: int, x: int, y: int, ghost scene: Scene)
    requires fb.Valid() && fb.Synced() && buf.Length == CURSOR_BW * CURSOR_BH && prevY >= 0 && y >= 0
    requires PointerOver(fb.screen, fb.back[..], buf[..], prevX, prevY, scene)
    modifies fb.back, fb.shown, buf
    ensures fb.Valid() && fb.Synced()
    ensures PointerOver(fb.screen, fb.back[..], buf[..], x, y, scene)
  {
    hide Get, Rgb, Stamped, Restored, PointerOver, Looks, RowsOnly;
    ghost var s, first := fb.screen, fb.back[..];
    ghost var lo, hi := Min(prevY, y) - 1, Max(prevY, y) - 1 + CURSOR_BH;
    RestoreCursorBg(fb, prevX, prevY, buf);
    ghost var bare := fb.back[..];
    RestoreRecovers(s, first, bare, buf[..], prevX, prevY, scene);
    SaveCursorBg(fb, x, y, buf);
    DrawCursor(fb, x, y);
    SaveAndDraw(s, bare, fb.back[..], buf[..], x, y, scene);
    RowsWiden(s, first, bare, prevY - 1, prevY - 1 + CURSOR_BH, lo, hi);
    RowsGrow(s, first, bare, fb.back[..], lo, hi, y - 1, y - 1 + CURSOR_BH);
    var yTop := Max(Min(prevY, y) - 2, 0);
    var yBot := Min(Max(prevY, y) + CURSOR_H + 4, fb.screen.height);
    BandCovers(s, first, fb.back[..], lo, hi, yTop, yBot);
    fb.PresentRows(yTop, yBot);
  }

  lemma RowsWiden(s: Screen, before: seq<byte>, after: seq<byte>, lo: int, hi: int, lo': int, hi': int)
    requires RowsOnly(s, before, after, lo, hi) && lo' <= lo && hi <= hi'
    ensures RowsOnly(s, before, after, lo', hi')
  {
    ProductMonotone(lo', lo, s.stride);
    ProductMonotone(hi, hi', s.stride);
  }

  /** Behind the band that is presented nothing changed. */
  lemma BandCovers(s: Screen, before: seq<byte>, after: seq<byte>, lo: int, hi: int, top: nat, bottom: nat)
    requires RowsOnly(s, before, after, lo, hi) && |before| == s.height * s.stride
    requires (top <= lo || top == 0) && (bottom >= hi || bottom >= s.height)
    ensures forall k :: 0 <= k < |before| && !(top * s.stride <= k < bottom * s.stride) ==> after[k] == before[k]
  {
    if top <= lo {
      ProductMonotone(top, lo, s.stride);
    }
    if bottom >= hi {
      ProductMonotone(hi, bottom, s.stride);
    } else {
      ProductMonotone(s.height, bottom, s.stride);
    }
  }

  /** The first pointer over a scene. */
  method ShowPointer(fb: Framebuffer, buf: array<color>, x: int, y: int, ghost scene: Scene)
    requires fb.Valid() && buf.Length == CURSOR_BW * CURSOR_BH && Looks(fb.screen, fb.back[..], scene)
    modifies fb.back, fb.shown, buf
    ensures fb.Valid() && fb.Synced() && PointerOver(fb.screen, fb.back[..], buf[..], x, y, scene)
  {
    hide Get, Rgb, Stamped, PointerOver, Looks, RowsOnly;
    ghost var bare := fb.back[..];
    SaveCursorBg(fb, x, y, buf);
    DrawCursor(fb, x, y);
    SaveAndDraw(fb.screen, bare, fb.back[..], buf[..], x, y, scene);
    fb.Present();
  }

  /** Taking the pointer off brings the scene back, after any number of pointer frames. */
  method LiftPointer(fb: Framebuffer, buf: array<color>, x: int, y: int, ghost scene: Scene)
    requires fb.Valid() && buf.Length == CURSOR_BW * CURSOR_BH
    requires PointerOver(fb.screen, fb.back[..], buf[..], x, y, scene)
    modifies fb.back
    ensures fb.Valid() && Looks(fb.screen, fb.back[..], scene)
  {
    hide Get, Rgb, Restored, PointerOver, Looks, RowsOnly;
    ghost var before := fb.back[..];
    RestoreCursorBg(fb, x, y, buf);
    RestoreRecovers(fb.screen, before, fb.back[..], buf[..], x, y, scene);
  }
}
