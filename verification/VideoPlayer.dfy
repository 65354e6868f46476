/**
 * The .rpv container: packing (scripts/pack_rpv.py:37-53) and the kernel's playback
 * (kernel/src/rpv.rs:37-85, 127-172).
 */
module VideoPlayer {
  import opened MachineWords
  import opened Options
  import opened VideoCodec

  const MAX_W := 640
  const MAX_H := 360

  /** No slice is longer than the largest `isize`. */
  const SLICE_LIMIT: nat := 0x8000_0000_0000_0000

  const MAGIC: seq<byte> := ['R' as int, 'P' as int, 'V' as int, '1' as int]

  /** What is packed: frames of w * h pixels, and sound as raw bytes. */
  datatype Video = Video(w: nat, h: nat, fps: nat, arate: nat, ach: nat, pcm: seq<byte>, frames: seq<seq<word>>) {
    function Pixels(): nat {
      w * h
    }

    /** `asamps` of the header: whole samples of all channels. */
    function Samples(): nat {
      if ach == 0 then 0
      else
        QuotientNotNegative(|pcm|, ach * 2);
        |pcm| / (ach * 2)
    }

    /** The picture before the first frame is black; after frame k it is that frame. */
    function Picture(k: nat): seq<word>
      requires k <= |frames|
    {
      if k == 0 then Black(Pixels()) else frames[k - 1]
    }
  }

  function Black(n: nat): (s: seq<word>)
    ensures |s| == n
  {
    seq(n, _ => 0)
  }

  predicate FramePacks(cur: seq<word>, prev: seq<word>) {
    |cur| == |prev| && AllPackable(Encode(cur, prev, 0)) && |SegmentsBytes(Encode(cur, prev, 0))| < WORD_LIMIT
  }

  /** One frame in the file: the length of its segments, then the segments. */
  function Record(cur: seq<word>, prev: seq<word>): seq<byte>
    requires FramePacks(cur, prev)
  {
    var seg := SegmentsBytes(Encode(cur, prev, 0));
    Le32(|seg|) + seg
  }

  predicate FramesPackFrom(frames: seq<seq<word>>, prev: seq<word>) {
    frames == [] || (FramePacks(frames[0], prev) && FramesPackFrom(frames[1..], frames[0]))
  }

  function Records(frames: seq<seq<word>>, prev: seq<word>): seq<byte>
    requires FramesPackFrom(frames, prev)
  {
    if frames == [] then [] else Record(frames[0], prev) + Records(frames[1..], frames[0])
  }

  predicate HeaderPacks(v: Video) {
    && v.w < WORD_LIMIT && v.h < WORD_LIMIT && v.fps < WORD_LIMIT && |v.frames| < WORD_LIMIT
    && v.arate < WORD_LIMIT && v.ach < WORD_LIMIT && v.Samples() < WORD_LIMIT
  }

  /** No step of the packer fails: every frame has w * h pixels and every number fits its field. */
  predicate Packs(v: Video) {
    && HeaderPacks(v) && (forall k :: 0 <= k < |v.frames| ==> |v.frames[k]| == v.Pixels())
    && FramesPackFrom(v.frames, Black(v.Pixels()))
  }

  function Header(v: Video): (b: seq<byte>)
    requires HeaderPacks(v)
    ensures |b| == 32
  {
    MAGIC + Le32(v.w) + Le32(v.h) + Le32(v.fps) + Le32(|v.frames|) + Le32(v.arate) + Le32(v.ach) + Le32(v.Samples())
  }

  function Container(v: Video): seq<byte>
    requires Packs(v)
  {
    Header(v) + v.pcm + Records(v.frames, Black(v.Pixels()))
  }

  /** A file byte by byte: two frames of two pixels with one stereo sample, the second frame changing one pixel. */
  lemma FormatExample()
    ensures var v := Video(2, 1, 12, 44100, 2, [1, 2, 3, 4], [[0x11_2233, 0], [0x11_2233, 0xFF]]);
      Packs(v) && Container(v) ==
        [0x52, 0x50, 0x56, 0x31] + [2, 0, 0, 0] + [1, 0, 0, 0] + [12, 0, 0, 0] + [2, 0, 0, 0]
        + [0x44, 0xAC, 0, 0] + [2, 0, 0, 0] + [1, 0, 0, 0]
        + [1, 2, 3, 4]
        + [12, 0, 0, 0] + [0, 0, 0, 0] + [1, 0, 0, 0] + [0x33, 0x22, 0x11, 0]
        + [12, 0, 0, 0] + [1, 0, 0, 0] + [1, 0, 0, 0] + [0xFF, 0, 0, 0]
  {
    hide Le32, Encode, SegmentsBytes, AllPackable;
    var v := Video(2, 1, 12, 44100, 2, [1, 2, 3, 4], [[0x11_2233, 0], [0x11_2233, 0xFF]]);
    var p, q := v.frames[0], v.frames[1];
    OneChange(p, Black(2), 0);
    OneChange(q, p, 1);
    WordExamples();
    OneSegment(0, 0x11_2233);
    OneSegment(1, 0xFF);
    assert Records(v.frames, Black(2)) == Record(p, Black(2)) + Record(q, p) by {
      assert v.frames[1..] == [q];
      assert Records([q], p) == Record(q, p) + [];
    }
  }

  lemma WordExamples()
    ensures Le32(0) == [0, 0, 0, 0] && Le32(1) == [1, 0, 0, 0] && Le32(2) == [2, 0, 0, 0] && Le32(12) == [12, 0, 0, 0]
    ensures Le32(0xFF) == [0xFF, 0, 0, 0] && Le32(44100) == [0x44, 0xAC, 0, 0]
    ensures Le32(0x11_2233) == [0x33, 0x22, 0x11, 0]
  {
  }

  lemma OneSegment(skip: word, x: word)
    ensures AllPackable([Segment(skip, [x])])
    ensures SegmentsBytes([Segment(skip, [x])]) == Le32(skip) + Le32(1) + Le32(x)
  {
    hide Le32;
    assert Words([x]) == Le32(x) + [];
    SegmentsBytesCons(Segment(skip, [x]), []);
  }

  /** Two pixels of which one changes. */
  lemma OneChange(cur: seq<word>, prev: seq<word>, k: nat)
    requires |cur| == |prev| == 2 && k < 2 && cur[k] != prev[k] && cur[1 - k] == prev[1 - k]
    ensures Encode(cur, prev, 0) == [Segment(k, [cur[k]])]
  {
    assert NextChanged(cur, prev, 0) == k && NextSame(cur, prev, k) == k + 1;
    assert NextChanged(cur, prev, k + 1) == 2;
    assert Encode(cur, prev, k + 1) == [];
    assert cur[k..k + 1] == [cur[k]];
  }

  /** Packs a video, or nothing where `struct.pack` or `reshape` would raise. */
  method Pack(v: Video) returns (out: Option<seq<byte>>)
    ensures out == if Packs(v) then Some(Container(v)) else None
  {
    hide Encode, SegmentsBytes, AllPackable, Le32, Header, HeaderPacks, Black;
    var k := 0;
    while k < |v.frames|
      invariant 0 <= k <= |v.frames|
      invariant forall j :: 0 <= j < k ==> |v.frames[j]| == v.Pixels()
    {
      if |v.frames[k]| != v.Pixels() {
        return None;
      }
      k := k + 1;
    }
    if !HeaderPacks(v) {
      return None;
    }
    var prev := Black(v.Pixels());
    var body: seq<byte> := [];
    k := 0;
    assert v.frames[0..] == v.frames;
    while k < |v.frames|
      invariant 0 <= k <= |v.frames| && |prev| == v.Pixels()
      invariant FramesPackFrom(v.frames, Black(v.Pixels())) <==> FramesPackFrom(v.frames[k..], prev)
      invariant FramesPackFrom(v.frames[k..], prev) ==>
        Records(v.frames, Black(v.Pixels())) == body + Records(v.frames[k..], prev)
    {
      var cur := v.frames[k];
      assert v.frames[k..][0] == cur && v.frames[k..][1..] == v.frames[k + 1..];
      var seg := EncodeFrame(cur, prev);
      if seg.None? || |seg.value| >= WORD_LIMIT {
        return None;
      }
      body := body + (Le32(|seg.value|) + seg.value);
      prev := cur;
      k := k + 1;
    }
    assert v.frames[k..] == [] && body + [] == body;
    out := Some(Header(v) + v.pcm + body);
  }

  // ---- reading a container back ----

  function HeaderWord(d: seq<byte>, k: nat): word
    requires |d| >= 32 && k < 7
  {
    Rd32(d, 4 + 4 * k)
  }

  predicate Playable(d: seq<byte>) {
    && |d| >= 32 && d[..4] == MAGIC
    && 0 < HeaderWord(d, 0) <= MAX_W && 0 < HeaderWord(d, 1) <= MAX_H
  }

  function SoundBytes(samples: nat, channels: nat): nat {
    ProductNotNegative(samples, channels);
    samples * channels * 2
  }

  /** Where the player expects the first frame, in 64-bit arithmetic that wraps around. */
  function FramesStart(d: seq<byte>): usize
    requires |d| >= 32
  {
    Wrap(32 + Wrap(SoundBytes(HeaderWord(d, 6), HeaderWord(d, 5))))
  }

  lemma HeaderReads(v: Video, rest: seq<byte>)
    requires HeaderPacks(v)
    ensures var d := Header(v) + rest;
      && d[..4] == MAGIC && HeaderWord(d, 0) == v.w && HeaderWord(d, 1) == v.h && HeaderWord(d, 2) == v.fps
      && HeaderWord(d, 3) == |v.frames| && HeaderWord(d, 4) == v.arate && HeaderWord(d, 5) == v.ach
      && HeaderWord(d, 6) == v.Samples()
  {
    hide Le32, Rd32;
    var d := Header(v) + rest;
    FieldReads(d, Le32(v.w), v.w, 0);
    FieldReads(d, Le32(v.h), v.h, 1);
    FieldReads(d, Le32(v.fps), v.fps, 2);
    FieldReads(d, Le32(|v.frames|), |v.frames|, 3);
    FieldReads(d, Le32(v.arate), v.arate, 4);
    FieldReads(d, Le32(v.ach), v.ach, 5);
    FieldReads(d, Le32(v.Samples()), v.Samples(), 6);
  }

  lemma FieldReads(d: seq<byte>, field: seq<byte>, x: word, k: nat)
    requires |d| >= 32 && k < 7 && field == Le32(x) && d[4 + 4 * k..8 + 4 * k] == field
    ensures HeaderWord(d, k) == x
  {
    hide Le32, Rd32;
    var o := 4 + 4 * k;
    assert d == d[..o] + (Le32(x) + d[o + 4..]);
    ReadShifts(d[..o], Le32(x) + d[o + 4..], 0);
    WordReads(x, d[o + 4..]);
  }

  /** The player finds the frames exactly if the sound is a whole number of samples (none, without channels). */
  lemma FramesFound(v: Video)
    requires Packs(v) && |Container(v)| < SLICE_LIMIT
    ensures FramesStart(Container(v)) == 32 + |v.pcm| <==> WholeSamples(v)
  {
    hide Header, Records, Packs, HeaderWord, SoundBytes;
    PackedHeader(v);
    SoundInside(v);
    WrapSmall(SoundBytes(v.Samples(), v.ach));
    WrapSmall(32 + SoundBytes(v.Samples(), v.ach));
  }

  predicate WholeSamples(v: Video) {
    if v.ach == 0 then v.pcm == [] else |v.pcm| % (v.ach * 2) == 0
  }

  lemma SoundInside(v: Video)
    requires Packs(v)
    ensures SoundBytes(v.Samples(), v.ach) <= |v.pcm| && 32 + |v.pcm| <= |Container(v)|
    ensures SoundBytes(v.Samples(), v.ach) == |v.pcm| <==> WholeSamples(v)
  {
    hide Records, Packs, Header;
    if v.ach != 0 {
      var m := v.ach * 2;
      assert |v.pcm| == v.Samples() * m + |v.pcm| % m;
      Associates(v.Samples(), v.ach, 2);
    }
  }

  /** A single byte of sound is no whole sample: the player looks for the frames one byte too early. */
  lemma OddSoundMovesFrames()
    ensures var v := Video(1, 1, 30, 44100, 2, [0], []);
      && Packs(v) && |Container(v)| < SLICE_LIMIT && |Container(v)| == 33 && FramesStart(Container(v)) == 32
  {
    var v := Video(1, 1, 30, 44100, 2, [0], []);
    hide Header, HeaderWord;
    PackedHeader(v);
    WrapSmall(32);
  }

  lemma PackedHeader(v: Video)
    requires Packs(v)
    ensures var d := Container(v);
      |d| >= 32 && d[..4] == MAGIC && HeaderWord(d, 0) == v.w && HeaderWord(d, 1) == v.h
      && HeaderWord(d, 3) == |v.frames| && HeaderWord(d, 5) == v.ach && HeaderWord(d, 6) == v.Samples()
  {
    hide Header, HeaderWord, HeaderPacks;
    var rest := v.pcm + Records(v.frames, Black(v.Pixels()));
    assert Container(v) == Header(v) + rest;
    HeaderReads(v, rest);
  }

  lemma {:induction false} RecordsSplit(frames: seq<seq<word>>, prev: seq<word>, k: nat)
    requires FramesPackFrom(frames, prev) && k <= |frames|
    ensures var last := if k == 0 then prev else frames[k - 1];
      && FramesPackFrom(frames[..k], prev) && FramesPackFrom(frames[k..], last)
      && Records(frames, prev) == Records(frames[..k], prev) + Records(frames[k..], last)
  {
    hide FramePacks, Record;
    if k == 0 {
      assert frames[..0] == [] && frames[0..] == frames;
    } else {
      RecordsSplit(frames[1..], frames[0], k - 1);
      assert frames[..k][1..] == frames[1..][..k - 1] && frames[1..][k - 1..] == frames[k..];
      assert frames[..k][0] == frames[0];
    }
  }

  /** The bytes of the file before frame `k`. */
  function RecordStart(v: Video, k: nat): nat
    requires Packs(v) && k <= |v.frames|
  {
    RecordsSplit(v.frames, Black(v.Pixels()), k);
    32 + |v.pcm| + |Records(v.frames[..k], Black(v.Pixels()))|
  }

  /** At its place in the file stands the length of the segments of frame `k`, and then the segments. */
  lemma RecordFound(v: Video, k: nat)
    requires Packs(v) && k < |v.frames|
    ensures FramePacks(v.frames[k], v.Picture(k))
    ensures var d, o := Container(v), RecordStart(v, k);
      var seg := SegmentsBytes(Encode(v.frames[k], v.Picture(k), 0));
      && o + 4 + |seg| <= |d| && Rd32(d, o) == |seg| && d[o + 4..o + 4 + |seg|] == seg
      && RecordStart(v, k + 1) == o + 4 + |seg|
  {
    hide Header, Le32, Rd32, Encode, SegmentsBytes, AllPackable, HeaderPacks, Black;
    var black := Black(v.Pixels());
    RecordsSplit(v.frames, black, k);
    RecordsSplit(v.frames, black, k + 1);
    RecordsSplit(v.frames[..k + 1], black, k);
    assert v.frames[..k + 1][..k] == v.frames[..k] && v.frames[..k + 1][k..] == [v.frames[k]];
    assert v.frames[k..][0] == v.frames[k];
    OneRecord(v.frames[k], v.Picture(k));
    var seg := SegmentsBytes(Encode(v.frames[k], v.Picture(k), 0));
    var front := Header(v) + v.pcm + Records(v.frames[..k], black);
    var rest := Records(v.frames[k..][1..], v.frames[k]);
    Regroup(Header(v) + v.pcm, Records(v.frames[..k], black), Le32(|seg|), seg, rest);
    RecordAt(front, seg, rest);
  }

  lemma Regroup(a: seq<byte>, b: seq<byte>, len: seq<byte>, seg: seq<byte>, rest: seq<byte>)
    ensures a + (b + (len + seg + rest)) == a + b + (len + seg + rest)
  {
  }

  lemma RecordAt(front: seq<byte>, seg: seq<byte>, rest: seq<byte>)
    requires |seg| < WORD_LIMIT
    ensures var d, o := front + (Le32(|seg|) + seg + rest), |front|;
      o + 4 + |seg| <= |d| && Rd32(d, o) == |seg| && d[o + 4..o + 4 + |seg|] == seg
  {
    hide Le32, Rd32;
    assert Le32(|seg|) + seg + rest == Le32(|seg|) + (seg + rest);
    ReadShifts(front, Le32(|seg|) + (seg + rest), 0);
    WordReads(|seg|, seg + rest);
  }

  lemma OneRecord(cur: seq<word>, prev: seq<word>)
    requires FramePacks(cur, prev)
    ensures FramesPackFrom([cur], prev) && Records([cur], prev) == Record(cur, prev)
  {
    hide FramePacks, Record;
    assert [cur][1..] == [];
    assert Records([cur], prev) == Record(cur, prev) + [];
  }

  lemma PixelsFit(w: nat, h: nat)
    requires w <= MAX_W && h <= MAX_H
    ensures w * h <= MAX_W * MAX_H
  {
    assert w * h <= MAX_W * h;
  }

  class Player {
    const frame: array<word>
    var data: seq<byte>
    var w: nat
    var h: nat
    var nframes: nat
    var framesStart: usize
    var curOff: usize
    var curFrame: nat
    var isOpen: bool

    ghost predicate Valid()
      reads this
    {
      && frame.Length == MAX_W * MAX_H
      && (isOpen ==> w <= MAX_W && h <= MAX_H && 32 <= |data| < SLICE_LIMIT)
    }

    /** `k` frames of the video have been shown since its beginning. */
    ghost predicate Playing(v: Video, k: nat)
      requires Packs(v)
      reads this, frame
    {
      && Valid() && isOpen && data == Container(v) && w == v.w && h == v.h
      && nframes == |v.frames| && framesStart == RecordStart(v, 0)
      && k <= |v.frames| && curFrame == k && curOff == RecordStart(v, k)
      && w * h <= frame.Length && frame[..] == v.Picture(k) + Black(frame.Length - w * h)
    }

    constructor ()
      ensures Valid() && fresh(frame) && !isOpen
    {
      frame := new word[MAX_W * MAX_H](_ => 0);
      data, w, h, nframes, framesStart, curOff, curFrame, isOpen := [], 0, 0, 0, 0, 0, 0, false;
    }

    method Clear()
      requires frame.Length == MAX_W * MAX_H
      modifies frame
      ensures frame[..] == Black(frame.Length)
    {
      var i := 0;
      while i < frame.Length
        invariant 0 <= i <= frame.Length && forall k :: 0 <= k < i ==> frame[k] == 0
      {
        frame[i] := 0;
        i := i + 1;
      }
    }

    /** Opens a file for playback; a file that is not playable leaves everything as it was. */
    method Open(d: seq<byte>) returns (ok: bool)
      requires Valid() && |d| < SLICE_LIMIT
      modifies this, frame
      ensures Valid() && ok == Playable(d)
      ensures !ok ==> unchanged(this) && unchanged(frame)
      ensures ok ==> isOpen && data == d && curFrame == 0 && curOff == framesStart == FramesStart(d)
      ensures ok ==> w == HeaderWord(d, 0) && h == HeaderWord(d, 1) && nframes == HeaderWord(d, 3)
      ensures ok ==> frame[..] == Black(frame.Length)
    {
      hide HeaderWord, Black;
      if !Playable(d) {
        return false;
      }
      data, w, h, nframes := d, HeaderWord(d, 0), HeaderWord(d, 1), HeaderWord(d, 3);
      framesStart := FramesStart(d);
      curOff, curFrame, isOpen := framesStart, 0, true;
      Clear();
      return true;
    }

    /** Applies one frame's segments in place. */
    method ApplyFrame(seg: seq<byte>, npix: nat) returns (ok: bool)
      requires npix <= frame.Length
      modifies frame
      ensures (frame[..], ok) == Apply(old(frame[..]), npix, 0, seg)
    {
      hide Rd32, ReadWords, Apply;
      var pos: nat, o: nat := 0, 0;
      assert seg[0..] == seg;
      while o + 8 <= |seg|
        invariant o <= |seg|
        invariant Apply(old(frame[..]), npix, 0, seg) == Apply(frame[..], npix, pos, seg[o..])
        decreases |seg| - o
      {
        ghost var base, left := frame[..], seg[o..];
        ApplyUnfold(base, npix, pos, left);
        ReadsInside(seg, o, 0);
        ReadsInside(seg, o, 4);
        var skip: nat, litlen: nat := Rd32(seg, o), Rd32(seg, o + 4);
        o := o + 8;
        pos := pos + skip;
        if pos + litlen > npix || o + litlen * 4 > |seg| {
          return false;
        }
        assert left[8..] == seg[o..] && left[8 + 4 * litlen..] == seg[o + 4 * litlen..];
        WriteLiterals(seg, o, pos, litlen);
        o := o + litlen * 4;
        pos := pos + litlen;
      }
      ApplyUnfold(frame[..], npix, pos, seg[o..]);
      return true;
    }

    /** The literal loop. */
    method WriteLiterals(seg: seq<byte>, o: nat, pos: nat, n: nat)
      requires o + 4 * n <= |seg| && pos + n <= frame.Length
      modifies frame
      ensures frame[..] == old(frame[..pos]) + ReadWords(seg[o..], n) + old(frame[pos + n..])
    {
      hide Rd32;
      var i: nat := 0;
      while i < n
        invariant 0 <= i <= n
        invariant forall k :: 0 <= k < frame.Length ==>
          frame[k] == if pos <= k < pos + i then ReadWords(seg[o..], n)[k - pos] else old(frame[k])
      {
        ReadsInside(seg, o, 4 * i);
        frame[pos + i] := Rd32(seg, o + i * 4);
        i := i + 1;
      }
    }

    /**
     * Shows the next frame; behind the last one the video starts again. Where a header's sound length puts the frames
     * within the last four bytes of the address range, the source stops with an index out of range.
     */
    method Advance() returns (inRange: bool)
      requires Valid() && isOpen
      modifies this, frame
      ensures Valid() && isOpen && data == old(data)
      ensures w == old(w) && h == old(h) && nframes == old(nframes) && framesStart == old(framesStart)
      ensures inRange <==> (if old(curFrame) >= nframes then framesStart else old(curOff)) + 4 < WORD_RANGE
      ensures var o := if old(curFrame) >= nframes then framesStart else old(curOff);
        var f := if old(curFrame) >= nframes then 0 else old(curFrame);
        var before := if old(curFrame) >= nframes then Black(frame.Length) else old(frame[..]);
        w * h <= frame.Length &&
        (if o + 4 > |data| || o + 4 + Rd32(data, o) > |data| then
           curOff == o && curFrame == f && frame[..] == before
         else
           curOff == o + 4 + Rd32(data, o) && curFrame == f + 1
           && frame[..] == Apply(before, w * h, 0, data[o + 4..o + 4 + Rd32(data, o)]).0)
    {
      hide Rd32, Apply, Black, Wrap;
      PixelsFit(w, h);
      if curFrame >= nframes {
        curOff := framesStart;
        curFrame := 0;
        Clear();
      }
      var o: nat := curOff;
      WrapFour(o);
      if Wrap(o + 4) > |data| {
        return true;
      }
      if o + 4 > |data| {
        return false;
      }
      var seglen := Rd32(data, o);
      if o + 4 + seglen > |data| {
        return true;
      }
      var ok := ApplyFrame(data[o + 4..o + 4 + seglen], w * h);
      curOff := o + 4 + seglen;
      curFrame := curFrame + 1;
      return true;
    }

    /** Opening a packed video with whole sound samples stands before its first frame. */
    method OpenPacked(v: Video) returns (ok: bool)
      requires Valid() && Packs(v) && |Container(v)| < SLICE_LIMIT && WholeSamples(v)
      modifies this, frame
      ensures Valid() && (ok <==> 0 < v.w <= MAX_W && 0 < v.h <= MAX_H)
      ensures ok ==> Playing(v, 0)
    {
      hide Container, Packs, HeaderWord;
      PackedHeader(v);
      FramesFound(v);
      ok := Open(Container(v));
      if ok {
        PixelsFit(v.w, v.h);
        FirstRecord(v);
        BlackSplits(v.w * v.h, frame.Length);
      }
    }

    /** In every run the player shows the packed frames in order, over and over. */
    method AdvancePacked(v: Video, ghost k: nat) returns (inRange: bool)
      requires Packs(v) && Playing(v, k) && v.frames != []
      modifies this, frame
      ensures inRange && Playing(v, if k < |v.frames| then k + 1 else 1)
    {
      hide Container, Packs, Rd32, Apply, RecordStart, FramePacks, Encode, SegmentsBytes, Black;
      ghost var j := if k < |v.frames| then k else 0;
      ghost var tail := Black(frame.Length - w * h);
      BlackSplits(w * h, frame.Length);
      RecordFound(v, j);
      DecodesTo(v, j, tail);
      inRange := Advance();
      assert frame[..] == v.frames[j] + tail;
    }
  }

  lemma WrapFour(o: nat)
    requires o < WORD_RANGE
    ensures Wrap(o + 4) == if o + 4 < WORD_RANGE then o + 4 else o + 4 - WORD_RANGE
  {
  }

  lemma BlackSplits(m: nat, n: nat)
    requires m <= n
    ensures Black(m) + Black(n - m) == Black(n)
  {
  }

  lemma ApplyUnfold(frame: seq<word>, npix: nat, pos: nat, seg: seq<byte>)
    requires npix <= |frame|
    ensures Apply(frame, npix, pos, seg) ==
      if |seg| < 8 then (frame, true)
      else
        var p, n := pos + Rd32(seg, 0), Rd32(seg, 4);
        if p + n > npix || 8 + 4 * n > |seg| then (frame, false)
        else Apply(frame[..p] + ReadWords(seg[8..], n) + frame[p + n..], npix, p + n, seg[8 + 4 * n..])
  {
    hide Rd32, ReadWords;
  }

  lemma FirstRecord(v: Video)
    requires Packs(v)
    ensures RecordStart(v, 0) == 32 + |v.pcm|
  {
    assert v.frames[..0] == [];
  }

  lemma ReadsInside(seg: seq<byte>, o: nat, k: nat)
    requires o + k + 4 <= |seg|
    ensures Rd32(seg[o..], k) == Rd32(seg, o + k)
  {
    assert seg == seg[..o] + seg[o..];
    ReadShifts(seg[..o], seg[o..], k);
  }

  lemma DecodesTo(v: Video, k: nat, tail: seq<word>)
    requires Packs(v) && k < |v.frames|
    ensures FramePacks(v.frames[k], v.Picture(k)) && |v.frames[k]| == v.Pixels()
    ensures Apply(v.Picture(k) + tail, v.Pixels(), 0, SegmentsBytes(Encode(v.frames[k], v.Picture(k), 0))).0
      == v.frames[k] + tail
  {
    hide Apply, Encode, SegmentsBytes;
    RecordFound(v, k);
    DecodeInvertsEncode(v.frames[k], v.Picture(k), tail, 0);
    var (cur, prev) := (v.frames[k], v.Picture(k));
    assert cur[..0] + prev[0..] + tail == prev + tail;
  }
}
