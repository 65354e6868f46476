/**
 * The delta video codec: the packer's encoder (scripts/pack_rpv.py:18-53) and the segment format the kernel's
 * player decodes (kernel/src/rpv.rs:37-85).
 */
module VideoCodec {
  import opened MachineWords
  import opened Options

  const WORD_LIMIT := 0x1_0000_0000

  type word = x: int | 0 <= x < WORD_LIMIT

  // ---- little-endian words ----

  function Le32(x: word): (b: seq<byte>)
    ensures |b| == 4
  {
    var a := x / 0x100;
    var b := a / 0x100;
    [x % 0x100, a % 0x100, b % 0x100, b / 0x100]
  }

  function Rd32(b: seq<byte>, off: nat): word
    requires off + 4 <= |b|
  {
    b[off] as int + 0x100 * (b[off + 1] as int + 0x100 * (b[off + 2] as int + 0x100 * b[off + 3] as int))
  }

  /** Four bytes with the lowest one first. */
  ghost predicate LowFirst(x: int, b: seq<byte>) {
    |b| == 4 && x == b[0] as int + b[1] as int * 0x100 + b[2] as int * 0x1_0000 + b[3] as int * 0x100_0000
  }

  /** The lowest byte comes first, in what is written and in what is read. */
  lemma LowByteFirst(x: word, b: seq<byte>, off: nat)
    requires off + 4 <= |b|
    ensures LowFirst(x, Le32(x)) && LowFirst(Rd32(b, off), b[off..off + 4])
  {
  }

  lemma WordReads(x: word, rest: seq<byte>)
    ensures Rd32(Le32(x) + rest, 0) == x
  {
  }

  lemma ReadShifts(a: seq<byte>, b: seq<byte>, off: nat)
    requires off + 4 <= |b|
    ensures Rd32(a + b, |a| + off) == Rd32(b, off)
  {
  }

  function Words(ws: seq<word>): (b: seq<byte>)
    ensures |b| == 4 * |ws|
  {
    if ws == [] then [] else Le32(ws[0]) + Words(ws[1..])
  }

  /** `n` words read one after the other. */
  function ReadWords(b: seq<byte>, n: nat): (ws: seq<word>)
    requires 4 * n <= |b|
    ensures |ws| == n
  {
    seq(n, i requires 0 <= i < n => Rd32(b, 4 * i))
  }

  lemma {:induction false} WordsRead(ws: seq<word>, rest: seq<byte>)
    ensures ReadWords(Words(ws) + rest, |ws|) == ws
  {
    hide Le32, Rd32;
    if ws != [] {
      var tail := Words(ws[1..]) + rest;
      var all := Le32(ws[0]) + tail;
      assert Words(ws) + rest == all;
      WordReads(ws[0], tail);
      WordsRead(ws[1..], rest);
      forall i | 0 <= i < |ws|
        ensures Rd32(all, 4 * i) == ws[i]
      {
        if i > 0 {
          ReadShifts(Le32(ws[0]), tail, 4 * (i - 1));
          assert ReadWords(tail, |ws| - 1)[i - 1] == ws[1..][i - 1];
        }
      }
    }
  }

  // ---- segments ----

  /** Keep `skip` pixels, then write the literal ones. */
  datatype Segment = Segment(skip: nat, lits: seq<word>)

  function Encode(cur: seq<word>, prev: seq<word>, i: nat): (segs: seq<Segment>)
    requires |cur| == |prev| && i <= |cur|
    decreases |cur| - i
  {
    var s := NextChanged(cur, prev, i);
    if s == |cur| then []
    else
      var e := NextSame(cur, prev, s);
      [Segment(s - i, cur[s..e])] + Encode(cur, prev, e)
  }

  /** The first changed pixel from `i` on. */
  function NextChanged(cur: seq<word>, prev: seq<word>, i: nat): (s: nat)
    requires |cur| == |prev| && i <= |cur|
    ensures i <= s <= |cur| && (forall k :: i <= k < s ==> cur[k] == prev[k]) && (s < |cur| ==> cur[s] != prev[s])
    decreases |cur| - i
  {
    if i == |cur| || cur[i] != prev[i] then i else NextChanged(cur, prev, i + 1)
  }

  /** The first unchanged pixel from `i` on. */
  function NextSame(cur: seq<word>, prev: seq<word>, i: nat): (e: nat)
    requires |cur| == |prev| && i <= |cur|
    ensures i <= e <= |cur| && (forall k :: i <= k < e ==> cur[k] != prev[k]) && (e < |cur| ==> cur[e] == prev[e])
    ensures i < |cur| && cur[i] != prev[i] ==> e > i
    decreases |cur| - i
  {
    if i == |cur| || cur[i] == prev[i] then i else NextSame(cur, prev, i + 1)
  }

  function CountChanged(cur: seq<word>, prev: seq<word>, i: nat): nat
    requires |cur| == |prev| && i <= |cur|
    decreases |cur| - i
  {
    if i == |cur| then 0 else (if cur[i] != prev[i] then 1 else 0) + CountChanged(cur, prev, i + 1)
  }

  function CountLiterals(segs: seq<Segment>): nat {
    if segs == [] then 0 else |segs[0].lits| + CountLiterals(segs[1..])
  }

  lemma {:induction false} CountSkips(cur: seq<word>, prev: seq<word>, i: nat, s: nat)
    requires |cur| == |prev| && i <= s <= |cur| && forall k :: i <= k < s ==> cur[k] == prev[k]
    ensures CountChanged(cur, prev, i) == CountChanged(cur, prev, s)
    decreases s - i
  {
    if i < s {
      CountSkips(cur, prev, i + 1, s);
    }
  }

  lemma {:induction false} CountRun(cur: seq<word>, prev: seq<word>, s: nat, e: nat)
    requires |cur| == |prev| && s <= e <= |cur| && forall k :: s <= k < e ==> cur[k] != prev[k]
    ensures CountChanged(cur, prev, s) == e - s + CountChanged(cur, prev, e)
    decreases e - s
  {
    if s < e {
      CountRun(cur, prev, s + 1, e);
    }
  }

  /** The literals are exactly the changed pixels, no segment is empty, and only the first may skip nothing. */
  lemma {:induction false} EncodingIsTight(cur: seq<word>, prev: seq<word>, i: nat)
    requires |cur| == |prev| && i <= |cur|
    ensures var segs := Encode(cur, prev, i);
      && CountLiterals(segs) == CountChanged(cur, prev, i)
      && (forall k :: 0 <= k < |segs| ==> segs[k].lits != [])
      && (forall k :: 1 <= k < |segs| ==> segs[k].skip > 0)
      && (i < |cur| && cur[i] == prev[i] && segs != [] ==> segs[0].skip > 0)
    decreases |cur| - i
  {
    var s := NextChanged(cur, prev, i);
    CountSkips(cur, prev, i, s);
    if s < |cur| {
      var e := NextSame(cur, prev, s);
      CountRun(cur, prev, s, e);
      EncodingIsTight(cur, prev, e);
      var rest := Encode(cur, prev, e);
      assert Encode(cur, prev, i)[1..] == rest;
      assert e == |cur| ==> rest == [];
    }
  }

  /** The segments stay within the frame: skips and literals add up to no more than its pixels. */
  function Extent(segs: seq<Segment>): nat {
    if segs == [] then 0 else segs[0].skip + |segs[0].lits| + Extent(segs[1..])
  }

  lemma {:induction false} EncodingFits(cur: seq<word>, prev: seq<word>, i: nat)
    requires |cur| == |prev| && i <= |cur|
    ensures i + Extent(Encode(cur, prev, i)) <= |cur|
    decreases |cur| - i
  {
    var s := NextChanged(cur, prev, i);
    if s < |cur| {
      var e := NextSame(cur, prev, s);
      EncodingFits(cur, prev, e);
      assert Encode(cur, prev, i)[1..] == Encode(cur, prev, e);
    }
  }

  // ---- bytes ----

  /** `struct.pack('<II', …)` succeeds: both numbers are below 2^32. */
  predicate Packable(s: Segment) {
    s.skip < WORD_LIMIT && |s.lits| < WORD_LIMIT
  }

  function SegmentBytes(s: Segment): (b: seq<byte>)
    requires Packable(s)
    ensures |b| == 8 + 4 * |s.lits|
  {
    Le32(s.skip) + Le32(|s.lits|) + Words(s.lits)
  }

  predicate AllPackable(segs: seq<Segment>) {
    forall s :: s in segs ==> Packable(s)
  }

  function SegmentsBytes(segs: seq<Segment>): seq<byte>
    requires AllPackable(segs)
  {
    if segs == [] then [] else SegmentBytes(segs[0]) + SegmentsBytes(segs[1..])
  }

  lemma SegmentsBytesCons(s: Segment, rest: seq<Segment>)
    requires AllPackable([s] + rest)
    ensures Packable(s) && AllPackable(rest)
    ensures SegmentsBytes([s] + rest) == SegmentBytes(s) + SegmentsBytes(rest)
  {
    hide SegmentBytes, Packable;
    var all := [s] + rest;
    assert s in all && (forall x :: x in rest ==> x in all) && all[1..] == rest;
  }

  lemma {:induction false} SegmentsBytesAppend(segs: seq<Segment>, s: Segment)
    requires AllPackable(segs) && Packable(s)
    ensures AllPackable(segs + [s]) && SegmentsBytes(segs + [s]) == SegmentsBytes(segs) + SegmentBytes(s)
  {
    hide SegmentBytes;
    if segs == [] {
      assert SegmentsBytes([s]) == SegmentBytes(s) + [];
      assert [] + [s] == [s];
    } else {
      SegmentsBytesAppend(segs[1..], s);
      assert (segs + [s])[1..] == segs[1..] + [s];
    }
  }

  lemma {:induction false} SmallExtentPacks(segs: seq<Segment>)
    requires Extent(segs) < WORD_LIMIT
    ensures AllPackable(segs)
  {
    if segs != [] {
      SmallExtentPacks(segs[1..]);
      assert forall s :: s in segs ==> s == segs[0] || s in segs[1..];
    }
  }

  /** A frame of fewer than 2^32 pixels can always be packed. */
  lemma FramesPack(cur: seq<word>, prev: seq<word>)
    requires |cur| == |prev| < WORD_LIMIT
    ensures AllPackable(Encode(cur, prev, 0))
  {
    EncodingFits(cur, prev, 0);
    SmallExtentPacks(Encode(cur, prev, 0));
  }

  // ---- the encoder's loop ----

  function Bit(cur: seq<word>, prev: seq<word>, i: int): int
    requires |cur| == |prev|
  {
    if 0 <= i < |cur| && cur[i] != prev[i] then 1 else 0
  }

  /** `flatnonzero(d == v)` from index `i` on, for the differences of the padded change bits. */
  function Edges(cur: seq<word>, prev: seq<word>, v: int, i: nat): seq<nat>
    requires |cur| == |prev|
    decreases |cur| + 1 - i
  {
    if i > |cur| then []
    else (if Bit(cur, prev, i) - Bit(cur, prev, i - 1) == v then [i] else []) + Edges(cur, prev, v, i + 1)
  }

  /** No edge at the indices from `i` up to `j`. */
  predicate Steady(cur: seq<word>, prev: seq<word>, i: nat, j: nat)
    requires |cur| == |prev|
  {
    forall k {:trigger Bit(cur, prev, k)} :: i <= k < j ==> Bit(cur, prev, k) == Bit(cur, prev, k - 1)
  }

  lemma {:induction false} NoEdges(cur: seq<word>, prev: seq<word>, v: int, i: nat, j: nat)
    requires |cur| == |prev| && v != 0 && i <= j <= |cur| + 1 && Steady(cur, prev, i, j)
    ensures Edges(cur, prev, v, i) == Edges(cur, prev, v, j)
    decreases j - i
  {
    hide Bit, Steady;
    if i < j {
      SteadyStep(cur, prev, i, j);
      NoEdges(cur, prev, v, i + 1, j);
      assert [] + Edges(cur, prev, v, j) == Edges(cur, prev, v, j);
    }
  }

  lemma SteadyStep(cur: seq<word>, prev: seq<word>, i: nat, j: nat)
    requires |cur| == |prev| && i < j && Steady(cur, prev, i, j)
    ensures Bit(cur, prev, i) == Bit(cur, prev, i - 1) && Steady(cur, prev, i + 1, j)
  {
    hide Bit;
  }

  /** Between runs, the next rising and falling edges are the ends of the next run. */
  lemma EdgesAreRuns(cur: seq<word>, prev: seq<word>, i: nat)
    requires |cur| == |prev| && i <= |cur| && (i == 0 || i == |cur| || cur[i] == prev[i])
    ensures var s := NextChanged(cur, prev, i); var from := if i == 0 then 0 else i + 1;
      if s == |cur| then Edges(cur, prev, 1, from) == [] && Edges(cur, prev, -1, i + 1) == []
      else
        var e := NextSame(cur, prev, s);
        && Edges(cur, prev, 1, from) == [s] + Edges(cur, prev, 1, e + 1)
        && Edges(cur, prev, -1, i + 1) == [e] + Edges(cur, prev, -1, e + 1)
  {
    hide Edges, Bit, Steady, NextChanged, NextSame;
    var n, s := |cur|, NextChanged(cur, prev, i);
    SameBits(cur, prev, i, s);
    if s == n {
      NoRunLeft(cur, prev, 1, if i == 0 then 0 else i + 1);
      NoRunLeft(cur, prev, -1, i + 1);
    } else {
      var e := NextSame(cur, prev, s);
      ChangedBits(cur, prev, s, e);
      RunEdges(cur, prev, 1, if i == 0 then 0 else i + 1, s, e);
      RunEdges(cur, prev, -1, i + 1, s, e);
    }
  }

  lemma NoRunLeft(cur: seq<word>, prev: seq<word>, v: int, from: nat)
    requires |cur| == |prev| && v != 0 && from <= |cur| + 1 && Steady(cur, prev, from, |cur| + 1)
    ensures Edges(cur, prev, v, from) == []
  {
    hide Edges, Bit, Steady;
    NoEdges(cur, prev, v, from, |cur| + 1);
    NoneAfter(cur, prev, v);
  }

  /** A run from `s` to `e` rises at `s`, falls at `e` and has no other edge; a falling edge may be sought from
      just behind `s` on. */
  lemma RunEdges(cur: seq<word>, prev: seq<word>, v: int, from: nat, s: nat, e: nat)
    requires |cur| == |prev| && s < e <= |cur| && (v == 1 || v == -1) && from <= if v == 1 then s else s + 1
    requires Steady(cur, prev, from, s) && Steady(cur, prev, s + 1, e)
    requires Bit(cur, prev, s - 1) == 0 && Bit(cur, prev, s) == 1
    requires Bit(cur, prev, e - 1) == 1 && Bit(cur, prev, e) == 0
    ensures v == 1 ==> Edges(cur, prev, 1, from) == [s] + Edges(cur, prev, 1, e + 1)
    ensures v == -1 ==> Edges(cur, prev, -1, from) == [e] + Edges(cur, prev, -1, e + 1)
  {
    hide Edges, Bit, Steady;
    if from <= s {
      NoEdges(cur, prev, v, from, s);
      EdgeStep(cur, prev, v, s);
    }
    NoEdges(cur, prev, v, s + 1, e);
    EdgeStep(cur, prev, v, e);
  }

  lemma SameBits(cur: seq<word>, prev: seq<word>, i: nat, s: nat)
    requires |cur| == |prev| && i <= s <= |cur| && (i == 0 || i == |cur| || cur[i] == prev[i])
    requires (forall k :: i <= k < s ==> cur[k] == prev[k]) && (s < |cur| ==> cur[s] != prev[s])
    ensures var end := if s == |cur| then |cur| + 1 else s;
      Steady(cur, prev, if i == 0 then 0 else i + 1, end) && Steady(cur, prev, i + 1, end)
    ensures s < |cur| ==> Bit(cur, prev, s) == 1 && Bit(cur, prev, s - 1) == 0 && (i == 0 || i < s)
  {
  }

  lemma ChangedBits(cur: seq<word>, prev: seq<word>, s: nat, e: nat)
    requires |cur| == |prev| && s < e <= |cur| && (e < |cur| ==> cur[e] == prev[e])
    requires forall k :: s <= k < e ==> cur[k] != prev[k]
    ensures Steady(cur, prev, s + 1, e) && Bit(cur, prev, e - 1) == 1 && Bit(cur, prev, e) == 0
  {
  }

  lemma EdgeStep(cur: seq<word>, prev: seq<word>, v: int, i: nat)
    requires |cur| == |prev| && i <= |cur|
    ensures Edges(cur, prev, v, i) ==
      (if Bit(cur, prev, i) - Bit(cur, prev, i - 1) == v then [i] else []) + Edges(cur, prev, v, i + 1)
    ensures Bit(cur, prev, i) - Bit(cur, prev, i - 1) != v ==> Edges(cur, prev, v, i) == Edges(cur, prev, v, i + 1)
  {
    hide Bit;
  }

  lemma NoneAfter(cur: seq<word>, prev: seq<word>, v: int)
    requires |cur| == |prev|
    ensures Edges(cur, prev, v, |cur| + 1) == []
  {
  }

  /** Encodes one frame against the previous one; nothing when a number does not fit its 32-bit field. */
  method EncodeFrame(cur: seq<word>, prev: seq<word>) returns (seg: Option<seq<byte>>)
    requires |cur| == |prev|
    ensures seg == if AllPackable(Encode(cur, prev, 0)) then Some(SegmentsBytes(Encode(cur, prev, 0))) else None
  {
    hide Edges, Encode, SegmentBytes, SegmentsBytes, Packable, AllPackable, NextChanged, NextSame, Le32, Words;
    if cur == prev {
      NothingChanged(cur, prev);
      EmptyBytes();
      return Some([]);
    }
    var starts, ends := Edges(cur, prev, 1, 0), Edges(cur, prev, -1, 0);
    StartsOffEdge(cur, prev);
    var bytes: seq<byte> := [];
    var prevEnd, k := 0, 0;
    ghost var done: seq<Segment> := [];
    EmptyBytes();
    while k < |starts|
      invariant k <= |starts| && k <= |ends| && prevEnd <= |cur|
      invariant prevEnd == 0 || prevEnd == |cur| || cur[prevEnd] == prev[prevEnd]
      invariant starts[k..] == Edges(cur, prev, 1, if prevEnd == 0 then 0 else prevEnd + 1)
      invariant ends[k..] == Edges(cur, prev, -1, prevEnd + 1)
      invariant Encode(cur, prev, 0) == done + Encode(cur, prev, prevEnd)
      invariant AllPackable(done) && bytes == SegmentsBytes(done)
    {
      EdgesAreRuns(cur, prev, prevEnd);
      EncodeStep(cur, prev, prevEnd);
      assert starts[k] == starts[k..][0] && ends[k] == ends[k..][0];
      assert starts[k + 1..] == starts[k..][1..] && ends[k + 1..] == ends[k..][1..];
      var s, e := starts[k], ends[k];
      var skip, litlen := s - prevEnd, e - s;
      ghost var segment := Segment(skip, cur[s..e]);
      assert done + ([segment] + Encode(cur, prev, e)) == done + [segment] + Encode(cur, prev, e);
      if skip >= WORD_LIMIT || litlen >= WORD_LIMIT {
        NotPackable(Encode(cur, prev, 0), |done|);
        return None;
      }
      PackableIs(segment);
      SegmentsBytesAppend(done, segment);
      bytes := bytes + (Le32(skip) + Le32(litlen) + Words(cur[s..e]));
      done := done + [segment];
      prevEnd := e;
      k := k + 1;
    }
    EdgesAreRuns(cur, prev, prevEnd);
    EncodeStep(cur, prev, prevEnd);
    assert done + [] == done;
    return Some(bytes);
  }

  lemma EmptyBytes()
    ensures AllPackable([]) && SegmentsBytes([]) == []
  {
  }

  lemma NotPackable(segs: seq<Segment>, k: nat)
    requires k < |segs| && (segs[k].skip >= WORD_LIMIT || |segs[k].lits| >= WORD_LIMIT)
    ensures !AllPackable(segs)
  {
    assert segs[k] in segs;
  }

  lemma PackableIs(s: Segment)
    requires s.skip < WORD_LIMIT && |s.lits| < WORD_LIMIT
    ensures Packable(s) && SegmentBytes(s) == Le32(s.skip) + Le32(|s.lits|) + Words(s.lits)
  {
  }

  lemma NothingChanged(cur: seq<word>, prev: seq<word>)
    requires cur == prev
    ensures Encode(cur, prev, 0) == [] && SegmentsBytes([]) == []
  {
    var s := NextChanged(cur, prev, 0);
    assert s == |cur|;
  }

  /** No falling edge at index 0. */
  lemma StartsOffEdge(cur: seq<word>, prev: seq<word>)
    requires |cur| == |prev|
    ensures Edges(cur, prev, -1, 0) == Edges(cur, prev, -1, 1)
  {
    EdgeStep(cur, prev, -1, 0);
  }

  lemma EncodeStep(cur: seq<word>, prev: seq<word>, i: nat)
    requires |cur| == |prev| && i <= |cur|
    ensures var s := NextChanged(cur, prev, i);
      if s == |cur| then Encode(cur, prev, i) == []
      else
        var e := NextSame(cur, prev, s);
        Encode(cur, prev, i) == [Segment(s - i, cur[s..e])] + Encode(cur, prev, e)
  {
  }

  // ---- decoding ----

  /** Applies segment bytes to a frame from pixel `pos`; a bad segment stops with what was written so far. */
  function Apply(frame: seq<word>, npix: nat, pos: nat, seg: seq<byte>): (r: (seq<word>, bool))
    requires npix <= |frame|
    ensures |r.0| == |frame|
    decreases |seg|
  {
    if |seg| < 8 then (frame, true)
    else
      var p, n := pos + Rd32(seg, 0), Rd32(seg, 4);
      if p + n > npix || 8 + 4 * n > |seg| then (frame, false)
      else Apply(frame[..p] + ReadWords(seg[8..], n) + frame[p + n..], npix, p + n, seg[8 + 4 * n..])
  }

  /** One well-placed segment in front. */
  lemma ApplySegment(frame: seq<word>, npix: nat, pos: nat, s: Segment, rest: seq<byte>)
    requires npix <= |frame| && Packable(s) && pos + s.skip + |s.lits| <= npix
    ensures var p, q := pos + s.skip, pos + s.skip + |s.lits|;
      Apply(frame, npix, pos, SegmentBytes(s) + rest) == Apply(frame[..p] + s.lits + frame[q..], npix, q, rest)
  {
    hide Le32, Rd32, ReadWords, Words;
    var n := |s.lits|;
    var seg := SegmentBytes(s) + rest;
    var body := Words(s.lits) + rest;
    assert seg == Le32(s.skip) + (Le32(n) + body);
    WordReads(s.skip, Le32(n) + body);
    WordReads(n, body);
    ReadShifts(Le32(s.skip), Le32(n) + body, 0);
    assert seg[8..] == body && seg[8 + 4 * n..] == rest;
    WordsRead(s.lits, rest);
  }

  /** Decoding the encoding of `cur` against `prev` over `prev` gives `cur`, and leaves what lies behind the frame. */
  lemma {:induction false} DecodeInvertsEncode(cur: seq<word>, prev: seq<word>, tail: seq<word>, i: nat)
    requires |cur| == |prev| && i <= |cur| && AllPackable(Encode(cur, prev, i))
    ensures Apply(cur[..i] + prev[i..] + tail, |cur|, i, SegmentsBytes(Encode(cur, prev, i))) == (cur + tail, true)
    decreases |cur| - i
  {
    hide SegmentBytes, Packable, AllPackable, SegmentsBytes, Encode, Apply, NextChanged, NextSame;
    var n, s := |cur|, NextChanged(cur, prev, i);
    var frame := cur[..i] + prev[i..] + tail;
    EncodeStep(cur, prev, i);
    if s == n {
      EmptyBytes();
      assert frame == cur + tail;
      ApplyNothing(frame, n, i);
    } else {
      var e := NextSame(cur, prev, s);
      var (first, rest) := (Segment(s - i, cur[s..e]), Encode(cur, prev, e));
      SegmentsBytesCons(first, rest);
      ApplySegment(frame, n, i, first, SegmentsBytes(rest));
      FrameAdvances(cur, prev, tail, i, s, e);
      DecodeInvertsEncode(cur, prev, tail, e);
    }
  }

  lemma ApplyNothing(frame: seq<word>, npix: nat, pos: nat)
    requires npix <= |frame|
    ensures Apply(frame, npix, pos, []) == (frame, true)
  {
  }

  lemma FrameAdvances(cur: seq<word>, prev: seq<word>, tail: seq<word>, i: nat, s: nat, e: nat)
    requires |cur| == |prev| && i <= s <= e <= |cur| && forall k :: i <= k < s ==> cur[k] == prev[k]
    ensures var frame := cur[..i] + prev[i..] + tail;
      frame[..s] + cur[s..e] + frame[e..] == cur[..e] + prev[e..] + tail
  {
    var frame := cur[..i] + prev[i..] + tail;
    assert frame[..s] == cur[..s] && frame[e..] == prev[e..] + tail;
    assert cur[..s] + cur[s..e] == cur[..e];
  }

  lemma FrameRoundTrip(cur: seq<word>, prev: seq<word>, tail: seq<word>)
    requires |cur| == |prev| < WORD_LIMIT
    ensures AllPackable(Encode(cur, prev, 0))
    ensures Apply(prev + tail, |cur|, 0, SegmentsBytes(Encode(cur, prev, 0))) == (cur + tail, true)
  {
    hide AllPackable, SegmentsBytes, Encode, Apply;
    FramesPack(cur, prev);
    DecodeInvertsEncode(cur, prev, tail, 0);
    assert cur[..0] + prev[0..] + tail == prev + tail;
  }
}
