/**
 The theory of address-sorted, maximally coalesced free lists (desktop-metal/src/heap.rs:9-14),
 and the allocator seen as a transition system over the arena it divides up.
 */
module FreeLists {
  import opened MachineWords

  /** Bytes of the {size, next} header; also the least block size and alignment. */
  const HDR: usize := 16
  const ALIGN: usize := 16

  /** Every arena ends in the lower half of the address space, as any Rust object must. */
  const ADDRESS_LIMIT: nat := 0x8000_0000_0000_0000

  function AlignUp(x: usize, a: usize): usize
    requires a > 0
  {
    BitAnd(Wrap(x + a - 1), BitNot(a - 1))
  }

  function RoundBlock(size: usize): usize {
    AlignUp(if size < HDR then HDR else size, ALIGN)
  }

  function EffectiveAlign(align: usize): usize {
    if align < ALIGN then ALIGN else align
  }

  /** What `core::alloc::Layout` guarantees: a power of two, and a padded size of at most isize::MAX. */
  ghost predicate IsLayout(size: usize, align: usize) {
    (exists k: nat :: k <= 63 && align == Pow2(k)) && size + align <= ADDRESS_LIMIT
  }

  /** Away from the top of the address space, `AlignUp` finds the next multiple of `a`. */
  lemma AlignUpIsNextMultiple(x: usize, a: usize, k: nat)
    requires k <= 63 && a == Pow2(k) && x + a - 1 < WORD_RANGE
    ensures x <= AlignUp(x, a) < x + a
    ensures AlignUp(x, a) % a == 0
    ensures forall q: nat :: x <= q && q % a == 0 ==> AlignUp(x, a) <= q
  {
    AlignUpRounds(x, a, k);
    RoundingDown(x, a);
  }

  lemma AlignUpRounds(x: usize, a: usize, k: nat)
    requires k <= 63 && a == Pow2(k) && x + a - 1 < WORD_RANGE
    ensures AlignUp(x, a) == (x + a - 1) - (x + a - 1) % a
    ensures AlignUp(x, a) % a == 0
  {
    var y: usize := x + a - 1;
    WrapSmall(y);
    assert AlignUp(x, a) == BitAnd(y, BitNot(a - 1));
    MaskRoundsDown(y, k);
  }

  lemma RoundingDown(x: nat, a: nat)
    requires a > 0
    ensures var r := (x + a - 1) - (x + a - 1) % a;
      x <= r < x + a && forall q: nat :: x <= q && q % a == 0 ==> r <= q
  {
    var n := (x + a - 1) / a;
    forall q: nat | x <= q && q % a == 0
      ensures n * a <= q
    {
      var m := q / a;
      assert q == m * a;
      if m < n {
        ProductMonotone(m + 1, n, a);
      } else {
        ProductMonotone(n, m, a);
      }
    }
  }

  lemma EffectiveAlignIsPower(align: usize) returns (k: nat)
    requires exists k: nat :: k <= 63 && align == Pow2(k)
    ensures 4 <= k <= 63 && EffectiveAlign(align) == Pow2(k)
    ensures EffectiveAlign(align) % 16 == 0 && EffectiveAlign(align) % align == 0
  {
    assert Pow2(4) == 16;
    var j: nat :| j <= 63 && align == Pow2(j);
    k := if j < 4 then 4 else j;
    if j < 4 {
      assert Pow2(0) == 1 && Pow2(1) == 2 && Pow2(2) == 4 && Pow2(3) == 8;
    } else {
      Pow2Monotone(4, j);
      Pow2Sum(4, j - 4);
      RemainderUnique(align, 16, Pow2(j - 4), 0);
    }
  }

  lemma RoundBlockIsRoundedUp(size: usize)
    requires size <= ADDRESS_LIMIT
    ensures var n := RoundBlock(size); n % 16 == 0 && n >= 16 && n >= size && n <= size + 16
  {
    assert Pow2(4) == 16;
    AlignUpIsNextMultiple(if size < HDR then HDR else size, 16, 4);
  }

  /** The least block that holds a request: a multiple of 16, and not empty. */
  ghost predicate IsBlockSize(size: nat, n: nat) {
    && n % 16 == 0 && n >= 16 && n >= size
    && forall k: nat :: k % 16 == 0 && k >= 16 && k >= size ==> n <= k
  }

  /** For every layout `RoundBlock` finds the least block, and no other size is one. */
  lemma RoundBlockIsLeast(size: usize, n: nat)
    requires size <= ADDRESS_LIMIT
    ensures IsBlockSize(size, n) <==> n == RoundBlock(size)
  {
    hide RoundBlock;
    LeastBlock(size);
    var r := RoundBlock(size);
    if IsBlockSize(size, n) {
      assert n <= r && r <= n;
    }
  }

  lemma LeastBlock(size: usize)
    requires size <= ADDRESS_LIMIT
    ensures IsBlockSize(size, RoundBlock(size))
  {
    hide AlignUp;
    var s: usize := if size < HDR then HDR else size;
    RoundBlockIsRoundedUp(size);
    Pow2At4();
    AlignUpIsNextMultiple(s, 16, 4);
    forall k: nat | k % 16 == 0 && k >= 16 && k >= size
      ensures RoundBlock(size) <= k
    {
      assert s <= k;
    }
  }

  /** The rounded size holds the request exactly when the rounding does not wrap around. */
  lemma RoundBlockHoldsRequest(size: usize)
    ensures RoundBlock(size) >= size <==> size <= WORD_RANGE - 16
  {
    assert Pow2(4) == 16;
    var s: usize := if size < HDR then HDR else size;
    if size <= WORD_RANGE - 16 {
      AlignUpIsNextMultiple(s, 16, 4);
    } else {
      assert Wrap(s + 15) < 16;
      MaskRoundsDown(Wrap(s + 15), 4);
    }
  }

  function TruncateToGranule(size: usize): (r: usize)
    ensures r == size - size % 16
  {
    assert Pow2(4) == 16;
    MaskRoundsDown(size, 4);
    BitAnd(size, BitNot(ALIGN - 1))
  }

  datatype Block = Block(addr: nat, size: nat) {
    function End(): nat { addr + size }

    predicate Holds(a: int) { addr <= a < addr + size }

    predicate Granular() { addr % 16 == 0 && size % 16 == 0 && size >= 16 }
  }

  ghost predicate Covers(bs: seq<Block>, a: int) {
    exists i :: 0 <= i < |bs| && bs[i].Holds(a)
  }

  /** Ascending, 16-granular, and with a gap between any two blocks. */
  ghost predicate Canonical(bs: seq<Block>) {
    && (forall i :: 0 <= i < |bs| ==> bs[i].Granular())
    && (forall i, j :: 0 <= i < j < |bs| ==> bs[i].End() < bs[j].addr)
  }

  ghost predicate SameCover(bs: seq<Block>, cs: seq<Block>) {
    forall a :: Covers(bs, a) <==> Covers(cs, a)
  }

  /** A canonical list is determined by the bytes it covers. */
  lemma {:induction false} CanonicalIsUnique(bs: seq<Block>, cs: seq<Block>)
    requires Canonical(bs) && Canonical(cs) && SameCover(bs, cs)
    ensures bs == cs
  {
    assert bs != [] ==> bs[0].Holds(bs[0].addr) && Covers(bs, bs[0].addr);
    assert cs != [] ==> cs[0].Holds(cs[0].addr) && Covers(cs, cs[0].addr);
    if bs != [] && cs != [] {
      FirstBlockWithin(bs, cs);
      FirstBlockWithin(cs, bs);
      forall a
        ensures Covers(bs[1..], a) <==> Covers(cs[1..], a)
      {
        CoversTail(bs, a);
        CoversTail(cs, a);
        assert Covers(bs, a) <==> Covers(cs, a);
      }
      CanonicalIsUnique(bs[1..], cs[1..]);
      assert bs == [bs[0]] + bs[1..] && cs == [cs[0]] + cs[1..];
    }
  }

  lemma CoversTail(bs: seq<Block>, a: int)
    requires Canonical(bs) && bs != []
    ensures Covers(bs[1..], a) <==> Covers(bs, a) && !bs[0].Holds(a)
  {
    if Covers(bs, a) && !bs[0].Holds(a) {
      var i :| 0 <= i < |bs| && bs[i].Holds(a);
      assert bs[1..][i - 1].Holds(a);
    }
  }

  lemma FirstBlockWithin(bs: seq<Block>, cs: seq<Block>)
    requires Canonical(bs) && Canonical(cs) && SameCover(bs, cs)
    requires bs != [] && cs != []
    ensures cs[0].addr <= bs[0].addr
    ensures cs[0].addr == bs[0].addr ==> cs[0].size <= bs[0].size
  {
    assert bs[0].Holds(bs[0].addr) && Covers(bs, bs[0].addr);
    assert Covers(cs, bs[0].addr);
    if cs[0].addr == bs[0].addr && cs[0].size > bs[0].size {
      var a := bs[0].End();
      assert cs[0].Holds(a);
      assert Covers(cs, a);
    }
  }

  function Total(bs: seq<Block>): nat {
    if bs == [] then 0 else bs[0].size + Total(bs[1..])
  }

  ghost predicate Disjoint(bs: seq<Block>) {
    forall i, j :: 0 <= i < j < |bs| ==> bs[i].End() <= bs[j].addr || bs[j].End() <= bs[i].addr
  }

  function RemoveAt(bs: seq<Block>, k: nat): seq<Block>
    requires k < |bs|
  {
    bs[..k] + bs[k + 1..]
  }

  lemma {:induction false} TotalRemoveAt(bs: seq<Block>, k: nat)
    requires k < |bs|
    ensures Total(RemoveAt(bs, k)) == Total(bs) - bs[k].size
  {
    if k == 0 {
      assert RemoveAt(bs, 0) == bs[1..];
    } else {
      TotalRemoveAt(bs[1..], k - 1);
      assert RemoveAt(bs, k) == [bs[0]] + RemoveAt(bs[1..], k - 1);
    }
  }

  lemma {:induction false} TotalAppend(bs: seq<Block>, b: Block)
    ensures Total(bs + [b]) == Total(bs) + b.size
  {
    assert RemoveAt(bs + [b], |bs|) == bs;
    TotalRemoveAt(bs + [b], |bs|);
  }

  ghost function Interval(lo: int, hi: int): (r: set<int>)
    requires lo <= hi
    ensures forall a :: a in r <==> lo <= a < hi
    ensures |r| == hi - lo
    decreases hi - lo
  {
    if lo == hi then {} else Interval(lo, hi - 1) + {hi - 1}
  }

  ghost function Footprint(bs: seq<Block>): set<int> {
    if bs == [] then {} else Interval(bs[0].addr, bs[0].End()) + Footprint(bs[1..])
  }

  lemma {:induction false} FootprintIsCover(bs: seq<Block>, a: int)
    ensures a in Footprint(bs) <==> Covers(bs, a)
  {
    if bs != [] {
      FootprintIsCover(bs[1..], a);
      if Covers(bs, a) {
        var i :| 0 <= i < |bs| && bs[i].Holds(a);
        assert i > 0 ==> bs[1..][i - 1].Holds(a);
      }
    }
  }

  /** Disjoint blocks hold as many bytes as their sizes add up to. */
  lemma {:induction false} FootprintSize(bs: seq<Block>)
    requires Disjoint(bs)
    ensures |Footprint(bs)| == Total(bs)
  {
    if bs != [] {
      var head, rest := Interval(bs[0].addr, bs[0].End()), Footprint(bs[1..]);
      forall a | a in rest
        ensures a !in head
      {
        FootprintIsCover(bs[1..], a);
        var i :| 0 <= i < |bs[1..]| && bs[1..][i].Holds(a);
        assert bs[1..][i] == bs[i + 1];
      }
      assert head * rest == {};
      FootprintSize(bs[1..]);
    }
  }

  /** The arena [base, end), its free list in list order, and the live regions in allocation order. */
  datatype Arena = Arena(base: nat, end: nat, free: seq<Block>, regions: seq<Block>)

  ghost predicate WithinArena(bs: seq<Block>, s: Arena) {
    forall i :: 0 <= i < |bs| ==> bs[i].Granular() && s.base <= bs[i].addr && bs[i].End() <= s.end
  }

  /** The invariant: a canonical free list and disjoint live regions, each byte in exactly one of them. */
  ghost predicate Tiled(s: Arena) {
    && 0 < s.base < s.end <= ADDRESS_LIMIT && s.base % 16 == 0 && s.end % 16 == 0
    && Canonical(s.free) && WithinArena(s.free, s)
    && WithinArena(s.regions, s) && Disjoint(s.regions)
    && (forall a :: s.base <= a < s.end ==> (Covers(s.free, a) <==> !Covers(s.regions, a)))
  }

  ghost predicate IsInitial(s: Arena) {
    && 0 < s.base < s.end <= ADDRESS_LIMIT && s.base % 16 == 0 && s.end % 16 == 0
    && s.free == [Block(s.base, s.end - s.base)] && s.regions == []
  }

  /** `n` consecutive free bytes from address `q`. */
  ghost predicate FreeRun(free: seq<Block>, q: nat, n: nat) {
    forall a :: q <= a < q + n ==> Covers(free, a)
  }

  /**
   An allocation takes the lowest suitably aligned run of free bytes, and answers 0 only when there is none.
   Nothing else about the arena changes.
   */
  ghost predicate AllocStep(s: Arena, size: usize, align: usize, p: nat, s': Arena) {
    var need, al := RoundBlock(size), EffectiveAlign(align);
    if p == 0 then
      s' == s && (forall q: nat :: q % al == 0 ==> !FreeRun(s.free, q, need))
    else
      && p % al == 0 && FreeRun(s.free, p, need)
      && (forall q: nat :: q < p && q % al == 0 ==> !FreeRun(s.free, q, need))
      && s'.base == s.base && s'.end == s.end
      && s'.regions == s.regions + [Block(p, need)]
      && Canonical(s'.free)
      && (forall a :: Covers(s'.free, a) <==> Covers(s.free, a) && !Block(p, need).Holds(a))
  }

  /** An address that serves a request: on the allocator's granule and aligned as asked. */
  predicate Serves(q: nat, align: usize)
    requires align > 0
  {
    q % 16 == 0 && q % align == 0
  }

  /**
   What a request gets, in its own terms: the lowest aligned address where the least block that holds it is free, or
   nothing, if there is no such address.
   */
  ghost predicate TakesLeast(s: Arena, size: usize, align: usize, p: nat, s': Arena)
    requires align > 0
  {
    exists n: nat :: IsBlockSize(size, n) && TakesLowest(s, n, align, p, s')
  }

  ghost predicate TakesLowest(s: Arena, n: nat, align: usize, p: nat, s': Arena)
    requires align > 0
  {
    if p == 0 then s' == s && forall q: nat :: Serves(q, align) ==> !FreeRun(s.free, q, n)
    else
      && Serves(p, align) && FreeRun(s.free, p, n)
      && (forall q: nat :: q < p && Serves(q, align) ==> !FreeRun(s.free, q, n))
      && s'.regions == s.regions + [Block(p, n)]
  }

  lemma AllocTakesLeast(s: Arena, size: usize, align: usize, p: nat, s': Arena)
    requires IsLayout(size, align) && AllocStep(s, size, align, p, s')
    ensures align > 0 && TakesLeast(s, size, align, p, s')
  {
    hide RoundBlock, EffectiveAlign, FreeRun, IsBlockSize, Serves, Canonical;
    var need := RoundBlock(size);
    LayoutPositive(size, align);
    LeastBlock(size);
    forall q: nat
      ensures Serves(q, align) <==> q % EffectiveAlign(align) == 0
    {
      ServesIsAligned(q, size, align);
    }
    assert TakesLowest(s, need, align, p, s');
  }

  lemma LayoutPositive(size: usize, align: usize)
    requires IsLayout(size, align)
    ensures align > 0 && EffectiveAlign(align) > 0 && size <= ADDRESS_LIMIT
  {
    var k := EffectiveAlignIsPower(align);
  }

  lemma ServesIsAligned(q: nat, size: usize, align: usize)
    requires IsLayout(size, align) && align > 0 && EffectiveAlign(align) > 0
    ensures Serves(q, align) <==> q % EffectiveAlign(align) == 0
  {
    var k := EffectiveAlignIsPower(align);
    if q % EffectiveAlign(align) == 0 {
      RemainderOfMultiple(q, EffectiveAlign(align), align);
      RemainderOfMultiple(q, EffectiveAlign(align), 16);
    }
  }

  /** Freeing region `k` returns exactly its bytes to the free list. */
  ghost predicate DeallocStep(s: Arena, k: nat, s': Arena)
    requires k < |s.regions|
  {
    && s'.base == s.base && s'.end == s.end
    && s'.regions == RemoveAt(s.regions, k)
    && Canonical(s'.free)
    && (forall a :: Covers(s'.free, a) <==> Covers(s.free, a) || s.regions[k].Holds(a))
  }

  lemma CoverInArena(bs: seq<Block>, s: Arena)
    requires Canonical(bs) && s.base % 16 == 0
    requires forall a :: Covers(bs, a) ==> s.base <= a < s.end
    ensures WithinArena(bs, s)
  {
    forall i | 0 <= i < |bs|
      ensures s.base <= bs[i].addr && bs[i].End() <= s.end
    {
      assert bs[i].Holds(bs[i].addr) && bs[i].Holds(bs[i].End() - 1);
      assert Covers(bs, bs[i].addr) && Covers(bs, bs[i].End() - 1);
    }
  }

  lemma NoSharedByte(b: Block, c: Block)
    requires b.size > 0 && c.size > 0 && forall a :: b.Holds(a) ==> !c.Holds(a)
    ensures b.End() <= c.addr || c.End() <= b.addr
  {
    assert !b.Holds(c.addr) || !c.Holds(c.addr);
    assert !b.Holds(b.addr) || !c.Holds(b.addr);
  }

  lemma DisjointByte(bs: seq<Block>, j: nat, k: nat, a: int)
    requires Disjoint(bs) && j < |bs| && k < |bs| && j != k && bs[j].Holds(a)
    ensures !bs[k].Holds(a)
  {
    var (lo, hi) := if j < k then (j, k) else (k, j);
    assert bs[lo].End() <= bs[hi].addr || bs[hi].End() <= bs[lo].addr;
  }

  lemma CoversAppend(bs: seq<Block>, b: Block, a: int)
    ensures Covers(bs + [b], a) <==> Covers(bs, a) || b.Holds(a)
  {
    if Covers(bs, a) {
      var i :| 0 <= i < |bs| && bs[i].Holds(a);
      assert (bs + [b])[i].Holds(a);
    }
    if b.Holds(a) {
      assert (bs + [b])[|bs|].Holds(a);
    }
  }

  lemma CoversRemoveAt(bs: seq<Block>, k: nat, a: int)
    requires k < |bs| && Disjoint(bs)
    ensures Covers(RemoveAt(bs, k), a) <==> Covers(bs, a) && !bs[k].Holds(a)
  {
    hide Disjoint, Block.Holds;
    var cs := RemoveAt(bs, k);
    if i :| 0 <= i < |cs| && cs[i].Holds(a) {
      var j := if i < k then i else i + 1;
      assert bs[j].Holds(a);
      DisjointByte(bs, j, k, a);
    }
    if i :| 0 <= i < |bs| && bs[i].Holds(a) && i != k {
      var j := if i < k then i else i - 1;
      assert cs[j].Holds(a);
    }
  }

  lemma InitialIsTiled(s: Arena)
    requires IsInitial(s)
    ensures Tiled(s)
  {
    forall a | s.base <= a < s.end
      ensures Covers(s.free, a)
    {
      assert s.free[0].Holds(a);
    }
  }

  lemma AllocKeepsTiled(s: Arena, size: usize, align: usize, p: nat, s': Arena)
    requires Tiled(s) && IsLayout(size, align) && AllocStep(s, size, align, p, s')
    ensures Tiled(s')
    ensures p != 0 ==> p % EffectiveAlign(align) == 0 && p % align == 0
    ensures p != 0 ==> s.base <= p && p + size <= p + RoundBlock(size) <= s.end
    ensures p != 0 ==> forall i :: 0 <= i < |s.regions| ==>
              p + RoundBlock(size) <= s.regions[i].addr || s.regions[i].End() <= p
  {
    if p != 0 {
      RoundBlockIsRoundedUp(size);
      var k := EffectiveAlignIsPower(align);
      var b := Block(p, RoundBlock(size));
      var m := RunWithinBlock(s.free, p, b.size);
      RemainderOfMultiple(p, EffectiveAlign(align), align);
      assert b.Granular() by { RemainderOfMultiple(p, EffectiveAlign(align), 16); }
      forall i | 0 <= i < |s.regions|
        ensures b.End() <= s.regions[i].addr || s.regions[i].End() <= p
      {
        forall a | b.Holds(a)
          ensures !s.regions[i].Holds(a)
        {
          assert Covers(s.free, a);
          assert s.regions[i].Holds(a) ==> Covers(s.regions, a);
        }
        NoSharedByte(b, s.regions[i]);
      }
      forall a | s.base <= a < s.end
        ensures Covers(s'.free, a) <==> !Covers(s'.regions, a)
      {
        CoversAppend(s.regions, b, a);
      }
      forall a | Covers(s'.free, a)
        ensures s.base <= a < s.end
      {
        assert Covers(s.free, a);
      }
      CoverInArena(s'.free, s');
    }
  }

  lemma RemainderOfMultiple(p: nat, al: nat, align: nat)
    requires al > 0 && align > 0 && p % al == 0 && al % align == 0
    ensures p % align == 0
  {
    var m, n := p / al, al / align;
    assert p == m * al && al == n * align;
    assert p == (m * n) * align;
    RemainderUnique(p, align, m * n, 0);
  }

  lemma DeallocKeepsTiled(s: Arena, k: nat, s': Arena)
    requires Tiled(s) && k < |s.regions| && DeallocStep(s, k, s')
    ensures Tiled(s')
  {
    forall a | s.base <= a < s.end
      ensures Covers(s'.free, a) <==> !Covers(s'.regions, a)
    {
      CoversRemoveAt(s.regions, k, a);
      assert s.regions[k].Holds(a) ==> Covers(s.regions, a);
    }
    CoverInArena(s'.free, s');
  }

  /** A run of free bytes never spans two blocks of a coalesced list. */
  lemma RunWithinBlock(free: seq<Block>, q: nat, n: nat) returns (i: nat)
    requires Canonical(free) && n > 0 && FreeRun(free, q, n)
    ensures i < |free| && free[i].addr <= q && q + n <= free[i].End()
  {
    assert Covers(free, q);
    i :| 0 <= i < |free| && free[i].Holds(q);
    assert free[i].End() < q + n ==> Covers(free, free[i].End());
  }

  /** `bs` with its blocks from `i` up to `j` replaced by `mid`. */
  function Splice(bs: seq<Block>, i: nat, mid: seq<Block>, j: nat): seq<Block>
    requires i <= j <= |bs|
  {
    bs[..i] + mid + bs[j..]
  }

  lemma SpliceKeepsCanonical(bs: seq<Block>, i: nat, mid: seq<Block>, j: nat)
    requires i <= j <= |bs| && Canonical(bs) && Canonical(mid)
    requires forall k :: 0 <= k < |mid| ==> i > 0 ==> bs[i - 1].End() < mid[k].addr
    requires forall k :: 0 <= k < |mid| ==> j < |bs| ==> mid[k].End() < bs[j].addr
    ensures Canonical(Splice(bs, i, mid, j))
  {
    var cs := Splice(bs, i, mid, j);
    forall k, l | 0 <= k < l < |cs|
      ensures cs[k].End() < cs[l].addr
    {
      assert k < i ==> cs[k] == bs[k] && (k < i - 1 ==> bs[k].End() < bs[i - 1].addr);
      assert l >= i + |mid| ==> cs[l] == bs[l - i - |mid| + j];
      assert k >= i + |mid| ==> cs[k] == bs[k - i - |mid| + j];
    }
  }

  lemma CoversConcat(bs: seq<Block>, cs: seq<Block>, a: int)
    ensures Covers(bs + cs, a) <==> Covers(bs, a) || Covers(cs, a)
  {
    if i :| 0 <= i < |bs| && bs[i].Holds(a) {
      assert (bs + cs)[i].Holds(a);
    }
    if i :| 0 <= i < |cs| && cs[i].Holds(a) {
      assert (bs + cs)[|bs| + i].Holds(a);
    }
  }

  lemma CoversSplice(bs: seq<Block>, i: nat, mid: seq<Block>, j: nat, a: int)
    requires i <= j <= |bs|
    ensures Covers(Splice(bs, i, mid, j), a) <==> Covers(bs[..i], a) || Covers(mid, a) || Covers(bs[j..], a)
    ensures Covers(bs, a) <==> Covers(bs[..i], a) || Covers(bs[i..j], a) || Covers(bs[j..], a)
  {
    CoversConcat(bs[..i], mid, a);
    CoversConcat(bs[..i] + mid, bs[j..], a);
    CoversConcat(bs[..i], bs[i..j], a);
    CoversConcat(bs[..i] + bs[i..j], bs[j..], a);
    assert bs == bs[..i] + bs[i..j] + bs[j..];
  }

  /** What is left of a free block once [p, p + need) is taken out of it. */
  function Gaps(b: Block, p: nat, need: nat): seq<Block>
    requires b.addr <= p && p + need <= b.End()
  {
    (if p - b.addr >= HDR then [Block(b.addr, p - b.addr)] else []) +
    (if b.End() - (p + need) >= HDR then [Block(p + need, b.End() - (p + need))] else [])
  }

  lemma GapsCover(b: Block, p: nat, need: nat, a: int)
    requires b.Granular() && p % 16 == 0 && need % 16 == 0 && need > 0
    requires b.addr <= p && p + need <= b.End()
    ensures Covers(Gaps(b, p, need), a) <==> b.Holds(a) && !Block(p, need).Holds(a)
  {
    var gs := Gaps(b, p, need);
    assert p > b.addr ==> gs[0] == Block(b.addr, p - b.addr);
    assert b.End() > p + need ==> gs[|gs| - 1] == Block(p + need, b.End() - (p + need));
    if b.Holds(a) && !Block(p, need).Holds(a) {
      assert gs[0].Holds(a) || gs[|gs| - 1].Holds(a);
    }
  }

  lemma GapsShape(b: Block, p: nat, need: nat)
    requires b.Granular() && p % 16 == 0 && need % 16 == 0 && need > 0
    requires b.addr <= p && p + need <= b.End()
    ensures var gs := Gaps(b, p, need);
      Canonical(gs) && forall k :: 0 <= k < |gs| ==> b.addr <= gs[k].addr && gs[k].End() <= b.End()
  {
    GranuleSum(p, need);
    GranuleSum(b.addr, b.size);
    GranuleDifference(p, b.addr);
    GranuleDifference(b.End(), p + need);
  }

  lemma GranuleSum(a: nat, n: nat)
    requires a % 16 == 0 && n % 16 == 0
    ensures (a + n) % 16 == 0
  {
  }

  lemma GranuleDifference(a: nat, n: nat)
    requires a % 16 == 0 && n % 16 == 0 && n <= a
    ensures (a - n) % 16 == 0
  {
  }

  lemma CarveCovers(bs: seq<Block>, i: nat, p: nat, need: nat)
    requires i < |bs| && Canonical(bs) && p % 16 == 0 && need % 16 == 0 && need > 0
    requires bs[i].addr <= p && p + need <= bs[i].End()
    ensures var cs := Splice(bs, i, Gaps(bs[i], p, need), i + 1);
      Canonical(cs) && forall a :: Covers(cs, a) <==> Covers(bs, a) && !Block(p, need).Holds(a)
  {
    hide Gaps, Splice;
    GapsShape(bs[i], p, need);
    SpliceKeepsCanonical(bs, i, Gaps(bs[i], p, need), i + 1);
    forall a
      ensures Covers(Splice(bs, i, Gaps(bs[i], p, need), i + 1), a) <==> Covers(bs, a) && !Block(p, need).Holds(a)
    {
      CarveCoversByte(bs, i, p, need, a);
    }
  }

  lemma CarveCoversByte(bs: seq<Block>, i: nat, p: nat, need: nat, a: int)
    requires i < |bs| && Canonical(bs) && p % 16 == 0 && need % 16 == 0 && need > 0
    requires bs[i].addr <= p && p + need <= bs[i].End()
    ensures Covers(Splice(bs, i, Gaps(bs[i], p, need), i + 1), a) <==> Covers(bs, a) && !Block(p, need).Holds(a)
  {
    CoversSplice(bs, i, Gaps(bs[i], p, need), i + 1, a);
    assert Covers(Gaps(bs[i], p, need), a) <==> bs[i].Holds(a) && !Block(p, need).Holds(a) by {
      GapsCover(bs[i], p, need, a);
    }
    CoversSingle(bs, i, a);
    if bs[i].Holds(a) {
      OtherBlocksMiss(bs, i, a);
    }
  }

  lemma CoversSingle(bs: seq<Block>, i: nat, a: int)
    requires i < |bs|
    ensures Covers(bs[i..i + 1], a) <==> bs[i].Holds(a)
  {
    assert bs[i..i + 1][0] == bs[i];
  }

  lemma OtherBlocksMiss(bs: seq<Block>, i: nat, a: int)
    requires i < |bs| && Canonical(bs) && bs[i].Holds(a)
    ensures !Covers(bs[..i], a) && !Covers(bs[i + 1..], a)
  {
    var rest := bs[i + 1..];
    forall k | 0 <= k < |rest|
      ensures !rest[k].Holds(a)
    {
      assert rest[k] == bs[i + 1 + k];
    }
  }

  /** Growing by one region: `mid` is the freed region joined with the blocks `i..j` it touches. */
  lemma MergeCovers(bs: seq<Block>, i: nat, mid: Block, j: nat, freed: Block)
    requires i <= j <= |bs| && Canonical(bs) && mid.Granular()
    requires i > 0 ==> bs[i - 1].End() < mid.addr
    requires j < |bs| ==> mid.End() < bs[j].addr
    requires forall a :: mid.Holds(a) <==> freed.Holds(a) || Covers(bs[i..j], a)
    ensures var cs := Splice(bs, i, [mid], j);
      Canonical(cs) && forall a :: Covers(cs, a) <==> Covers(bs, a) || freed.Holds(a)
  {
    SpliceKeepsCanonical(bs, i, [mid], j);
    forall a
      ensures Covers(Splice(bs, i, [mid], j), a) <==> Covers(bs, a) || freed.Holds(a)
    {
      CoversSplice(bs, i, [mid], j, a);
      assert Covers([mid], a) <==> mid.Holds(a) by { assert [mid][0] == mid; }
    }
  }

  ghost predicate Fits(b: Block, need: nat, al: usize)
    requires al > 0 && b.addr < WORD_RANGE
  {
    AlignUp(b.addr, al) + need <= b.End()
  }

  /** None of the sums in `alloc` overflows a 64-bit word. */
  lemma PlacementInRange(addr: nat, size: usize, align: usize)
    requires IsLayout(size, align) && addr % 16 == 0 && addr + 16 <= ADDRESS_LIMIT
    ensures var al, need := EffectiveAlign(align), RoundBlock(size);
      && addr <= AlignUp(addr, al) && AlignUp(addr, al) + need < WORD_RANGE
      && AlignUp(addr, al) % al == 0 && AlignUp(addr, al) % 16 == 0
      && forall q: nat :: addr <= q && q % al == 0 ==> AlignUp(addr, al) <= q
  {
    var k := EffectiveAlignIsPower(align);
    var al := EffectiveAlign(align);
    RoundBlockIsRoundedUp(size);
    var j: nat :| j <= 63 && align == Pow2(j);
    Pow2Monotone(j, 63);
    Pow2At64();
    AlignUpIsNextMultiple(addr, al, k);
    RemainderOfMultiple(AlignUp(addr, al), al, 16);
  }

  /** The first block that fits holds the lowest aligned free run. */
  lemma FirstFitIsLowest(s: Arena, size: usize, align: usize, i: nat)
    requires Tiled(s) && IsLayout(size, align) && i <= |s.free|
    requires var al, need := EffectiveAlign(align), RoundBlock(size);
      && (forall j :: 0 <= j < i ==> !Fits(s.free[j], need, al))
      && (i < |s.free| ==> Fits(s.free[i], need, al))
    ensures var al, need := EffectiveAlign(align), RoundBlock(size);
      forall q: nat :: q % al == 0 && FreeRun(s.free, q, need) ==> i < |s.free| && AlignUp(s.free[i].addr, al) <= q
  {
    var al, need := EffectiveAlign(align), RoundBlock(size);
    RoundBlockIsRoundedUp(size);
    forall q: nat | q % al == 0 && FreeRun(s.free, q, need)
      ensures i < |s.free| && AlignUp(s.free[i].addr, al) <= q
    {
      var j := RunWithinBlock(s.free, q, need);
      PlacementInRange(s.free[j].addr, size, align);
      assert Fits(s.free[j], need, al);
      assert i < j ==> s.free[i].End() < s.free[j].addr;
    }
  }

  lemma FirstFitAllocates(s: Arena, size: usize, align: usize, i: nat, s': Arena)
    requires Tiled(s) && IsLayout(size, align) && i < |s.free|
    requires var al, need := EffectiveAlign(align), RoundBlock(size);
      && (forall j :: 0 <= j < i ==> !Fits(s.free[j], need, al)) && Fits(s.free[i], need, al)
      && var p := AlignUp(s.free[i].addr, al);
      && s.free[i].addr <= p
      && s' == s.(free := Splice(s.free, i, Gaps(s.free[i], p, need), i + 1), regions := s.regions + [Block(p, need)])
    ensures AllocStep(s, size, align, AlignUp(s.free[i].addr, EffectiveAlign(align)), s')
  {
    hide AlignUp, RoundBlock;
    var al, need := EffectiveAlign(align), RoundBlock(size);
    var p := AlignUp(s.free[i].addr, al);
    RoundBlockIsRoundedUp(size);
    PlacementInRange(s.free[i].addr, size, align);
    CarveCovers(s.free, i, p, need);
    FirstFitIsLowest(s, size, align, i);
    assert FreeRun(s.free, p, need) by {
      assert forall a :: p <= a < p + need ==> s.free[i].Holds(a);
    }
  }

  lemma NothingFits(s: Arena, size: usize, align: usize)
    requires Tiled(s) && IsLayout(size, align)
    requires forall j :: 0 <= j < |s.free| ==> !Fits(s.free[j], RoundBlock(size), EffectiveAlign(align))
    ensures AllocStep(s, size, align, 0, s)
  {
    FirstFitIsLowest(s, size, align, |s.free|);
  }

  /** Block `i` is the first free block above live region `k`. */
  ghost predicate FirstAbove(s: Arena, k: nat, i: nat)
    requires k < |s.regions| && i <= |s.free|
  {
    && (forall j :: 0 <= j < i ==> s.free[j].addr < s.regions[k].addr)
    && (i < |s.free| ==> s.regions[k].addr <= s.free[i].addr)
  }

  lemma RegionBetween(s: Arena, k: nat, i: nat)
    requires Tiled(s) && k < |s.regions| && i <= |s.free| && FirstAbove(s, k, i)
    ensures var r := s.regions[k];
      && s.base <= r.addr && r.End() <= s.end && r.Granular()
      && (i > 0 ==> s.free[i - 1].End() <= r.addr) && (i < |s.free| ==> r.End() <= s.free[i].addr)
  {
    if i > 0 {
      FreeApartFromRegion(s, k, i - 1);
    }
    if i < |s.free| {
      FreeApartFromRegion(s, k, i);
    }
  }

  lemma FreeApartFromRegion(s: Arena, k: nat, i: nat)
    requires Tiled(s) && k < |s.regions| && i < |s.free|
    ensures s.free[i].End() <= s.regions[k].addr || s.regions[k].End() <= s.free[i].addr
  {
    forall a | s.free[i].Holds(a)
      ensures !s.regions[k].Holds(a)
    {
      assert Covers(s.free, a);
      assert s.regions[k].Holds(a) ==> Covers(s.regions, a);
    }
    NoSharedByte(s.free[i], s.regions[k]);
  }

  /** The region joined with the free neighbours it touches. */
  function Merged(s: Arena, k: nat, i: nat): (r: (nat, Block, nat))
    requires k < |s.regions| && i <= |s.free|
    ensures r.0 <= i <= r.2 <= |s.free|
  {
    var r := s.regions[k];
    var below, above := i > 0 && s.free[i - 1].End() == r.addr, i < |s.free| && r.End() == s.free[i].addr;
    var size := (if below then s.free[i - 1].size else 0) + r.size + (if above then s.free[i].size else 0);
    (if below then i - 1 else i, Block(if below then s.free[i - 1].addr else r.addr, size), if above then i + 1 else i)
  }

  lemma MergedGranular(s: Arena, k: nat, i: nat)
    requires k < |s.regions| && i <= |s.free|
    requires s.regions[k].Granular() && (i > 0 ==> s.free[i - 1].Granular()) && (i < |s.free| ==> s.free[i].Granular())
    ensures Merged(s, k, i).1.Granular()
  {
  }

  lemma MergedShape(s: Arena, k: nat, i: nat)
    requires Tiled(s) && k < |s.regions| && i <= |s.free| && FirstAbove(s, k, i)
    ensures var (lo, mid, hi) := Merged(s, k, i);
      && mid.Granular() && s.base <= mid.addr && mid.End() <= s.end
      && (lo > 0 ==> s.free[lo - 1].End() < mid.addr) && (hi < |s.free| ==> mid.End() < s.free[hi].addr)
  {
    RegionBetween(s, k, i);
    if i > 0 {
      assert s.free[i - 1].Granular();
    }
    if i < |s.free| {
      assert s.free[i].Granular();
    }
    hide Block.Granular;
    var (lo, mid, hi) := Merged(s, k, i);
    assert lo > 0 && lo < i ==> s.free[lo - 1].End() < s.free[lo].addr;
    assert i < hi < |s.free| ==> s.free[i].End() < s.free[hi].addr;
    assert mid.Granular() by {
      MergedGranular(s, k, i);
    }
  }

  lemma MergeDeallocates(s: Arena, k: nat, i: nat, s': Arena)
    requires Tiled(s) && k < |s.regions| && i <= |s.free| && FirstAbove(s, k, i)
    requires var (lo, mid, hi) := Merged(s, k, i);
      s' == s.(free := Splice(s.free, lo, [mid], hi), regions := RemoveAt(s.regions, k))
    ensures DeallocStep(s, k, s')
  {
    hide Merged, Splice, Block.Granular;
    var (lo, mid, hi) := Merged(s, k, i);
    MergedShape(s, k, i);
    forall a
      ensures mid.Holds(a) <==> s.regions[k].Holds(a) || Covers(s.free[lo..hi], a)
    {
      MergedHolds(s, k, i, a);
    }
    MergeCovers(s.free, lo, mid, hi, s.regions[k]);
  }

  lemma MergedHolds(s: Arena, k: nat, i: nat, a: int)
    requires Tiled(s) && k < |s.regions| && i <= |s.free| && FirstAbove(s, k, i)
    ensures var (lo, mid, hi) := Merged(s, k, i);
      mid.Holds(a) <==> s.regions[k].Holds(a) || Covers(s.free[lo..hi], a)
  {
    var (lo, mid, hi) := Merged(s, k, i);
    CoversConcat(s.free[lo..i], s.free[i..hi], a);
    assert s.free[lo..hi] == s.free[lo..i] + s.free[i..hi];
    if lo < i {
      CoversSingle(s.free, lo, a);
    }
    if i < hi {
      CoversSingle(s.free, i, a);
    }
  }

  /** Free bytes and live bytes always add up to the whole arena. */
  lemma Conservation(s: Arena)
    requires Tiled(s)
    ensures Total(s.regions) + Total(s.free) == s.end - s.base
  {
    var f, r := Footprint(s.free), Footprint(s.regions);
    forall a
      ensures a in f || a in r <==> s.base <= a < s.end
      ensures !(a in f && a in r)
    {
      FootprintIsCover(s.free, a);
      FootprintIsCover(s.regions, a);
    }
    assert f + r == Interval(s.base, s.end) && f * r == {};
    FootprintSize(s.free);
    FootprintSize(s.regions);
  }

  /** The free list is a function of the live bytes. */
  lemma FreeListDetermined(s: Arena, t: Arena)
    requires Tiled(s) && Tiled(t) && s.base == t.base && s.end == t.end
    requires SameCover(s.regions, t.regions)
    ensures s.free == t.free
  {
    forall a
      ensures Covers(s.free, a) <==> Covers(t.free, a)
    {
      assert Covers(s.regions, a) <==> Covers(t.regions, a);
    }
    CanonicalIsUnique(s.free, t.free);
  }

  /** With nothing live the arena is one block again, whatever happened before. */
  lemma NothingLive(s: Arena)
    requires Tiled(s) && s.regions == []
    ensures s.free == [Block(s.base, s.end - s.base)]
  {
    var t := s.(free := [Block(s.base, s.end - s.base)]);
    InitialIsTiled(t);
    FreeListDetermined(s, t);
  }

  lemma FreeUndoesAlloc(s: Arena, size: usize, align: usize, p: nat, s': Arena, s'': Arena)
    requires Tiled(s) && IsLayout(size, align) && p != 0
    requires AllocStep(s, size, align, p, s') && DeallocStep(s', |s.regions|, s'')
    ensures s'' == s
  {
    AllocKeepsTiled(s, size, align, p, s');
    DeallocKeepsTiled(s', |s.regions|, s'');
    assert s''.regions == s.regions;
    FreeListDetermined(s, s'');
  }

  /** Two frees give the same free list in either order. */
  lemma FreesCommute(s: Arena, j: nat, k: nat, sj: Arena, sjk: Arena, sk: Arena, skj: Arena)
    requires Tiled(s) && j < k < |s.regions|
    requires DeallocStep(s, j, sj) && DeallocStep(sj, k - 1, sjk)
    requires DeallocStep(s, k, sk) && DeallocStep(sk, j, skj)
    ensures sjk == skj
  {
    hide Tiled, DeallocStep, SameCover;
    DeallocRegions(s, j, sj);
    DeallocRegions(sj, k - 1, sjk);
    DeallocRegions(s, k, sk);
    DeallocRegions(sk, j, skj);
    DeallocKeepsTiled(s, j, sj);
    DeallocKeepsTiled(sj, k - 1, sjk);
    DeallocKeepsTiled(s, k, sk);
    DeallocKeepsTiled(sk, j, skj);
    assert RemoveAt(RemoveAt(s.regions, j), k - 1) == RemoveAt(RemoveAt(s.regions, k), j);
    SameRegions(sjk, skj);
  }

  lemma DeallocRegions(s: Arena, k: nat, s': Arena)
    requires k < |s.regions| && DeallocStep(s, k, s')
    ensures s'.base == s.base && s'.end == s.end && s'.regions == RemoveAt(s.regions, k)
    ensures |s'.regions| == |s.regions| - 1
  {
  }

  lemma SameRegions(s: Arena, t: Arena)
    requires Tiled(s) && Tiled(t) && s.base == t.base && s.end == t.end && s.regions == t.regions
    ensures s == t
  {
    hide Tiled;
    FreeListDetermined(s, t);
  }

  datatype Op = Alloc(size: usize, align: usize, result: nat) | Dealloc(region: nat)

  ghost predicate OpStep(s: Arena, op: Op, s': Arena) {
    match op
    case Alloc(size, align, p) => IsLayout(size, align) && AllocStep(s, size, align, p, s')
    case Dealloc(k) => k < |s.regions| && DeallocStep(s, k, s')
  }

  lemma OpKeepsTiled(s: Arena, op: Op, s': Arena)
    requires Tiled(s) && OpStep(s, op, s')
    ensures Tiled(s') && s'.base == s.base && s'.end == s.end
  {
    match op
    case Alloc(size, align, p) => AllocKeepsTiled(s, size, align, p, s');
    case Dealloc(k) => DeallocKeepsTiled(s, k, s');
  }

  ghost predicate Run(states: seq<Arena>, ops: seq<Op>) {
    && |states| == |ops| + 1
    && (forall i {:trigger ops[i]} :: 0 <= i < |ops| ==> OpStep(states[i], ops[i], states[i + 1]))
  }

  /** Safety over whole runs: any sequence of allocations and valid frees, in any order. */
  lemma {:induction false} EveryRunTiles(states: seq<Arena>, ops: seq<Op>, i: nat)
    requires Run(states, ops) && IsInitial(states[0]) && i < |states|
    ensures Tiled(states[i])
    ensures states[i].base == states[0].base && states[i].end == states[0].end
    ensures Total(states[i].regions) + Total(states[i].free) == states[0].end - states[0].base
    ensures states[i].regions == [] ==> states[i] == states[0]
  {
    hide Tiled, IsInitial, OpStep, Total;
    if i == 0 {
      InitialIsTiled(states[0]);
    } else {
      EveryRunTiles(states, ops, i - 1);
      assert OpStep(states[i - 1], ops[i - 1], states[i]);
      OpKeepsTiled(states[i - 1], ops[i - 1], states[i]);
    }
    Conservation(states[i]);
    if states[i].regions == [] {
      InitialAgain(states[0], states[i]);
    }
  }

  lemma InitialAgain(s: Arena, s': Arena)
    requires IsInitial(s) && Tiled(s') && s'.base == s.base && s'.end == s.end && s'.regions == []
    ensures s' == s
  {
    hide Tiled;
    NothingLive(s');
  }

  /** Freeing everything, in whatever order, leaves one block spanning the arena. */
  lemma {:induction false} FreeingAllReclaims(states: seq<Arena>, ops: seq<Op>)
    requires Run(states, ops) && Tiled(states[0]) && |ops| == |states[0].regions|
    requires forall i :: 0 <= i < |ops| ==> ops[i].Dealloc?
    ensures states[|ops|].free == [Block(states[0].base, states[0].end - states[0].base)]
    ensures states[|ops|].regions == []
    decreases |ops|
  {
    if ops == [] {
      NothingLive(states[0]);
    } else {
      assert OpStep(states[0], ops[0], states[1]);
      DeallocKeepsTiled(states[0], ops[0].region, states[1]);
      forall i | 0 <= i < |ops[1..]|
        ensures OpStep(states[1..][i], ops[1..][i], states[1..][i + 1])
      {
        assert OpStep(states[i + 1], ops[i + 1], states[i + 2]);
      }
      FreeingAllReclaims(states[1..], ops[1..]);
    }
  }
}
