/**
 The allocator itself (desktop-metal/src/heap.rs). The arena is its 8-byte words by address; a free block
 keeps its {size, next} header in its own first two words, and 0 ends the list.
 */
module FreeListHeap {
  import opened MachineWords
  import opened FreeLists

  type Memory = map<usize, usize>

  function AddrAt(bs: seq<Block>, i: nat): nat {
    if i < |bs| then bs[i].addr else 0
  }

  ghost predicate HeaderIs(mem: Memory, addr: nat, size: nat, next: nat) {
    && addr in mem && addr + 8 in mem
    && mem[addr] == size && mem[addr + 8] == next
  }

  /** The {size, next} pair written at `addr`. */
  function WithHeader(mem: Memory, addr: usize, size: usize, next: usize): Memory
    requires addr + 8 < WORD_RANGE && addr in mem && addr + 8 in mem
  {
    mem[addr := size][addr + 8 := next]
  }

  /** The header of block `k`, when the last block before `j` links to `next`. */
  ghost predicate HeaderOf(mem: Memory, bs: seq<Block>, k: nat, j: nat, next: nat)
    requires k < j <= |bs|
  {
    HeaderIs(mem, bs[k].addr, bs[k].size, if k + 1 < j then bs[k + 1].addr else next)
  }

  /** The headers of blocks `i..j` of `bs`, the last of them linking to `next`. */
  ghost predicate LinkedPart(mem: Memory, bs: seq<Block>, i: nat, j: nat, next: nat)
    requires i <= j <= |bs|
  {
    forall k :: i <= k < j ==> HeaderOf(mem, bs, k, j, next)
  }

  /** The headers in memory, followed from `head`, spell out `bs`. */
  ghost predicate Linked(mem: Memory, head: nat, bs: seq<Block>) {
    && head == AddrAt(bs, 0)
    && LinkedPart(mem, bs, 0, |bs|, 0)
  }

  /** Every 8-byte word of the arena exists. */
  ghost predicate Backed(mem: Memory, base: nat, end: nat) {
    forall a: usize :: base <= a < end && a % 8 == 0 ==> a in mem
  }

  lemma HeaderBacked(mem: Memory, base: nat, end: nat, a: nat)
    requires Backed(mem, base, end) && end % 16 == 0 && end < WORD_RANGE
    requires a % 16 == 0 && base <= a < end
    ensures a in mem && a + 8 in mem
  {
    var g := a / 16;
    RemainderUnique(a, 8, 2 * g, 0);
    RemainderUnique(a + 8, 8, 2 * g + 1, 0);
    NextGranule(a, end);
  }

  lemma NextGranule(a: nat, end: nat)
    requires a % 16 == 0 && end % 16 == 0 && a < end
    ensures a + 16 <= end
  {
  }

  lemma BackedByKeys(mem: Memory, mem': Memory, base: nat, end: nat)
    requires Backed(mem, base, end) && mem'.Keys == mem.Keys
    ensures Backed(mem', base, end)
  {
    assert forall a: usize :: a in mem' <==> a in mem.Keys;
  }

  lemma GranuleBacked(mem: Memory, base: nat, end: nat, a: nat, n: nat)
    requires Backed(mem, base, end) && end % 16 == 0 && end < WORD_RANGE
    requires a % 16 == 0 && n % 16 == 0 && base <= a + n < end
    ensures a + n in mem && a + n + 8 in mem
  {
    GranuleSum(a, n);
    HeaderBacked(mem, base, end, a + n);
  }

  /** No word of any of the regions differs between the two memories. */
  ghost predicate PayloadKept(regions: seq<Block>, mem: Memory, mem': Memory) {
    forall a: usize :: a in mem && Covers(regions, a) ==> a in mem' && mem'[a] == mem[a]
  }

  /** A list is linked when its three parts are linked one to the next. */
  lemma LinkedSplice(mem: Memory, head: nat, bs: seq<Block>, i: nat, mid: seq<Block>, j: nat)
    requires i <= j <= |bs|
    requires LinkedPart(mem, bs, j, |bs|, 0)
    requires LinkedPart(mem, mid, 0, |mid|, AddrAt(bs, j))
    requires LinkedPart(mem, bs, 0, i, FirstOf(mid, AddrAt(bs, j)))
    requires head == if i > 0 then bs[0].addr else FirstOf(mid, AddrAt(bs, j))
    ensures Linked(mem, head, Splice(bs, i, mid, j))
  {
    var cs := Splice(bs, i, mid, j);
    forall l | 0 <= l < |cs|
      ensures HeaderOf(mem, cs, l, |cs|, 0)
    {
      if l < i {
        assert HeaderOf(mem, bs, l, i, FirstOf(mid, AddrAt(bs, j)));
      } else if l < i + |mid| {
        assert HeaderOf(mem, mid, l - i, |mid|, AddrAt(bs, j));
      } else {
        assert HeaderOf(mem, bs, l - i - |mid| + j, |bs|, 0);
      }
    }
  }

  /** Every write between the two memories went to [lo, hi) or to the single word `link`. */
  ghost predicate WroteOnly(mem: Memory, mem': Memory, lo: nat, hi: nat, link: int) {
    && mem'.Keys == mem.Keys
    && (forall a: usize :: a in mem && !(lo <= a < hi) && a != link ==> mem'[a] == mem[a])
  }

  lemma HeadersOutsideKept(mem: Memory, head: nat, mem': Memory, bs: seq<Block>, i: nat, j: nat,
                           lo: nat, hi: nat, link: int)
    requires i <= j <= |bs| && Canonical(bs) && Linked(mem, head, bs) && WroteOnly(mem, mem', lo, hi, link)
    requires forall k :: 0 <= k < i ==> bs[k].End() <= lo
    requires forall k :: j <= k < |bs| ==> hi <= bs[k].addr
    requires link == LinkBefore(bs, i)
    requires forall k :: 0 <= k < |bs| ==> bs[k].addr > 0
    ensures LinkedPart(mem', bs, j, |bs|, 0)
    ensures i > 0 ==> link in mem' && LinkedPart(mem', bs, 0, i, mem'[link])
  {
    assert i > 0 ==> HeaderOf(mem, bs, i - 1, |bs|, 0);
    forall k | 0 <= k < |bs|
      ensures j <= k ==> HeaderOf(mem', bs, k, |bs|, 0)
      ensures k < i ==> HeaderOf(mem', bs, k, i, mem'[link])
    {
      assert HeaderOf(mem, bs, k, |bs|, 0);
      assert k < i - 1 ==> bs[k].End() < bs[i - 1].addr;
      assert j <= k && i > 0 ==> bs[i - 1].End() < bs[k].addr;
    }
  }

  lemma PayloadOutsideKept(mem: Memory, mem': Memory, regions: seq<Block>, lo: nat, hi: nat, link: int)
    requires WroteOnly(mem, mem', lo, hi, link)
    requires !Covers(regions, link) && forall a :: lo <= a < hi ==> !Covers(regions, a)
    ensures PayloadKept(regions, mem, mem')
  {
  }

  /** The gaps around [p, p + need) have their headers, the last one linking to `next`. */
  /** Writing a block's header, or its size alone when the link already stands, touches nothing outside the block. */
  lemma HeaderWritten(mem: Memory, b: Block, next: nat)
    requires b.size >= 16 && b.addr + 8 < WORD_RANGE && b.addr in mem && b.addr + 8 in mem
    requires b.size < WORD_RANGE && next < WORD_RANGE
    ensures var full := WithHeader(mem, b.addr, b.size, next);
      HeaderIs(full, b.addr, b.size, next) && WroteOnly(mem, full, b.addr, b.End(), -1)
    ensures WroteOnly(mem, mem[b.addr := b.size], b.addr, b.End(), -1)
  {
  }

  ghost predicate GapHeaders(mem: Memory, b: Block, p: nat, need: nat, next: nat)
    requires b.addr <= p && p + need <= b.End()
  {
    var pre, post := p - b.addr, b.End() - (p + need);
    && (post >= HDR ==> HeaderIs(mem, p + need, post, next))
    && (pre >= HDR ==> HeaderIs(mem, b.addr, pre, if post >= HDR then p + need else next))
  }

  lemma GapsLinked(mem: Memory, b: Block, p: nat, need: nat, next: nat)
    requires b.addr <= p && p + need <= b.End() && GapHeaders(mem, b, p, need, next)
    ensures var gs := Gaps(b, p, need); LinkedPart(mem, gs, 0, |gs|, next)
  {
  }

  lemma GapsFirst(b: Block, p: nat, need: nat, next: nat)
    requires b.addr <= p && p + need <= b.End()
    ensures var gs := Gaps(b, p, need); forall k :: 0 <= k < |gs| ==> b.addr <= gs[k].addr && gs[k].addr + 16 <= b.End()
    ensures FirstOf(Gaps(b, p, need), next) ==
      if p - b.addr >= HDR then b.addr else if b.End() - (p + need) >= HDR then p + need else next
  {
  }

  /** What the invariant says about free block `i` and its place in the list. */
  lemma FreeBlockFacts(s: Arena, mem: Memory, i: nat)
    requires Tiled(s) && Backed(mem, s.base, s.end) && i < |s.free|
    ensures s.base <= s.free[i].addr && s.end % 16 == 0 && s.free[i].End() <= s.end <= ADDRESS_LIMIT
    ensures Canonical(s.free) && forall k :: 0 <= k < |s.free| ==> s.free[k].addr > 0
    ensures forall k :: 0 <= k < i ==> s.free[k].End() <= s.free[i].addr
    ensures forall k :: i < k < |s.free| ==> s.free[i].End() <= s.free[k].addr
    ensures s.free[i].Granular()
  {
  }

  lemma FreeBlockNotLive(s: Arena, i: nat, a: int)
    requires Tiled(s) && i < |s.free| && s.free[i].Holds(a)
    ensures !Covers(s.regions, a)
  {
    assert Covers(s.free, a);
  }

  /** Once the new headers are in place, one link makes the list whole again. */
  lemma FinishSplice(mem: Memory, head: nat, written: Memory, mem': Memory, bs: seq<Block>,
                     i: nat, mid: seq<Block>, j: nat, lo: nat, hi: nat, first: usize)
    requires i <= j <= |bs| && Canonical(bs) && Linked(mem, head, bs) && forall k :: 0 <= k < |bs| ==> bs[k].addr > 0
    requires forall k :: 0 <= k < i ==> bs[k].End() <= lo
    requires forall k :: j <= k < |bs| ==> hi <= bs[k].addr
    requires forall k :: 0 <= k < |mid| ==> lo <= mid[k].addr && mid[k].addr + 16 <= hi
    requires WroteOnly(mem, written, lo, hi, -1)
    requires LinkedPart(written, mid, 0, |mid|, AddrAt(bs, j))
    requires first == FirstOf(mid, AddrAt(bs, j))
    requires i == 0 ==> mem' == written
    requires i > 0 ==> bs[i - 1].addr + 8 < WORD_RANGE && mem' == written[bs[i - 1].addr + 8 := first]
    ensures Linked(mem', if i > 0 then head else first, Splice(bs, i, mid, j))
    ensures WroteOnly(mem, mem', lo, hi, LinkBefore(bs, i))
  {
    hide Splice;
    assert i > 0 ==> HeaderOf(mem, bs, i - 1, |bs|, 0);
    forall k | 0 <= k < |mid|
      ensures HeaderOf(mem', mid, k, |mid|, AddrAt(bs, j))
    {
      assert HeaderOf(written, mid, k, |mid|, AddrAt(bs, j));
    }
    HeadersOutsideKept(mem, head, mem', bs, i, j, lo, hi, LinkBefore(bs, i));
    LinkedSplice(mem', if i > 0 then head else first, bs, i, mid, j);
  }

  /** The first address of `bs`, or what follows it. */
  function FirstOf(bs: seq<Block>, next: nat): nat {
    if bs != [] then bs[0].addr else next
  }

  /** The word that links to block `i`: the `next` of its predecessor, or none when that is `head`. */
  ghost function LinkBefore(bs: seq<Block>, i: nat): int
    requires i <= |bs|
  {
    if i == 0 then -1 else bs[i - 1].addr + 8
  }

  lemma TakeKeepsPayload(s: Arena, mem: Memory, mem': Memory, i: nat)
    requires Tiled(s) && i < |s.free| && Backed(mem, s.base, s.end)
    requires WroteOnly(mem, mem', s.free[i].addr, s.free[i].End(), LinkBefore(s.free, i))
    ensures PayloadKept(s.regions, mem, mem')
  {
    forall a | s.free[i].addr <= a < s.free[i].End()
      ensures !Covers(s.regions, a)
    {
      FreeBlockNotLive(s, i, a);
    }
    LinkNotLive(s, i);
    PayloadOutsideKept(mem, mem', s.regions, s.free[i].addr, s.free[i].End(), LinkBefore(s.free, i));
  }

  lemma HeaderNotLive(s: Arena, i: nat, a: int)
    requires Tiled(s) && i < |s.free| && Covers(s.regions, a)
    ensures a != s.free[i].addr && a != s.free[i].addr + 8
  {
    assert s.free[i].Granular();
    if s.free[i].Holds(a) {
      FreeBlockNotLive(s, i, a);
    }
  }

  lemma LinkNotLive(s: Arena, i: nat)
    requires Tiled(s) && i <= |s.free|
    ensures !Covers(s.regions, LinkBefore(s.free, i))
  {
    if i > 0 {
      assert s.free[i - 1].Granular();
      FreeBlockNotLive(s, i - 1, LinkBefore(s.free, i));
    }
  }

  lemma LiveSize(s: Arena, size: usize, k: nat)
    requires Tiled(s) && k < |s.regions| && IsBlockSize(size, s.regions[k].size)
    ensures RoundBlock(size) == s.regions[k].size
  {
    hide RoundBlock;
    RoundBlockIsLeast(size, s.regions[k].size);
  }

  function MergedFree(s: Arena, k: nat, i: nat): seq<Block>
    requires k < |s.regions| && i <= |s.free|
  {
    var (lo, mid, hi) := Merged(s, k, i);
    Splice(s.free, lo, [mid], hi)
  }

  /** Where the headers of the merge are, and that they are in the arena. */
  lemma MergedFacts(s: Arena, mem: Memory, head: nat, k: nat, i: nat)
    requires Tiled(s) && Backed(mem, s.base, s.end) && Linked(mem, head, s.free)
    requires k < |s.regions| && i <= |s.free| && FirstAbove(s, k, i)
    ensures Canonical(s.free) && forall j :: 0 <= j < |s.free| ==> s.free[j].addr > 0
    ensures var (lo, mid, hi) := Merged(s, k, i);
      && 0 < mid.addr && mid.size >= 16 && mid.End() <= ADDRESS_LIMIT && mid.addr in mem && mid.addr + 8 in mem
      && (lo > 0 ==> s.free[lo - 1].addr + 16 <= mid.addr)
      && (lo < i ==> s.free[lo] == s.free[i - 1] && mid.addr == s.free[lo].addr)
      && (forall j :: 0 <= j < lo ==> s.free[j].End() <= mid.addr)
      && (forall j :: hi <= j < |s.free| ==> mid.End() <= s.free[j].addr)
    ensures forall j :: 0 <= j < |s.free| ==> HeaderOf(mem, s.free, j, |s.free|, 0)
  {
    hide Tiled, Backed, Merged, FirstAbove, HeaderOf;
    MergedShape(s, k, i);
    var (lo, mid, hi) := Merged(s, k, i);
    FreeInArena(s);
    HeaderBacked(mem, s.base, s.end, mid.addr);
    NeighboursApart(s.free, lo, mid, hi);
    MergedBelow(s, k, i);
  }

  lemma FreeInArena(s: Arena)
    requires Tiled(s)
    ensures Canonical(s.free) && 0 < s.base && s.end % 16 == 0 && s.end <= ADDRESS_LIMIT
    ensures forall j :: 0 <= j < |s.free| ==> s.free[j].addr > 0 && s.free[j].Granular()
  {
  }

  lemma MergedBelow(s: Arena, k: nat, i: nat)
    requires k < |s.regions| && i <= |s.free|
    ensures var (lo, mid, hi) := Merged(s, k, i); lo < i ==> s.free[lo] == s.free[i - 1] && mid.addr == s.free[lo].addr
  {
  }

  /** The four cases: where the merged block starts, its size and its successor, read from the headers around it. */
  lemma MergedHeader(s: Arena, mem: Memory, ptr: nat, need: nat, k: nat, i: nat)
    requires k < |s.regions| && s.regions[k] == Block(ptr, need) && i <= |s.free|
    requires forall j :: 0 <= j < |s.free| ==> s.free[j].addr > 0 && HeaderOf(mem, s.free, j, |s.free|, 0)
    ensures var (lo, mid, hi) := Merged(s, k, i); var cur := AddrAt(s.free, i);
      && (cur != 0 <==> i < |s.free|)
      && (lo < i ==> i > 0 && mid.addr == s.free[i - 1].addr && mid.addr in mem && mid.addr + 8 in mem)
      && (lo >= i ==> mid.addr == ptr)
      && var below := if lo < i then mem[mid.addr] else 0;
        if cur != 0 && ptr + need == cur then
          cur in mem && cur + 8 in mem && mid.size == below + need + mem[cur] && AddrAt(s.free, hi) == mem[cur + 8]
        else
          mid.size == below + need && AddrAt(s.free, hi) == cur && (lo < i ==> mem[mid.addr + 8] == cur)
  {
    assert i > 0 ==> HeaderOf(mem, s.free, i - 1, |s.free|, 0);
    assert i < |s.free| ==> HeaderOf(mem, s.free, i, |s.free|, 0);
  }

  /** What is apart from its neighbours is apart from the whole list. */
  lemma NeighboursApart(bs: seq<Block>, lo: nat, mid: Block, hi: nat)
    requires Canonical(bs) && lo <= hi <= |bs|
    requires (lo > 0 ==> bs[lo - 1].End() < mid.addr) && (hi < |bs| ==> mid.End() < bs[hi].addr)
    ensures forall j :: 0 <= j < lo ==> bs[j].End() <= mid.addr
    ensures forall j :: hi <= j < |bs| ==> mid.End() <= bs[j].addr
  {
  }

  lemma FinishCoalesce(s: Arena, mem: Memory, head: nat, written: Memory, mem': Memory, k: nat, i: nat)
    requires Tiled(s) && Backed(mem, s.base, s.end) && Linked(mem, head, s.free)
    requires k < |s.regions| && i <= |s.free| && FirstAbove(s, k, i)
    requires var (lo, mid, hi) := Merged(s, k, i);
      && HeaderIs(written, mid.addr, mid.size, AddrAt(s.free, hi)) && WroteOnly(mem, written, mid.addr, mid.End(), -1)
      && (lo < i || lo == 0 ==> mem' == written)
      && (lo == i > 0 ==> s.free[i - 1].addr + 8 < WORD_RANGE && mid.addr < WORD_RANGE
                          && mem' == written[s.free[i - 1].addr + 8 := mid.addr])
    ensures var (lo, mid, hi) := Merged(s, k, i);
      && Linked(mem', if lo > 0 then head else mid.addr, MergedFree(s, k, i))
      && WroteOnly(mem, mem', mid.addr, mid.End(), LinkBefore(s.free, lo))
  {
    hide Tiled, Backed, Canonical, Splice, Block.Granular, LinkedPart, Merged;
    MergedFacts(s, mem, head, k, i);
    var (lo, mid, hi) := Merged(s, k, i);
    if lo > 0 {
      assert HeaderOf(mem, s.free, lo - 1, |s.free|, 0);
      if lo < i {
        assert mem' == written[s.free[lo - 1].addr + 8 := mid.addr];
      }
    }
    SingleLinked(written, mid, AddrAt(s.free, hi));
    FinishSplice(mem, head, written, mem', s.free, lo, [mid], hi, mid.addr, mid.End(), mid.addr);
  }

  lemma SingleLinked(mem: Memory, b: Block, next: nat)
    requires HeaderIs(mem, b.addr, b.size, next)
    ensures LinkedPart(mem, [b], 0, 1, next)
  {
  }

  lemma MergeKeepsPayload(s: Arena, k: nat, i: nat, s': Arena, mem: Memory, mem': Memory)
    requires Tiled(s') && Backed(mem, s'.base, s'.end) && k < |s.regions| && i <= |s.free|
    requires s'.free == MergedFree(s, k, i)
    requires var (lo, mid, hi) := Merged(s, k, i);
      WroteOnly(mem, mem', mid.addr, mid.End(), LinkBefore(s.free, lo))
    ensures PayloadKept(s'.regions, mem, mem')
  {
    var (lo, mid, hi) := Merged(s, k, i);
    assert s'.free[lo] == mid && LinkBefore(s'.free, lo) == LinkBefore(s.free, lo);
    TakeKeepsPayload(s', mem, mem', lo);
  }

  class Heap {
    var head: usize
    var base: usize
    var end: usize
    var live: usize
    var mem: Memory
    ghost var free: seq<Block>
    ghost var regions: seq<Block>

    ghost function View(): Arena
      reads this
    {
      Arena(base, end, free, regions)
    }

    ghost predicate Valid()
      reads this
    {
      && Tiled(View())
      && Backed(mem, base, end)
      && Linked(mem, head, free)
      && live == Total(regions)
    }

    constructor (mem: Memory)
      ensures head == base == end == live == 0 && this.mem == mem
    {
      head, base, end, live := 0, 0, 0, 0;
      this.mem := mem;
      free, regions := [], [];
    }

    method Init(base: usize, size: usize)
      requires base > 0 && base % 16 == 0 && 16 <= size && base + size <= ADDRESS_LIMIT
      requires Backed(mem, base, base + size)
      modifies this
      ensures Valid() && IsInitial(View())
      ensures this.base == base && end == base + (size - size % 16) && live == 0
    {
      var size: usize := TruncateToGranule(size);
      HeaderBacked(mem, base, base + size, base);
      this.base := base;
      end := base + size;
      live := 0;
      head := base;
      mem := WithHeader(mem, base, size, 0);
      free, regions := [Block(base, size)], [];
      InitialIsTiled(View());
    }

    /** The caller writes a word of memory it was handed; the allocator's own words are elsewhere. */
    method Store(a: usize, word: usize)
      requires Valid() && a in mem && Covers(regions, a)
      modifies `mem
      ensures Valid() && View() == old(View()) && mem == old(mem)[a := word]
    {
      hide Backed, Canonical;
      mem := mem[a := word];
      BackedByKeys(old(mem), mem, base, end);
      forall k | 0 <= k < |free|
        ensures HeaderOf(mem, free, k, |free|, 0)
      {
        assert HeaderOf(old(mem), free, k, |free|, 0);
        HeaderNotLive(View(), k, a);
      }
    }

    /** Replace free block `i` by what is left around [payload, payload + need). */
    method TakeFrom(prev: usize, cur: usize, payload: usize, need: usize, ghost i: nat)
      requires Valid() && i < |free| && cur == free[i].addr
      requires prev == if i == 0 then 0 else free[i - 1].addr
      requires payload % 16 == 0 && need % 16 == 0 && need >= 16
      requires cur <= payload && payload + need <= free[i].End()
      modifies `head, `mem
      ensures Linked(mem, head, Splice(free, i, Gaps(free[i], payload, need), i + 1))
      ensures WroteOnly(old(mem), mem, cur, free[i].End(), LinkBefore(free, i))
    {
      hide Tiled, Backed, Canonical, Gaps, Splice, Block.Granular, GapHeaders;
      FreeBlockFacts(View(), mem, i);
      assert HeaderOf(mem, free, i, |free|, 0);
      assert i > 0 ==> HeaderOf(mem, free, i - 1, |free|, 0);
      var chain := WriteGaps(cur, payload, need, free[i]);
      ghost var written := mem;
      if prev == 0 {
        head := chain;
      } else {
        mem := mem[prev + 8 := chain];
      }
      GapsFirst(free[i], payload, need, AddrAt(free, i + 1));
      GapsLinked(written, free[i], payload, need, AddrAt(free, i + 1));
      FinishSplice(old(mem), old(head), written, mem, free, i, Gaps(free[i], payload, need), i + 1,
                   cur, free[i].End(), chain);
    }

    /** Write the headers of the gaps around [payload, payload + need), and say where the list goes on. */
    method WriteGaps(cur: usize, payload: usize, need: usize, ghost b: Block) returns (chain: usize)
      requires Backed(mem, base, end) && base <= cur && end % 16 == 0
      requires cur == b.addr && b.End() <= end && b.Granular() && cur in mem && cur + 8 in mem && mem[cur] == b.size
      requires payload % 16 == 0 && need % 16 == 0 && need >= 16
      requires cur <= payload && payload + need <= b.End()
      modifies `mem
      ensures GapHeaders(mem, b, payload, need, old(mem[cur + 8]))
      ensures WroteOnly(old(mem), mem, cur, b.End(), -1)
      ensures chain == FirstOf(Gaps(b, payload, need), old(mem[cur + 8]))
    {
      hide Backed, Block.Granular;
      var cend := cur + mem[cur];
      var pre, post := payload - cur, cend - (payload + need);
      chain := mem[cur + 8];
      if post >= HDR {
        var paddr := payload + need;
        GranuleBacked(mem, base, end, payload, need);
        mem := WithHeader(mem, paddr, post, chain);
        chain := paddr;
      }
      if pre >= HDR {
        mem := WithHeader(mem, cur, pre, chain);
        chain := cur;
      }
    }

    /** Hand out [payload, payload + need) of block `i`, the first that fits. */
    method Occupy(prev: usize, cur: usize, payload: usize, need: usize, ghost size: usize, ghost align: usize,
                  ghost i: nat)
      requires Valid() && IsLayout(size, align) && i < |free| && cur == free[i].addr
      requires prev == if i == 0 then 0 else free[i - 1].addr
      requires need == RoundBlock(size) && payload == AlignUp(cur, EffectiveAlign(align))
      requires need % 16 == 0 && need >= 16 && payload % 16 == 0
      requires cur <= payload && payload + need <= free[i].End()
      requires Fits(free[i], need, EffectiveAlign(align))
      requires forall j :: 0 <= j < i ==> free[j].addr < WORD_RANGE && !Fits(free[j], need, EffectiveAlign(align))
      modifies this
      ensures Valid() && AllocStep(old(View()), size, align, payload, View())
      ensures PayloadKept(old(regions), old(mem), mem) && mem.Keys == old(mem.Keys)
    {
      hide Tiled, Backed, Canonical, AlignUp, RoundBlock, Splice, Gaps, AllocStep, LinkBefore, FirstOf;
      TakeFrom(prev, cur, payload, need, i);
      TakeKeepsPayload(View(), old(mem), mem, i);
      BackedByKeys(old(mem), mem, base, end);
      TotalAppend(regions, Block(payload, need));
      free, regions := Splice(free, i, Gaps(free[i], payload, need), i + 1), regions + [Block(payload, need)];
      FirstFitAllocates(old(View()), size, align, i, View());
      AllocKeepsTiled(old(View()), size, align, payload, View());
      Conservation(View());
      live := live + need;
    }

    /** First fit. Every sum is in range, so the machine arithmetic is exact. */
    method Alloc(size: usize, align: usize) returns (p: usize)
      requires Valid() && IsLayout(size, align)
      modifies this
      ensures Valid()
      ensures AllocStep(old(View()), size, align, p, View())
      ensures align > 0 && TakesLeast(old(View()), size, align, p, View())
      ensures PayloadKept(old(regions), old(mem), mem) && mem.Keys == old(mem.Keys)
    {
      hide Tiled, Backed, Canonical, AlignUp, RoundBlock, Splice, Gaps, AllocStep, LinkBefore, FirstOf, TakesLeast;
      var al: usize := if align < ALIGN then ALIGN else align;
      var need := RoundBlock(size);
      RoundBlockIsRoundedUp(size);
      var prev: usize, cur: usize := 0, head;
      ghost var i := 0;
      while cur != 0
        invariant unchanged(this)
        invariant 0 <= i <= |free| && cur == AddrAt(free, i)
        invariant prev == if i == 0 then 0 else free[i - 1].addr
        invariant forall j :: 0 <= j < i ==> free[j].addr < WORD_RANGE && !Fits(free[j], need, al)
        decreases |free| - i
      {
        FreeBlockFacts(View(), mem, i);
        PlacementInRange(cur, size, align);
        assert HeaderOf(mem, free, i, |free|, 0);
        var csz := mem[cur];
        var cnext := mem[cur + 8];
        var payload := AlignUp(cur, al);
        var cend: usize := cur + csz;
        var last: usize := payload + need;
        if last <= cend {
          Occupy(prev, cur, payload, need, size, align, i);
          AllocTakesLeast(old(View()), size, align, payload, View());
          return payload;
        }
        prev, cur := cur, cnext;
        i := i + 1;
      }
      if i < |free| {
        FreeBlockFacts(View(), mem, i);
      }
      NothingFits(View(), size, align);
      AllocTakesLeast(View(), size, align, 0, View());
      p := 0;
    }

    /** `k` is the live region that `ptr` and `size` came from, the least block for `size`; null is ignored. */
    method Dealloc(ptr: usize, size: usize, ghost k: nat)
      requires Valid()
      requires ptr != 0 ==> k < |regions| && regions[k].addr == ptr && IsBlockSize(size, regions[k].size)
      modifies this
      ensures Valid()
      ensures ptr == 0 ==> View() == old(View()) && mem == old(mem)
      ensures ptr != 0 ==> DeallocStep(old(View()), k, View()) && PayloadKept(regions, old(mem), mem)
      ensures mem.Keys == old(mem.Keys)
    {
      hide Tiled, Backed, Canonical, RoundBlock, IsBlockSize, Splice, DeallocStep, Merged;
      if ptr == 0 {
        return;
      }
      var need := RoundBlock(size);
      LiveSize(View(), size, k);
      TotalRemoveAt(regions, k);
      live := live - need;

      var prev: usize, cur: usize := 0, head;
      ghost var i := 0;
      while cur != 0 && cur < ptr
        invariant unchanged(`head, `base, `end, `mem, `free, `regions) && live == old(live) - need
        invariant 0 <= i <= |free| && cur == AddrAt(free, i)
        invariant prev == if i == 0 then 0 else free[i - 1].addr
        invariant forall j :: 0 <= j < i ==> free[j].addr < ptr
        decreases |free| - i
      {
        assert HeaderOf(mem, free, i, |free|, 0);
        prev := cur;
        cur := mem[cur + 8];
        i := i + 1;
      }
      if i < |free| {
        FreeBlockFacts(View(), mem, i);
      }
      Coalesce(prev, cur, ptr, need, k, i);
      MergeDeallocates(old(View()), k, i,
                       View().(free := MergedFree(old(View()), k, i), regions := RemoveAt(regions, k)));
      free, regions := MergedFree(View(), k, i), RemoveAt(regions, k);
      DeallocKeepsTiled(old(View()), k, View());
      BackedByKeys(old(mem), mem, base, end);
      MergeKeepsPayload(old(View()), k, i, View(), old(mem), mem);
    }

    /** The four ways a freed region joins its free neighbours; only a new list member needs a link to it. */
    method Coalesce(prev: usize, cur: usize, ptr: usize, need: usize, ghost k: nat, ghost i: nat)
      requires Tiled(View()) && Backed(mem, base, end) && Linked(mem, head, free)
      requires k < |regions| && regions[k] == Block(ptr, need)
      requires i <= |free| && FirstAbove(View(), k, i)
      requires prev == (if i == 0 then 0 else free[i - 1].addr) && cur == AddrAt(free, i)
      modifies `head, `mem
      ensures Linked(mem, head, MergedFree(View(), k, i))
      ensures var (lo, mid, hi) := Merged(View(), k, i);
        WroteOnly(old(mem), mem, mid.addr, mid.End(), LinkBefore(free, lo))
    {
      hide Tiled, Backed, Canonical, Splice, Block.Granular, LinkedPart;
      MergedFacts(View(), mem, head, k, i);
      assert i > 0 ==> HeaderOf(mem, free, i - 1, |free|, 0);
      var prevAdj := prev != 0 && prev + mem[prev] == ptr;
      WriteMerged(prev, cur, ptr, need, prevAdj, k, i);
      ghost var written := mem;
      if !prevAdj {
        if prev == 0 {
          head := ptr;
        } else {
          mem := mem[prev + 8 := ptr];
        }
      }
      FinishCoalesce(View(), old(mem), old(head), written, mem, k, i);
    }

    method WriteMerged(prev: usize, cur: usize, ptr: usize, need: usize, prevAdj: bool, ghost k: nat, ghost i: nat)
      requires Tiled(View()) && Backed(mem, base, end) && Linked(mem, head, free)
      requires k < |regions| && regions[k] == Block(ptr, need)
      requires i <= |free| && FirstAbove(View(), k, i)
      requires prev == (if i == 0 then 0 else free[i - 1].addr) && cur == AddrAt(free, i)
      requires prevAdj == (Merged(View(), k, i).0 < i)
      modifies `mem
      ensures var (lo, mid, hi) := Merged(View(), k, i);
        HeaderIs(mem, mid.addr, mid.size, AddrAt(free, hi)) && WroteOnly(old(mem), mem, mid.addr, mid.End(), -1)
    {
      hide Tiled, Backed, Canonical, Splice, Block.Granular, Linked, FirstAbove, Merged, HeaderOf, WroteOnly;
      MergedFacts(View(), mem, head, k, i);
      ghost var (lo, mid, hi) := Merged(View(), k, i);
      MergedHeader(View(), mem, ptr, need, k, i);
      HeaderWritten(mem, mid, AddrAt(free, hi));
      var curAdj := cur != 0 && ptr + need == cur;
      if prevAdj && curAdj {
        mem := WithHeader(mem, prev, mem[prev] + need + mem[cur], mem[cur + 8]);
      } else if prevAdj {
        mem := mem[prev := mem[prev] + need];
      } else if curAdj {
        mem := WithHeader(mem, ptr, need + mem[cur], mem[cur + 8]);
      } else {
        mem := WithHeader(mem, ptr, need, cur);
      }
    }
  }
}
