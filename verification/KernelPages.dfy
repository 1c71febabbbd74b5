/** The kernel's page allocator: runs of pages from a bitmap, counted in `mem_map`. */
module KernelPages {
  import opened Basics
  import opened Bitmaps

  /** The first physical page that the kernel's bitmap stands for. */
  const MEMORY_BASE := 256

  /** Bit `i` of `bits` and entry `MEMORY_BASE + i` of `counts` belong together; `free` is `free_pages`. */
  datatype Pages = Pages(bits: seq<bool>, counts: seq<nat>, free: int)

  lemma ZerosUpdate(counts: seq<nat>, i: nat, v: nat)
    requires i < |counts|
    ensures |Zeros(counts[i := v])| == |Zeros(counts)| + One(v == 0) - One(counts[i] == 0)
  {
    var after := counts[i := v];
    var rest := Zeros(counts) - {i};
    assert Zeros(counts) == if counts[i] == 0 then rest + {i} else rest;
    assert Zeros(after) == if v == 0 then rest + {i} else rest;
  }

  /** A bit is set exactly while the page's count is not zero, and `free_pages` counts the zeros. */
  ghost predicate Inv(k: Pages) {
    && |k.counts| >= MEMORY_BASE + |k.bits| && k.free == |Zeros(k.counts)|
    && forall i :: 0 <= i < |k.bits| ==> (k.bits[i] <==> k.counts[MEMORY_BASE + i] != 0)
  }

  // ------------------------------------------------------------ operations

  /** `_alloc_kpage`, of the run that starts at bit `s`. */
  function Take(k: Pages, s: nat, n: nat): Pages {
    Pages(Fill(k.bits, s, n, true), Fill(k.counts, MEMORY_BASE + s, n, 1), k.free - n)
  }

  /** How many of the entries are one. */
  function Ones(counts: seq<nat>, s: nat, n: nat): nat
    requires s + n <= |counts|
  {
    if n == 0 then 0 else Ones(counts, s, n - 1) + if counts[s + n - 1] == 1 then 1 else 0
  }

  function Drop(counts: seq<nat>, s: nat, n: nat): (r: seq<nat>)
    ensures |r| == |counts|
  {
    seq(|counts|, i requires 0 <= i < |counts| => if s <= i < s + n && counts[i] > 0 then counts[i] - 1 else counts[i])
  }

  function ClearLast(k: Pages, s: nat, n: nat): (b: seq<bool>)
    requires |k.counts| >= MEMORY_BASE + |k.bits|
    ensures |b| == |k.bits|
  {
    seq(|k.bits|, i requires 0 <= i < |k.bits| => k.bits[i] && !(s <= i < s + n && k.counts[MEMORY_BASE + i] == 1))
  }

  /** The pages are there and in use. */
  ghost predicate InUse(k: Pages, s: nat, n: nat) {
    && s + n <= |k.bits| && |k.counts| >= MEMORY_BASE + |k.bits|
    && forall j :: MEMORY_BASE + s <= j < MEMORY_BASE + s + n ==> k.counts[j] > 0
  }

  /** `_reset_kpage`: each count goes down by one, and a page is free when its count is zero. */
  function Give(k: Pages, s: nat, n: nat): Pages
    requires s + n <= |k.bits| && |k.counts| >= MEMORY_BASE + |k.bits|
  {
    Pages(ClearLast(k, s, n), Drop(k.counts, MEMORY_BASE + s, n), k.free + Ones(k.counts, MEMORY_BASE + s, n))
  }

  lemma {:induction false} ZerosDrop(counts: seq<nat>, s: nat, n: nat)
    requires s + n <= |counts| && forall i :: s <= i < s + n ==> counts[i] > 0
    ensures |Zeros(Drop(counts, s, n))| == |Zeros(counts)| + Ones(counts, s, n)
  {
    if n == 0 {
      assert Drop(counts, s, 0) == counts;
    } else {
      ZerosDrop(counts, s, n - 1);
      var c := Drop(counts, s, n - 1);
      ZerosUpdate(c, s + n - 1, counts[s + n - 1] - 1);
      assert Drop(counts, s, n) == c[s + n - 1 := counts[s + n - 1] - 1];
    }
  }

  lemma {:induction false} ZerosSet(counts: seq<nat>, s: nat, n: nat, v: nat, w: nat)
    requires s + n <= |counts| && forall i :: s <= i < s + n ==> counts[i] == w
    ensures |Zeros(Fill(counts, s, n, v))| == |Zeros(counts)| + n * (One(v == 0) - One(w == 0))
  {
    if n == 0 {
      assert Fill(counts, s, 0, v) == counts;
    } else {
      ZerosSet(counts, s, n - 1, v, w);
      var c := Fill(counts, s, n - 1, v);
      ZerosUpdate(c, s + n - 1, v);
      assert Fill(counts, s, n, v) == c[s + n - 1 := v];
    }
  }

  /** Taking a clear run meets only pages with a zero count, and keeps bits and counts in step. */
  lemma TakeKeepsInv(k: Pages, s: nat, n: nat)
    requires Inv(k) && ClearRun(k.bits, s, n)
    ensures Inv(Take(k, s, n)) && k.free >= n
    ensures forall i :: MEMORY_BASE + s <= i < MEMORY_BASE + s + n ==> k.counts[i] == 0
  {
    forall i | MEMORY_BASE + s <= i < MEMORY_BASE + s + n ensures k.counts[i] == 0 {
      assert !k.bits[i - MEMORY_BASE];
    }
    ZerosSet(k.counts, MEMORY_BASE + s, n, 1, 0);
  }

  ghost predicate OnceEach(k: Pages, s: nat, n: nat) {
    s + n <= |k.bits| && |k.counts| >= MEMORY_BASE + |k.bits|
    && forall i :: s <= i < s + n ==> k.bits[i] && k.counts[MEMORY_BASE + i] == 1
  }

  lemma GiveKeepsInv(k: Pages, s: nat, n: nat)
    requires Inv(k) && InUse(k, s, n)
    ensures Inv(Give(k, s, n))
  {
    ZerosDrop(k.counts, MEMORY_BASE + s, n);
  }

  /** A run counted once each is free afterwards. */
  lemma GiveOnce(k: Pages, s: nat, n: nat)
    requires OnceEach(k, s, n)
    ensures InUse(k, s, n)
    ensures Give(k, s, n) == Pages(Fill(k.bits, s, n, false), Fill(k.counts, MEMORY_BASE + s, n, 0), k.free + n)
  {
    forall i | MEMORY_BASE + s <= i < MEMORY_BASE + s + n ensures k.counts[i] == 1 {
      assert k.bits[i - MEMORY_BASE];
    }
    OnesAll(k.counts, MEMORY_BASE + s, n);
    assert ClearLast(k, s, n) == Fill(k.bits, s, n, false);
    assert Drop(k.counts, MEMORY_BASE + s, n) == Fill(k.counts, MEMORY_BASE + s, n, 0);
  }

  /** One turn of the loop of `_reset_kpage`. */
  lemma StepDown(k: Pages, s: nat, i: nat)
    requires Inv(k) && s + i < |k.bits| && k.counts[MEMORY_BASE + s + i] > 0
    ensures var page := MEMORY_BASE + s + i; var last := k.counts[page] == 1;
            && k.bits[s + i] && |ClearLast(k, s, i)| == |k.bits| && |Drop(k.counts, MEMORY_BASE + s, i)| == |k.counts|
            && ClearLast(k, s, i)[s + i] && Drop(k.counts, MEMORY_BASE + s, i)[page] == k.counts[page]
            && ClearLast(k, s, i + 1) == (if last then ClearLast(k, s, i)[s + i := false] else ClearLast(k, s, i))
            && Drop(k.counts, MEMORY_BASE + s, i + 1) == Drop(k.counts, MEMORY_BASE + s, i)[page := k.counts[page] - 1]
            && Ones(k.counts, MEMORY_BASE + s, i + 1) == Ones(k.counts, MEMORY_BASE + s, i) + One(last)
  {
    assert k.bits[s + i] <==> k.counts[MEMORY_BASE + (s + i)] != 0;
  }

  lemma {:induction false} OnesAll(counts: seq<nat>, s: nat, n: nat)
    requires s + n <= |counts| && forall i :: s <= i < s + n ==> counts[i] == 1
    ensures Ones(counts, s, n) == n
  {
    if n > 0 {
      OnesAll(counts, s, n - 1);
    }
  }

  /** Giving back what was taken restores everything. */
  lemma GiveUndoesTake(k: Pages, s: nat, n: nat)
    requires Inv(k) && ClearRun(k.bits, s, n)
    ensures OnceEach(Take(k, s, n), s, n) && Give(Take(k, s, n), s, n) == k
  {
    TakeKeepsInv(k, s, n);
    GiveOnce(Take(k, s, n), s, n);
    assert Fill(Take(k, s, n).bits, s, n, false) == k.bits;
    assert Fill(Take(k, s, n).counts, MEMORY_BASE + s, n, 0) == k.counts;
  }

  // ------------------------------------------------------------------ runs

  datatype Block = Block(s: nat, n: nat)

  datatype Event = Alloc(n: nat) | Free(b: Block)

  predicate Apart(a: Block, b: Block) { a.s + a.n <= b.s || b.s + b.n <= a.s }

  /** Every live run is taken, page by page, and no two of them overlap. */
  ghost predicate Live(k: Pages, live: set<Block>) {
    && (forall b :: b in live ==> b.n > 0 && OnceEach(k, b.s, b.n))
    && (forall a, b :: a in live && b in live && a != b ==> Apart(a, b))
  }

  /** The lowest clear run of `n`; at the end of the bits if there is none. */
  ghost function Lowest(b: seq<bool>, n: nat): (s: nat)
    ensures s < |b| ==> IsLowestRun(b, s, n)
    ensures s >= |b| && n > 0 ==> forall r: nat :: !ClearRun(b, r, n)
  {
    LowestFrom(b, n, 0)
  }

  ghost function LowestFrom(b: seq<bool>, n: nat, from: nat): (s: nat)
    requires from <= |b| && forall r: nat :: r < from ==> !ClearRun(b, r, n)
    ensures s < |b| ==> IsLowestRun(b, s, n)
    ensures s >= |b| && n > 0 ==> forall r: nat :: !ClearRun(b, r, n)
    decreases |b| - from
  {
    if from == |b| || ClearRun(b, from, n) then from else LowestFrom(b, n, from + 1)
  }

  /** A run of allocations and releases; a release must be of a live run. None where an allocation
      finds no room, which is a panic. */
  ghost function Run(k: Pages, live: set<Block>, es: seq<Event>): Option<(Pages, set<Block>)>
    decreases |es|
  {
    if es == [] then Some((k, live))
    else match es[0]
      case Alloc(n) =>
        var s := Lowest(k.bits, n);
        if n == 0 || s >= |k.bits| then None else Run(Take(k, s, n), live + {Block(s, n)}, es[1..])
      case Free(b) => if b in live && b.s + b.n <= |k.bits| && |k.counts| >= MEMORY_BASE + |k.bits| then Run(Give(k, b.s, b.n), live - {b}, es[1..]) else None
  }

  lemma TakeKeepsLive(k: Pages, live: set<Block>, s: nat, n: nat)
    requires Inv(k) && Live(k, live) && ClearRun(k.bits, s, n) && n > 0
    ensures Live(Take(k, s, n), live + {Block(s, n)}) && Block(s, n) !in live
  {
    GiveUndoesTake(k, s, n);
    forall b | b in live ensures Apart(b, Block(s, n)) {
      var i := if b.s < s then s else b.s;
      assert (s <= i < s + n ==> !k.bits[i]) && (b.s <= i < b.s + b.n ==> k.bits[i]) by {
        assert OnceEach(k, b.s, b.n);
      }
    }
    var k' := Take(k, s, n);
    forall b | b in live ensures b.n > 0 && OnceEach(k', b.s, b.n) {
      assert Apart(b, Block(s, n)) && OnceEach(k, b.s, b.n);
      assert forall i :: b.s <= i < b.s + b.n ==> k'.bits[i] == k.bits[i] && k'.counts[MEMORY_BASE + i] == k.counts[MEMORY_BASE + i];
    }
  }

  lemma GiveKeepsLive(k: Pages, live: set<Block>, b: Block)
    requires Inv(k) && Live(k, live) && b in live
    ensures b.s + b.n <= |k.bits| && |k.counts| >= MEMORY_BASE + |k.bits|
    ensures Live(Give(k, b.s, b.n), live - {b})
  {
    GiveOnce(k, b.s, b.n);
    var k' := Give(k, b.s, b.n);
    forall a | a in live - {b} ensures OnceEach(k', a.s, a.n) {
      assert Apart(a, b);
    }
  }

  /** Over any run of allocations and releases: a bit is set exactly while its count is not zero,
      `free_pages` is right, and live runs never overlap. */
  lemma {:induction false} RunIsSound(k: Pages, live: set<Block>, es: seq<Event>)
    requires Inv(k) && Live(k, live) && Run(k, live, es).Some?
    ensures Inv(Run(k, live, es).value.0) && Live(Run(k, live, es).value.0, Run(k, live, es).value.1)
    decreases |es|
  {
    if es != [] {
      match es[0]
      case Alloc(n) =>
        var s := Lowest(k.bits, n);
        TakeKeepsInv(k, s, n);
        TakeKeepsLive(k, live, s, n);
        RunIsSound(Take(k, s, n), live + {Block(s, n)}, es[1..]);
      case Free(b) =>
        GiveOnce(k, b.s, b.n);
        GiveKeepsInv(k, b.s, b.n);
        GiveKeepsLive(k, live, b);
        RunIsSound(Give(k, b.s, b.n), live - {b}, es[1..]);
    }
  }

  // ----------------------------------------------------------- the allocator

  class Allocator {
    const map_: Bitmap
    const memMap: array<nat>
    var freePages: int

    ghost function Snap(): Pages
      reads this, map_.bits, memMap
    {
      Pages(map_.Contents(), memMap[..], freePages)
    }

    ghost predicate Valid()
      reads this, map_.bits, memMap
    {
      Inv(Snap())
    }

    /** The end of `memory_map_init`: the pages below the first free one, and of the bits those of
        `mem_map` itself, are taken. */
    constructor (total: nat, mapPages: nat, length: nat, offset: nat, used: nat)
      requires MEMORY_BASE + 8 * length <= total && 0 < mapPages <= 8 * length && used > 0
      ensures Valid() && fresh(memMap) && map_.offset == offset
      ensures Snap() == Pages(Fill(seq(8 * length, _ => false), 0, mapPages, true),
                              seq(total, i => if i < MEMORY_BASE + mapPages then used else 0), total - MEMORY_BASE - mapPages)
    {
      map_ := new Bitmap(length, offset);
      memMap := new nat[total](i => if i < MEMORY_BASE + mapPages then used else 0);
      freePages := total - MEMORY_BASE - mapPages;
      new;
      ghost var clear := map_.Contents();
      assert ClearRun(clear, 0, mapPages);
      var first := map_.Scan(mapPages);
      assert !(0 < first - map_.offset) by {
        assert ClearRun(clear, 0, mapPages);
      }
      ZerosFrom(memMap[..], MEMORY_BASE + mapPages);
    }

    /** `_alloc_kpage`, where a run is free; its asserts hold. */
    method AllocPages(count: nat) returns (index: nat)
      requires Valid() && count > 0 && exists s: nat :: ClearRun(map_.Contents(), s, count)
      modifies this, map_.bits, memMap
      ensures Valid() && index >= map_.offset && IsLowestRun(old(map_.Contents()), index - map_.offset, count)
      ensures Snap() == Take(old(Snap()), index - map_.offset, count)
    {
      ghost var k := Snap();
      var scanned := map_.Scan(count);
      index := scanned;
      ghost var s := index - map_.offset;
      TakeKeepsInv(k, s, count);
      var page := index - map_.offset + MEMORY_BASE;
      for i := 0 to count
        invariant page == MEMORY_BASE + s + i && freePages == k.free - i && map_.Contents() == Fill(k.bits, s, count, true)
        invariant memMap[..] == Fill(k.counts, MEMORY_BASE + s, i, 1)
      {
        assert memMap[page] == 0;
        memMap[page] := 1;
        page := page + 1;
        freePages := freePages - 1;
        assert freePages >= 0;
      }
    }

    /** `_reset_kpage`, of pages in use; its asserts hold. */
    method ResetPages(index: nat, count: nat)
      requires Valid() && count > 0 && index >= map_.offset && InUse(Snap(), index - map_.offset, count)
      modifies this, map_.bits, memMap
      ensures Snap() == Give(old(Snap()), index - map_.offset, count) && Valid()
    {
      ghost var k := Snap();
      ghost var s := index - map_.offset;
      GiveKeepsInv(k, s, count);
      GiveNone(k, s);
      var page := index - map_.offset + MEMORY_BASE;
      hide Give, Inv;
      for i := 0 to count
        invariant page == MEMORY_BASE + s + i && Snap() == Give(k, s, i)
      {
        ResetPage(index + i, page, k, s, i);
        page := page + 1;
      }
    }

    /** The body of its loop. */
    method ResetPage(index: nat, page: nat, ghost k: Pages, ghost s: nat, ghost i: nat)
      requires Inv(k) && InUse(k, s, i + 1) && index == map_.offset + s + i && page == MEMORY_BASE + s + i
      requires Snap() == Give(k, s, i)
      modifies this, map_.bits, memMap
      ensures Snap() == Give(k, s, i + 1)
    {
      hide Inv, ClearLast, Drop, Ones, Zeros, Bitmap.Contents;
      StepDown(k, s, i);
      memMap[page] := memMap[page] - 1;
      if memMap[page] == 0 {
        freePages := freePages + 1;
        var was := map_.Test(index);
        assert was;
        map_.Set(index, false);
      }
    }
  }

  lemma GiveNone(k: Pages, s: nat)
    requires s <= |k.bits| && |k.counts| >= MEMORY_BASE + |k.bits|
    ensures Give(k, s, 0) == k
  {
    assert ClearLast(k, s, 0) == k.bits && Drop(k.counts, MEMORY_BASE + s, 0) == k.counts;
  }
}
