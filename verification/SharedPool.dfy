/** Kernel pages and user frames out of one table of counts: what the page allocator of
    the kernel takes and gives while address spaces come and go. */
module SharedPool {
  import opened Basics
  import opened Bitmaps
  import opened Paging
  import opened CopyOnWrite
  import opened Stops
  import K = KernelPages

  /** What the kernel holds pages for: the control block and stack of a task, its page
      directory, the bits of its mapping bitmap, and all else (heap, pipes, arguments). */
  datatype Owner = TaskPage(p: nat) | DirPage(p: nat) | MapPage(p: nat) | Other(id: nat)

  datatype Sys = Sys(m: Mem, pages: map<Owner, K.Block>)

  // ------------------------------------------- the kernel's part of mem_map

  /** The kernel's allocator over the same counts: a bit is set while the count is not zero. */
  ghost function View(m: Mem): K.Pages
    requires |m.counts| >= FIRST_USER_FRAME
  {
    K.Pages(seq(FIRST_USER_FRAME - K.MEMORY_BASE, i requires 0 <= i < FIRST_USER_FRAME - K.MEMORY_BASE => m.counts[K.MEMORY_BASE + i] != 0),
            m.counts, m.free)
  }

  ghost function WithView(m: Mem, k: K.Pages): Mem { m.(counts := k.counts, free := k.free) }

  lemma ViewIsSound(m: Mem)
    requires Inv(m)
    ensures |m.counts| >= FIRST_USER_FRAME && K.Inv(View(m))
  {}

  /** Only counts of kernel frames, and the number of free frames, have changed. */
  ghost predicate KernelOnly(m: Mem, m': Mem) {
    && m'.dirs == m.dirs && m'.frames == m.frames && |m'.counts| == |m.counts| >= FIRST_USER_FRAME
    && (forall f :: FIRST_USER_FRAME <= f < |m.counts| ==> m'.counts[f] == m.counts[f])
    && m'.counts[0] > 0 && m'.free == |Zeros(m'.counts)|
  }

  /** Only user frames and what names them have changed. */
  ghost predicate UserOnly(m: Mem, m': Mem) {
    |m'.counts| == |m.counts| >= FIRST_USER_FRAME && forall f :: 0 <= f < FIRST_USER_FRAME ==> m'.counts[f] == m.counts[f]
  }

  lemma KernelOnlyTables(m: Mem, m': Mem)
    requires Shape(m) && KernelOnly(m, m')
    ensures Shape(m') && SameEntries(m, m') && SameLive(m, m')
    ensures forall q, e :: HasTable(m', q, e) == HasTable(m, q, e)
    ensures forall q, e :: HasTable(m, q, e) ==> TableFrame(m', q, e) == TableFrame(m, q, e)
  {
    assert forall q, e :: HasTable(m', q, e) == HasTable(m, q, e);
    assert Shape(m');
    forall k ensures Mapped(m', k) == Mapped(m, k) {}
  }

  lemma KernelOnlyAccounting(m: Mem, m': Mem)
    requires Inv(m) && KernelOnly(m, m') && Shape(m')
    ensures Accounting(m')
  {
    KernelOnlyTables(m, m');
    hide SharersAgree, EntriesOk, TablesUnshared;
    forall f | UserFrame(m', f) ensures m'.counts[f] == |Refs(m', f)| {
      forall k ensures k in Refs(m', f) <==> k in Refs(m, f) {
        PlacesAreInRange(k);
      }
      assert Refs(m', f) == Refs(m, f);
    }
  }

  /** What the kernel takes and gives for itself leaves the user frames accounted for. */
  lemma KernelOnlyKeepsInv(m: Mem, m': Mem)
    requires Inv(m) && KernelOnly(m, m')
    ensures Inv(m')
  {
    KernelOnlyTables(m, m');
    KernelOnlyAccounting(m, m');
    hide Accounting;
    forall l | Mapped(m', l) ensures EntryOk(m', EntryAt(m', l)) {
      EntryIsOk(m, l);
    }
  }

  ghost function FreeKernel(m: Mem): set<nat> {
    set f: nat | f < |m.counts| && K.MEMORY_BASE <= f < FIRST_USER_FRAME && m.counts[f] == 0
  }

  // -------------------------------------------------------------- the runs

  ghost predicate Covers(pages: map<Owner, K.Block>, o: Owner, f: nat) {
    o in pages && K.MEMORY_BASE + pages[o].s <= f < K.MEMORY_BASE + pages[o].s + pages[o].n
  }

  /** Every run held is in use page by page, no two owners share a page, and a kernel page
      in use is held by somebody or reserved since boot. */
  ghost predicate Held(s: Sys) {
    && |s.m.counts| >= FIRST_USER_FRAME
    && K.Live(View(s.m), s.pages.Values)
    && (forall f: nat :: f < FIRST_USER_FRAME && s.m.counts[f] > 0 ==> s.m.counts[f] == RESERVED || exists o :: Covers(s.pages, o, f))
    && (forall a, b :: a in s.pages && b in s.pages && s.pages[a] == s.pages[b] ==> a == b)
    && (forall o :: o in s.pages && !o.Other? ==> s.pages[o].n == 1)
  }

  ghost predicate Kept(s: Sys) { Inv(s.m) && Held(s) }

  lemma HeldRun(s: Sys, o: Owner)
    requires Held(s) && o in s.pages
    ensures s.pages[o] in s.pages.Values && s.pages[o].n > 0 && K.OnceEach(View(s.m), s.pages[o].s, s.pages[o].n)
    ensures s.pages[o].s + s.pages[o].n <= FIRST_USER_FRAME - K.MEMORY_BASE
  {
    assert s.pages[o] in s.pages.Values;
  }

  /** `alloc_kpage` for an owner: the lowest run of `n` free kernel pages. */
  ghost function TakeRun(s: Sys, o: Owner, n: nat): Option<Sys>
    requires |s.m.counts| >= FIRST_USER_FRAME
  {
    var k := View(s.m);
    var r := K.Lowest(k.bits, n);
    if n == 0 || r >= |k.bits| then None else Some(Sys(WithView(s.m, K.Take(k, r, n)), s.pages[o := K.Block(r, n)]))
  }

  /** `free_kpage` of what an owner holds. */
  ghost function GiveRun(s: Sys, o: Owner): Sys
    requires Held(s) && o in s.pages
  {
    HeldRun(s, o);
    Sys(WithView(s.m, K.Give(View(s.m), s.pages[o].s, s.pages[o].n)), s.pages - {o})
  }

  lemma ViewAfterTake(m: Mem, r: nat, n: nat)
    requires Inv(m) && |m.counts| >= FIRST_USER_FRAME && ClearRun(View(m).bits, r, n)
    ensures var k := K.Take(View(m), r, n); |k.counts| == |m.counts| && View(WithView(m, k)) == k && KernelOnly(m, WithView(m, k))
  {
    ViewIsSound(m);
    K.TakeKeepsInv(View(m), r, n);
    hide Inv;
    var k := K.Take(View(m), r, n);
    assert View(WithView(m, k)).bits == k.bits;
  }

  lemma ViewAfterGive(m: Mem, r: nat, n: nat)
    requires Inv(m) && |m.counts| >= FIRST_USER_FRAME && K.OnceEach(View(m), r, n)
    ensures var k := K.Pages(Fill(View(m).bits, r, n, false), Fill(m.counts, K.MEMORY_BASE + r, n, 0), m.free + n);
            && K.Give(View(m), r, n) == k && View(WithView(m, k)) == k && KernelOnly(m, WithView(m, k))
  {
    ViewIsSound(m);
    K.GiveOnce(View(m), r, n);
    K.GiveKeepsInv(View(m), r, n);
    hide Inv;
    var k := K.Give(View(m), r, n);
    assert View(WithView(m, k)).bits == k.bits;
  }

  lemma ValuesWith(pages: map<Owner, K.Block>, o: Owner, b: K.Block)
    requires o !in pages
    ensures pages[o := b].Values == pages.Values + {b}
  {
    var after := pages[o := b];
    forall x | x in pages.Values ensures x in after.Values {
      var a :| a in pages && pages[a] == x;
      assert a in after && after[a] == x;
    }
    assert o in after;
  }

  lemma ValuesWithout(pages: map<Owner, K.Block>, o: Owner)
    requires o in pages && forall a, b :: a in pages && b in pages && pages[a] == pages[b] ==> a == b
    ensures (pages - {o}).Values == pages.Values - {pages[o]}
  {
    var after := pages - {o};
    forall x | x in pages.Values && x != pages[o] ensures x in after.Values {
      var a :| a in pages && pages[a] == x;
      assert a in after && after[a] == x;
    }
  }

  /** Taking a run makes it its owner's and nobody else's. */
  lemma TakeRunOk(s: Sys, o: Owner, n: nat)
    requires Kept(s) && o !in s.pages && (o.Other? || n == 1) && TakeRun(s, o, n).Some?
    ensures var s' := TakeRun(s, o, n).value;
            && Kept(s') && KernelOnly(s.m, s'.m) && s'.m.free == s.m.free - n
            && o in s'.pages && s'.pages == s.pages[o := s'.pages[o]] && s'.pages[o].n == n
            && IsLowestRun(View(s.m).bits, s'.pages[o].s, n)
            && s'.m.counts == Fill(s.m.counts, K.MEMORY_BASE + s'.pages[o].s, n, 1)
  {
    var k := View(s.m);
    var r := K.Lowest(k.bits, n);
    var s' := TakeRun(s, o, n).value;
    ViewIsSound(s.m);
    ViewAfterTake(s.m, r, n);
    KernelOnlyKeepsInv(s.m, s'.m);
    K.TakeKeepsLive(k, s.pages.Values, r, n);
    ValuesWith(s.pages, o, K.Block(r, n));
    hide Inv, KernelOnly;
    NewRunIsOwn(s, s', o, K.Block(r, n));
  }

  lemma NewRunIsOwn(s: Sys, s': Sys, o: Owner, b: K.Block)
    requires Held(s) && o !in s.pages && (o.Other? || b.n == 1) && b !in s.pages.Values
    requires s'.pages == s.pages[o := b] && |s'.m.counts| >= FIRST_USER_FRAME && K.Live(View(s'.m), s'.pages.Values)
    requires s'.m.counts == Fill(s.m.counts, K.MEMORY_BASE + b.s, b.n, 1)
    ensures Held(s')
  {
    forall f: nat | f < FIRST_USER_FRAME && s'.m.counts[f] > 0
      ensures s'.m.counts[f] == RESERVED || exists a :: Covers(s'.pages, a, f)
    {
      if K.MEMORY_BASE + b.s <= f < K.MEMORY_BASE + b.s + b.n {
        assert Covers(s'.pages, o, f);
      } else if s.m.counts[f] != RESERVED {
        var a :| Covers(s.pages, a, f);
        assert Covers(s'.pages, a, f);
      }
    }
    forall x, y | x in s'.pages && y in s'.pages && s'.pages[x] == s'.pages[y] ensures x == y {
      assert x != o ==> s.pages[x] in s.pages.Values;
      assert y != o ==> s.pages[y] in s.pages.Values;
    }
  }

  /** Giving a run back frees its pages and takes nothing from the other owners. */
  lemma GiveRunOk(s: Sys, o: Owner)
    requires Kept(s) && o in s.pages
    ensures var s' := GiveRun(s, o); var b := s.pages[o];
            && Kept(s') && KernelOnly(s.m, s'.m) && s'.m.free == s.m.free + b.n && s'.pages == s.pages - {o}
            && s'.m.counts == Fill(s.m.counts, K.MEMORY_BASE + b.s, b.n, 0)
  {
    var b := s.pages[o];
    var s' := GiveRun(s, o);
    HeldRun(s, o);
    ViewIsSound(s.m);
    ViewAfterGive(s.m, b.s, b.n);
    KernelOnlyKeepsInv(s.m, s'.m);
    K.GiveKeepsLive(View(s.m), s.pages.Values, b);
    ValuesWithout(s.pages, o);
    hide Inv, KernelOnly;
    OldRunIsGone(s, s', o);
  }

  lemma OldRunIsGone(s: Sys, s': Sys, o: Owner)
    requires Held(s) && o in s.pages && s'.pages == s.pages - {o}
    requires |s'.m.counts| >= FIRST_USER_FRAME && K.Live(View(s'.m), s'.pages.Values)
    requires s'.m.counts == Fill(s.m.counts, K.MEMORY_BASE + s.pages[o].s, s.pages[o].n, 0)
    ensures Held(s')
  {
    forall f: nat | f < FIRST_USER_FRAME && s'.m.counts[f] > 0
      ensures s'.m.counts[f] == RESERVED || exists a :: Covers(s'.pages, a, f)
    {
      if s.m.counts[f] != RESERVED {
        var a :| Covers(s.pages, a, f);
        assert a != o && Covers(s'.pages, a, f);
      }
    }
  }

  /** Work on user frames leaves every run with its owner. */
  lemma UserOnlyKeepsHeld(s: Sys, m: Mem)
    requires Held(s) && UserOnly(s.m, m)
    ensures Held(s.(m := m))
  {
    assert View(m).bits == View(s.m).bits;
    forall b | b in s.pages.Values ensures b.n > 0 && K.OnceEach(View(m), b.s, b.n) {
      assert K.OnceEach(View(s.m), b.s, b.n);
      assert forall f :: K.MEMORY_BASE + b.s <= f < K.MEMORY_BASE + b.s + b.n ==> m.counts[f] == s.m.counts[f];
    }
  }

  /** One page is to be had exactly when some kernel page is free; then there is one less. */
  lemma TakeOneIff(s: Sys, o: Owner)
    requires Kept(s) && o !in s.pages
    ensures TakeRun(s, o, 1).None? <==> FreeKernel(s.m) == {}
    ensures TakeRun(s, o, 1).Some? ==>
              var m' := TakeRun(s, o, 1).value.m;
              |FreeKernel(m')| == |FreeKernel(s.m)| - 1 && FreeUsers(m') == FreeUsers(s.m)
  {
    var bits := View(s.m).bits;
    var r := K.Lowest(bits, 1);
    forall f | f in FreeKernel(s.m) ensures ClearRun(bits, f - K.MEMORY_BASE, 1) {}
    if r < |bits| {
      var f := K.MEMORY_BASE + r;
      assert ClearRun(bits, r, 1) && !bits[r] && f in FreeKernel(s.m);
      var m' := TakeRun(s, o, 1).value.m;
      assert m'.counts == s.m.counts[f := 1];
      assert FreeKernel(m') == FreeKernel(s.m) - {f};
      assert FreeUsers(m') == FreeUsers(s.m);
    }
  }
}
