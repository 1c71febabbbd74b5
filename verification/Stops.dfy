/** Exactly when each memory operation stops the kernel: where a frame is wanted and
    there is none, and where one of its assertions fails. */
module Stops {
  import opened Basics
  import opened Paging
  import opened Fork
  import opened CopyOnWrite

  // ----------------------------------------------------------- free frames

  /** What `get_user_page` can hand out. */
  ghost function FreeUsers(m: Mem): set<nat> {
    set f: nat | f < |m.counts| && UserFrame(m, f) && m.counts[f] == 0
  }

  lemma FrameLeftIff(m: Mem)
    ensures LowestFree(m).Some? <==> FreeUsers(m) != {}
  {
    if LowestFree(m).Some? {
      assert LowestFree(m).value in FreeUsers(m);
    }
  }

  lemma TakingUsesOne(m: Mem, m': Mem, f: nat)
    requires UserFrame(m, f) && m.counts[f] == 0 && m'.counts == m.counts[f := 1]
    ensures |FreeUsers(m')| == |FreeUsers(m)| - 1
  {
    assert f in FreeUsers(m);
    assert FreeUsers(m') == FreeUsers(m) - {f};
  }

  /** The frames that linking a page at `l` takes. */
  ghost function FramesFor(m: Mem, l: Place): nat
    requires Shape(m)
  {
    if Mapped(m, l) then 0 else if HasTable(m, l.p, l.d) then 1 else 2
  }

  /** `link_user_page` runs out of memory exactly when it wants more frames than are free. */
  lemma LinkStopsIff(m: Mem, l: Place)
    requires Inv(m) && InRange(l) && l.Pte? && Live(m, l.p)
    ensures LinkPage(m, l).None? <==> |FreeUsers(m)| < FramesFor(m, l)
  {
    hide Accounting, SharersAgree, EntriesOk, TablesUnshared;
    FrameLeftIff(m);
    EnsureTableOk(m, l.p, l.d);
    if !HasTable(m, l.p, l.d) && LowestFree(m).Some? {
      var f := LowestFree(m).value;
      var m1 := AddTable(m, l.p, l.d, f);
      TakingUsesOne(m, m1, f);
      FrameLeftIff(m1);
    }
  }

  /** What linking takes, and the one table it may add. */
  lemma LinkTakes(m: Mem, l: Place)
    requires Inv(m) && InRange(l) && l.Pte? && Live(m, l.p) && LinkPage(m, l).Some?
    ensures var n := LinkPage(m, l).value;
            && Inv(n) && |FreeUsers(n)| == |FreeUsers(m)| - FramesFor(m, l) && n.free == m.free - FramesFor(m, l)
            && (forall q, e :: HasTable(n, q, e) <==> HasTable(m, q, e) || (q == l.p && e == l.d))
  {
    hide Accounting, SharersAgree, EntriesOk, TablesUnshared;
    EnsureTableOk(m, l.p, l.d);
    var m1 := EnsureTable(m, l.p, l.d).value;
    if !HasTable(m, l.p, l.d) {
      var f := LowestFree(m).value;
      AddTableStructure(m, l.p, l.d, f);
      TakingUsesOne(m, m1, f);
    }
    if !Mapped(m1, l) {
      var f := LowestFree(m1).value;
      AddPageMaps(m1, l, f, m1.frames[f]);
      TakingUsesOne(m1, LinkPage(m, l).value, f);
    }
  }

  // ------------------------------------------------------------------ fork

  ghost function Tables(m: Mem, p: nat, i: nat): set<nat>
    requires |m.dirs| == TASK_NR
  {
    set d: nat | d < i && HasTable(m, p, d)
  }

  lemma TablesStep(m: Mem, p: nat, d: nat)
    requires |m.dirs| == TASK_NR
    ensures |Tables(m, p, d + 1)| == |Tables(m, p, d)| + if HasTable(m, p, d) then 1 else 0
  {
    assert Tables(m, p, d + 1) == if HasTable(m, p, d) then Tables(m, p, d) + {d} else Tables(m, p, d);
  }

  lemma ForkTableUsesOne(m: Mem, p: nat, c: nat, d: nat, f: nat)
    requires CanForkTable(m, p, c, d, f)
    ensures |FreeUsers(ForkTable(m, p, c, d, f))| == |FreeUsers(m)| - 1
    ensures ForkTable(m, p, c, d, f).free == m.free - 1
  {
    ForkTableZeros(m, p, c, d, f);
    hide Accounting, SharersAgree, EntriesOk, TablesUnshared;
    var m' := ForkTable(m, p, c, d, f);
    forall g: nat ensures g in FreeUsers(m') <==> g in FreeUsers(m) && g != f {
      assert g in Zeros(m'.counts) <==> g in Zeros(m.counts) && g != f;
    }
    assert f in FreeUsers(m);
    assert FreeUsers(m') == FreeUsers(m) - {f};
  }

  lemma NoTablesYet(m: Mem, p: nat, c: nat)
    requires |m.dirs| == TASK_NR && Live(m, p) && c < TASK_NR
    ensures Tables(m, p, 0) == {} && FreeUsers(NewSpace(m, p, c)) == FreeUsers(m) && NewSpace(m, p, c).free == m.free
  {}

  /** `copy_pte` takes one frame for each page table of the parent, and runs out of memory
      exactly when there are fewer. */
  lemma {:induction false} ForkStopsIff(m: Mem, p: nat, c: nat, i: nat)
    requires Inv(m) && Live(m, p) && c < TASK_NR && !Live(m, c) && i <= USER_DIRS
    ensures ForkUpTo(m, p, c, i).None? <==> |FreeUsers(m)| < |Tables(m, p, i)|
    ensures ForkUpTo(m, p, c, i).Some? ==>
              var n := ForkUpTo(m, p, c, i).value;
              |FreeUsers(n)| == |FreeUsers(m)| - |Tables(m, p, i)| && n.free == m.free - |Tables(m, p, i)|
  {
    hide Accounting, SharersAgree, EntriesOk, TablesUnshared;
    hide ForkTable, NewSpace, FreeUsers, Tables;
    if i == 0 {
      NoTablesYet(m, p, c);
    } else {
      ForkStopsIff(m, p, c, i - 1);
      TablesStep(m, p, i - 1);
      if ForkUpTo(m, p, c, i - 1).Some? {
        var n := ForkUpTo(m, p, c, i - 1).value;
        assert HasTable(n, p, i - 1) == HasTable(m, p, i - 1);
        FrameLeftIff(n);
        if HasTable(n, p, i - 1) && LowestFree(n).Some? {
          ForkTableUsesOne(n, p, c, i - 1, LowestFree(n).value);
        }
      }
    }
  }

  // ------------------------------------------------------- exit and unlink

  /** The frame that `free_pte`, from entry `t` of table `d` on, gives back first. */
  ghost function FirstBack(m: Mem, p: nat, d: nat, t: nat): (r: Option<nat>)
    requires Inv(m) && p < TASK_NR && d <= USER_DIRS && t <= ENTRIES
    ensures r.Some? ==> UserFrame(m, r.value)
    decreases USER_DIRS - d, ENTRIES - t
  {
    if d == USER_DIRS then None
    else if !HasTable(m, p, d) then FirstBack(m, p, d + 1, 0)
    else if t == ENTRIES then Some(TableFrame(m, p, d))
    else if Mapped(m, Pte(p, d, t)) then
      EntryIsOk(m, Pte(p, d, t));
      Some(EntryAt(m, Pte(p, d, t)).index)
    else FirstBack(m, p, d, t + 1)
  }

  /** Nobody is left without a frame when one is given back that has no other user. */
  lemma PageBack(m: Mem, l: Place)
    requires Inv(m) && Mapped(m, l)
    ensures EntryAt(m, l).index < |m.counts| && m.counts[EntryAt(m, l).index] >= 1
    ensures RemovePage(m, l.p, l.d, l.t).free == m.free + if m.counts[EntryAt(m, l).index] == 1 then 1 else 0
  {
    RemovePageKeepsInv(m, l);
  }

  /** With a free frame to begin with, every assertion on `free_pages` holds. */
  lemma {:induction false} FreeFrameFits(m: Mem, p: nat, d: nat, t: nat)
    requires Inv(m) && p < TASK_NR && Live(m, p) && d <= USER_DIRS && t <= ENTRIES
    requires Cleared(m, p, d, t)
    requires m.free > 0
    ensures FreeFits(m, p, d, t)
    decreases USER_DIRS - d, ENTRIES - t
  {
    if d < USER_DIRS {
      if !HasTable(m, p, d) {
        FreeFrameFits(m, p, d + 1, 0);
      } else if t == ENTRIES {
        ClearTable(m, p, d);
        hide Accounting, SharersAgree, EntriesOk;
        FreeFrameFits(RemoveTable(m, p, d), p, d + 1, 0);
      } else if !Mapped(m, Pte(p, d, t)) {
        FreeFrameFits(m, p, d, t + 1);
      } else {
        ClearPage(m, p, d, t);
        PageBack(m, Pte(p, d, t));
        hide Accounting, SharersAgree, EntriesOk, TablesUnshared;
        FreeFrameFits(RemovePage(m, p, d, t), p, d, t + 1);
      }
    }
  }

  /** An emptied table goes back, and its frame is free then. */
  lemma TableBackFits(m: Mem, p: nat, d: nat)
    requires Inv(m) && p < TASK_NR && Live(m, p) && d < USER_DIRS && HasTable(m, p, d) && Cleared(m, p, d, ENTRIES)
    ensures FreeFits(m, p, d, ENTRIES) && m.counts[TableFrame(m, p, d)] == 1
  {
    ClearTable(m, p, d);
    hide Accounting, SharersAgree, EntriesOk;
    FreeFrameFits(RemoveTable(m, p, d), p, d + 1, 0);
  }

  lemma PageBackFits(m: Mem, p: nat, d: nat, t: nat)
    requires Inv(m) && p < TASK_NR && Live(m, p) && d < USER_DIRS && t < ENTRIES && Cleared(m, p, d, t)
    requires Mapped(m, Pte(p, d, t)) && EntryAt(m, Pte(p, d, t)).index < |m.counts|
    ensures FreeFits(m, p, d, t) <==> m.free > 0 || m.counts[EntryAt(m, Pte(p, d, t)).index] == 1
  {
    ClearPage(m, p, d, t);
    PageBack(m, Pte(p, d, t));
    FreeNotNegative(m);
    hide Accounting, SharersAgree, EntriesOk, TablesUnshared;
    if RemovePage(m, p, d, t).free > 0 {
      FreeFrameFits(RemovePage(m, p, d, t), p, d, t + 1);
    }
  }

  lemma FreeNotNegative(m: Mem)
    requires Inv(m)
    ensures m.free >= 0
  {}

  ghost predicate BackFits(m: Mem, p: nat, d: nat, t: nat)
    requires Inv(m) && p < TASK_NR && d <= USER_DIRS && t <= ENTRIES
  {
    m.free > 0 || FirstBack(m, p, d, t).None? || m.counts[FirstBack(m, p, d, t).value] == 1
  }

  /** Giving everything back passes the assertions exactly when a frame is free already,
      or there is nothing to give back, or what is given back first becomes free. */
  lemma {:induction false} FreeFitsIff(m: Mem, p: nat, d: nat, t: nat)
    requires Inv(m) && p < TASK_NR && Live(m, p) && d <= USER_DIRS && t <= ENTRIES
    requires Cleared(m, p, d, t)
    ensures FreeFits(m, p, d, t) <==> BackFits(m, p, d, t)
    decreases USER_DIRS - d, ENTRIES - t
  {
    hide Accounting, SharersAgree, EntriesOk, TablesUnshared;
    if d < USER_DIRS {
      if !HasTable(m, p, d) {
        FreeFitsIff(m, p, d + 1, 0);
      } else if t == ENTRIES {
        TableBackFits(m, p, d);
      } else if !Mapped(m, Pte(p, d, t)) {
        FreeFitsIff(m, p, d, t + 1);
      } else {
        EntryIsOk(m, Pte(p, d, t));
        PageBackFits(m, p, d, t);
      }
    }
  }

  /** Where `sys_exit` stops the kernel: for the first two tasks, and where the frame that
      it gives back first has another user while no frame is free. */
  ghost predicate KillStops(m: Mem, p: nat)
    requires Inv(m) && p < TASK_NR
  {
    p < 2 || !BackFits(m, p, 0, 0)
  }

  lemma KillStopsIff(m: Mem, p: nat)
    requires Inv(m) && p < TASK_NR && Live(m, p)
    ensures Kill(m, p) == if KillStops(m, p) then Panic else Killed(Exit(m, p))
  {
    FreeFitsIff(m, p, 0, 0);
  }

  ghost predicate UnlinkStops(m: Mem, l: Place)
    requires Inv(m) && InRange(l) && l.Pte?
  {
    if Mapped(m, l) then
      EntryIsOk(m, l);
      m.free == 0 && m.counts[EntryAt(m, l).index] != 1
    else !HasTable(m, l.p, l.d) && FreeUsers(m) == {}
  }

  /** `unlink_user_page` stops exactly when the page has another user while no frame is
      free, or when the page table that it makes on the way finds no frame. */
  lemma UnlinkStopsIff(m: Mem, l: Place)
    requires Inv(m) && InRange(l) && l.Pte? && Live(m, l.p)
    ensures UnlinkPage(m, l).None? <==> UnlinkStops(m, l)
  {
    EnsureTableOk(m, l.p, l.d);
    FrameLeftIff(m);
    if Mapped(m, l) {
      PageBack(m, l);
    }
  }

  // ------------------------------------------------------- user accesses

  /** An access to a page that is not there: on the stack it is linked, elsewhere it is fatal. */
  ghost predicate MissStops(m: Mem, p: nat, a: nat)
    requires Inv(m) && p < TASK_NR
  {
    if OnStack(a) then |FreeUsers(m)| < FramesFor(m, PlaceOf(p, a)) else KillStops(m, p)
  }

  lemma MissStopsIff(m: Mem, p: nat, a: nat, writing: bool)
    requires Inv(m) && p < TASK_NR && Live(m, p) && !(UserAddress(a) && Mapped(m, PlaceOf(p, a)))
    ensures PageFault(m, p, a, writing).Panic? <==> MissStops(m, p, a)
  {
    AddressParts(a);
    KillStopsIff(m, p);
    if OnStack(a) {
      LinkStopsIff(m, PlaceOf(p, a));
    }
  }

  ghost predicate LoadStops(m: Mem, p: nat, a: nat)
    requires Inv(m) && p < TASK_NR
  {
    !(UserAddress(a) && Mapped(m, PlaceOf(p, a))) && MissStops(m, p, a)
  }

  /** A load from a page that is there always goes through. */
  lemma LoadStopsIff(m: Mem, p: nat, a: nat)
    requires Inv(m) && p < TASK_NR && Live(m, p)
    ensures Load(m, p, a).Panic? <==> LoadStops(m, p, a)
  {
    if UserAddress(a) && Mapped(m, PlaceOf(p, a)) {
      EntryIsOk(m, PlaceOf(p, a));
    } else {
      hide Accounting, SharersAgree, EntriesOk, TablesUnshared, PageFault;
      MissStopsIff(m, p, a, false);
    }
  }

  ghost predicate StoreStops(m: Mem, p: nat, a: nat)
    requires Inv(m) && p < TASK_NR
  {
    var l := PlaceOf(p, a);
    if UserAddress(a) && Mapped(m, l) then
      EntryIsOk(m, l);
      var w := EntryAt(m, l);
      !w.write && (w.shared || if w.readonly then KillStops(m, p) else WaitStops(m, w.index))
    else MissStops(m, p, a)
  }

  /** A store to a page that waits to be copied: more than two users, or two and no frame
      for the copy. */
  ghost predicate WaitStops(m: Mem, f: nat)
    requires f < |m.counts|
  {
    m.counts[f] > 2 || (m.counts[f] == 2 && FreeUsers(m) == {})
  }

  /** Exactly when a store stops the kernel. */
  lemma StoreStopsIff(m: Mem, p: nat, a: nat, w: Word)
    requires Inv(m) && p < TASK_NR && Live(m, p)
    ensures Store(m, p, a, w).Panic? <==> StoreStops(m, p, a)
  {
    var l := PlaceOf(p, a);
    if UserAddress(a) && Mapped(m, l) {
      EntryIsOk(m, l);
      NamedIsCounted(m, l, EntryAt(m, l).index);
      KillStopsIff(m, p);
      if m.counts[EntryAt(m, l).index] == 2 {
        CopyStopsIff(m, l);
      }
    } else {
      hide Accounting, SharersAgree, EntriesOk, TablesUnshared, PageFault;
      MissStopsIff(m, p, a, true);
    }
  }

  /** Giving up one of two references frees nothing, so the search finds what it found before. */
  lemma CopyStopsIff(m: Mem, l: Place)
    requires Inv(m) && Mapped(m, l)
    requires EntryAt(m, l).index < |m.counts| && m.counts[EntryAt(m, l).index] == 2
    ensures CopyPage(m, l).None? <==> FreeUsers(m) == {}
  {
    RemovePageKeepsInv(m, l);
    var m1 := RemovePage(m, l.p, l.d, l.t);
    FrameLeftIff(m1);
    assert FreeUsers(m1) == FreeUsers(m);
  }

  /** A store to a page marked readonly kills the process, exactly when the page is not
      shared memory; the kernel stops where it is. */
  lemma ReadonlyStoreKillsIff(m: Mem, p: nat, a: nat, w: Word)
    requires Inv(m) && 2 <= p < TASK_NR && Live(m, p) && UserAddress(a) && Mapped(m, PlaceOf(p, a))
    requires EntryAt(m, PlaceOf(p, a)).readonly && m.free > 0
    ensures Store(m, p, a, w) == if EntryAt(m, PlaceOf(p, a)).shared then Panic else Killed(Exit(m, p))
  {
    hide Accounting, SharersAgree, TablesUnshared;
    EntryIsOk(m, PlaceOf(p, a));
    KillStopsIff(m, p);
  }
}
