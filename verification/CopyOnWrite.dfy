/** User-visible memory operations, and the machine they must look like: one in
    which `fork` copies every private page at once. */
module CopyOnWrite {
  import opened Basics
  import opened Paging
  import opened Fork

  // ------------------------------------------------------------- addresses

  function DirOf(a: nat): nat { a / 0x40_0000 }
  function EntryOf(a: nat): nat { a / 4096 % 1024 }
  function WordOf(a: nat): nat { a % 4096 / 4 }

  predicate UserAddress(a: nat) { a <= USER_STACK_TOP }
  predicate OnStack(a: nat) { USER_STACK_BOTTOM < a <= USER_STACK_TOP }

  lemma AddressParts(a: nat)
    ensures EntryOf(a) < ENTRIES && WordOf(a) < ENTRIES
    ensures UserAddress(a) ==> DirOf(a) < USER_DIRS
  {}

  function PlaceOf(p: nat, a: nat): Place { Pte(p, DirOf(a), EntryOf(a)) }

  // ------------------------------------------------- the kernel's operations

  predicate Live(m: Mem, p: nat) { p < |m.dirs| && m.dirs[p].Some? }

  /** The same tasks have an address space. */
  ghost predicate SameLive(m: Mem, m': Mem) {
    forall q: nat :: Live(m', q) == Live(m, q)
  }

  /** The frames that `m` maps hold the same words in `m'`. */
  ghost predicate SamePages(m: Mem, m': Mem)
    requires Shape(m)
  {
    |m'.frames| == |m.frames| && forall l :: Mapped(m, l) && EntryAt(m, l).index < |m.frames| ==> m'.frames[EntryAt(m, l).index] == m.frames[EntryAt(m, l).index]
  }

  /** First-fit search for a free user frame, from frame `i` up. */
  function LowestFreeFrom(counts: seq<nat>, i: nat): (r: Option<nat>)
    ensures r.Some? ==> i <= r.value < |counts| && counts[r.value] == 0 && forall g :: i <= g < r.value ==> counts[g] != 0
    ensures r.None? ==> forall g :: i <= g < |counts| ==> counts[g] != 0
    decreases |counts| - i
  {
    if i >= |counts| then None
    else if counts[i] == 0 then Some(i)
    else LowestFreeFrom(counts, i + 1)
  }

  function LowestFree(m: Mem): (r: Option<nat>)
    ensures r.Some? ==> UserFrame(m, r.value) && m.counts[r.value] == 0
  {
    LowestFreeFrom(m.counts, FIRST_USER_FRAME)
  }

  /** `get_pte`: the page table for `a` is created when it is missing. */
  ghost function EnsureTable(m: Mem, p: nat, d: nat): Option<Mem>
    requires Shape(m) && p < TASK_NR && Live(m, p) && d < USER_DIRS
  {
    if HasTable(m, p, d) then Some(m)
    else match LowestFree(m)
      case None => None
      case Some(f) => Some(AddTable(m, p, d, f))
  }

  /** `link_user_page`. */
  ghost function LinkPage(m: Mem, l: Place): Option<Mem>
    requires Inv(m) && InRange(l) && l.Pte? && Live(m, l.p)
  {
    match EnsureTable(m, l.p, l.d)
    case None => None
    case Some(m1) =>
      EnsureTableOk(m, l.p, l.d);
      if Mapped(m1, l) then Some(m1)
      else match LowestFree(m1)
        case None => None
        case Some(f) => Some(AddPage(m1, l.p, l.d, l.t, f, m1.frames[f]))
  }

  /** `unlink_user_page`; `put_user_page` asserts that some frame is free afterwards. */
  ghost function UnlinkPage(m: Mem, l: Place): Option<Mem>
    requires Inv(m) && InRange(l) && l.Pte? && Live(m, l.p)
  {
    match EnsureTable(m, l.p, l.d)
    case None => None
    case Some(m1) =>
      EnsureTableOk(m, l.p, l.d);
      if Mapped(m1, l) then
        RemovePageKeepsInv(m1, l);
        var r := RemovePage(m1, l.p, l.d, l.t);
        if r.free > 0 then Some(r) else None
      else Some(m1)
  }

  lemma EnsureTableOk(m: Mem, p: nat, d: nat)
    requires Inv(m) && p < TASK_NR && Live(m, p) && d < USER_DIRS
    ensures EnsureTable(m, p, d).Some? ==>
              var m1 := EnsureTable(m, p, d).value;
              Inv(m1) && SameEntries(m, m1) && HasTable(m1, p, d) && SameLive(m, m1) && SamePages(m, m1)
  {
    if !HasTable(m, p, d) && LowestFree(m).Some? {
      var f := LowestFree(m).value;
      AddTableStructure(m, p, d, f);
      AddTableKeepsInv(m, p, d, f);
      FreeFrameIsUnnamed(m, f);
    }
  }

  /** The permission fields that `sys_mmap` gives an entry. */
  function MmapWord(w: Word, writable: bool, share: bool, priv: bool): Word {
    w.(user := true, write := writable, readonly := !writable,
       shared := w.shared || share, privat := w.privat || (!share && priv))
  }

  /** `sys_mmap` for one page. */
  ghost function MmapPage(m: Mem, l: Place, writable: bool, share: bool, priv: bool): Option<Mem>
    requires Inv(m) && InRange(l) && l.Pte? && Live(m, l.p)
  {
    match LinkPage(m, l)
    case None => None
    case Some(m1) =>
      LinkPageMaps(m, l);
      Some(SetEntry(m1, l.p, l.d, l.t, MmapWord(EntryAt(m1, l), writable, share, priv)))
  }

  lemma LinkPageMaps(m: Mem, l: Place)
    requires Inv(m) && InRange(l) && l.Pte? && Live(m, l.p)
    ensures LinkPage(m, l).Some? ==>
              var m1 := LinkPage(m, l).value;
              && Inv(m1) && SameLive(m, m1) && SamePages(m, m1) && SameExceptEntries(m, m1, l)
              && Mapped(m1, l) && (Mapped(m, l) ==> EntryAt(m1, l) == EntryAt(m, l))
              && (!Mapped(m, l) ==> EntryAt(m1, l) == UserEntry(EntryAt(m1, l).index) && m1.counts[EntryAt(m1, l).index] == 1)
  {
    EnsureTableOk(m, l.p, l.d);
    if LinkPage(m, l).Some? {
      var m0 := EnsureTable(m, l.p, l.d).value;
      if !Mapped(m0, l) {
        AddPageMaps(m0, l, LowestFree(m0).value, m0.frames[LowestFree(m0).value]);
      }
    }
  }

  /** The same entries, except at `l`; tables may have come. */
  ghost predicate SameExceptEntries(m: Mem, m': Mem, l: Place)
    requires Shape(m) && Shape(m')
  {
    && |m'.counts| == |m.counts|
    && (forall k :: k != l ==> Mapped(m', k) == Mapped(m, k))
    && (forall k :: k != l && Mapped(m, k) ==> EntryAt(m', k) == EntryAt(m, k))
  }

  lemma AddPageMaps(m: Mem, l: Place, f: nat, pg: Page)
    requires Inv(m) && UserFrame(m, f) && m.counts[f] == 0
    requires l.Pte? && HasTable(m, l.p, l.d) && l.t < ENTRIES && !Mapped(m, l)
    ensures var m1 := AddPage(m, l.p, l.d, l.t, f, pg);
            && Inv(m1) && SameExceptAt(m, m1, l) && SameLive(m, m1) && SamePages(m, m1)
            && Mapped(m1, l) && EntryAt(m1, l) == UserEntry(f) && m1.counts[f] == 1 && m1.frames[f] == pg
  {
    AddPageKeepsInv(m, l, f, pg);
    FreeFrameIsUnnamed(m, f);
    TablesAreDistinct(m);
  }

  // ------------------------------------------------------------------ exit

  /** Nothing changes outside the address space of `p`. */
  ghost predicate OthersKept(m: Mem, m': Mem, p: nat)
    requires Shape(m) && Shape(m')
  {
    && |m'.counts| == |m.counts|
    && (forall q: nat :: q != p ==> Live(m', q) == Live(m, q))
    && (forall q, d :: q != p ==> HasTable(m', q, d) == HasTable(m, q, d))
    && (forall q, d :: q != p && HasTable(m, q, d) ==> TableFrame(m', q, d) == TableFrame(m, q, d))
    && (forall l: Place :: l.p != p ==> Mapped(m', l) == Mapped(m, l))
    && (forall l: Place :: l.p != p && Mapped(m, l) ==> EntryAt(m', l) == EntryAt(m, l))
    && (forall l: Place :: l.p != p && Mapped(m, l) && EntryAt(m, l).index < |m.frames|
                    ==> m'.frames[EntryAt(m, l).index] == m.frames[EntryAt(m, l).index])
  }

  lemma OthersKeptTransitive(m: Mem, n: Mem, r: Mem, p: nat)
    requires Inv(m) && Inv(n) && Inv(r) && OthersKept(m, n, p) && OthersKept(n, r, p)
    ensures OthersKept(m, r, p)
  {}

  /** The first `t` entries of table `d` are gone. */
  ghost predicate Cleared(m: Mem, p: nat, d: nat, t: nat)
    requires Shape(m)
  {
    d < USER_DIRS && HasTable(m, p, d) ==> forall u: nat :: u < t ==> !Mapped(m, Pte(p, d, u))
  }

  lemma ClearPage(m: Mem, p: nat, d: nat, t: nat)
    requires Inv(m) && Mapped(m, Pte(p, d, t)) && Live(m, p) && Cleared(m, p, d, t)
    ensures EntryAt(m, Pte(p, d, t)).index < |m.counts| && m.counts[EntryAt(m, Pte(p, d, t)).index] >= 1
    ensures var r := RemovePage(m, p, d, t); Inv(r) && Live(r, p) && Cleared(r, p, d, t + 1)
  {
    RemovePageKeepsInv(m, Pte(p, d, t));
  }

  lemma ClearTable(m: Mem, p: nat, d: nat)
    requires Inv(m) && HasTable(m, p, d) && Live(m, p) && Cleared(m, p, d, ENTRIES)
    ensures m.counts[TableFrame(m, p, d)] >= 1
    ensures var r := RemoveTable(m, p, d); Inv(r) && Live(r, p) && Cleared(r, p, d + 1, 0)
  {
    RemoveTableKeepsInv(m, p, d);
  }

  /** The loops of `free_pte`, from entry `t` of table `d` on. */
  ghost function FreeFrom(m: Mem, p: nat, d: nat, t: nat): (r: Mem)
    requires Inv(m) && p < TASK_NR && Live(m, p) && d <= USER_DIRS && t <= ENTRIES
    requires Cleared(m, p, d, t)
    ensures Inv(r) && Live(r, p)
    decreases USER_DIRS - d, ENTRIES - t
  {
    if d == USER_DIRS then m
    else if !HasTable(m, p, d) then FreeFrom(m, p, d + 1, 0)
    else if t == ENTRIES then
      ClearTable(m, p, d);
      FreeFrom(RemoveTable(m, p, d), p, d + 1, 0)
    else if !Mapped(m, Pte(p, d, t)) then FreeFrom(m, p, d, t + 1)
    else
      ClearPage(m, p, d, t);
      FreeFrom(RemovePage(m, p, d, t), p, d, t + 1)
  }

  /** `free_pte` leaves its owner without tables and every other address space alone. */
  lemma {:induction false} FreeFromOk(m: Mem, p: nat, d: nat, t: nat)
    requires Inv(m) && p < TASK_NR && Live(m, p) && d <= USER_DIRS && t <= ENTRIES
    requires Cleared(m, p, d, t)
    requires forall e: nat :: e < d ==> !HasTable(m, p, e)
    ensures OthersKept(m, FreeFrom(m, p, d, t), p)
    ensures forall e :: !HasTable(FreeFrom(m, p, d, t), p, e)
    decreases USER_DIRS - d, ENTRIES - t
  {
    hide Accounting, SharersAgree, EntriesOk;
    if d == USER_DIRS {
    } else if !HasTable(m, p, d) {
      FreeFromOk(m, p, d + 1, 0);
    } else if t == ENTRIES {
      RemoveTableKeepsOthers(m, p, d);
      var n := RemoveTable(m, p, d);
      FreeFromOk(n, p, d + 1, 0);
      OthersKeptTransitive(m, n, FreeFrom(n, p, d + 1, 0), p);
    } else if !Mapped(m, Pte(p, d, t)) {
      FreeFromOk(m, p, d, t + 1);
    } else {
      RemovePageKeepsOthers(m, Pte(p, d, t));
      var n := RemovePage(m, p, d, t);
      FreeFromOk(n, p, d, t + 1);
      OthersKeptTransitive(m, n, FreeFrom(n, p, d, t + 1), p);
    }
  }

  lemma RemovePageKeepsOthers(m: Mem, l: Place)
    requires Inv(m) && Mapped(m, l)
    ensures EntryAt(m, l).index < |m.counts| && m.counts[EntryAt(m, l).index] >= 1
    ensures var r := RemovePage(m, l.p, l.d, l.t);
            && Inv(r) && SameLive(m, r) && SameExceptAt(m, r, l) && SamePages(m, r) && !Mapped(r, l)
            && OthersKept(m, r, l.p)
  {
    RemovePageKeepsInv(m, l);
    TablesAreDistinct(m);
  }

  lemma RemoveTableKeepsOthers(m: Mem, p: nat, d: nat)
    requires Inv(m) && HasTable(m, p, d) && (forall t: nat :: t < ENTRIES ==> !Mapped(m, Pte(p, d, t)))
    ensures var r := RemoveTable(m, p, d);
            && Inv(r) && SameLive(m, r) && SameEntries(m, r) && OthersKept(m, r, p)
            && (forall e :: HasTable(r, p, e) <==> HasTable(m, p, e) && e != d)
  {
    RemoveTableKeepsInv(m, p, d);
    RemoveTableStructure(m, RemoveTable(m, p, d), p, d, m.dirs[p].value[d].(present := false));
  }

  /** Every `put_user_page` of `free_pte` leaves some frame free, as it asserts. */
  ghost predicate FreeFits(m: Mem, p: nat, d: nat, t: nat)
    requires Inv(m) && p < TASK_NR && Live(m, p) && d <= USER_DIRS && t <= ENTRIES
    requires Cleared(m, p, d, t)
    decreases USER_DIRS - d, ENTRIES - t
  {
    if d == USER_DIRS then true
    else if !HasTable(m, p, d) then FreeFits(m, p, d + 1, 0)
    else if t == ENTRIES then
      ClearTable(m, p, d);
      RemoveTable(m, p, d).free > 0 && FreeFits(RemoveTable(m, p, d), p, d + 1, 0)
    else if !Mapped(m, Pte(p, d, t)) then FreeFits(m, p, d, t + 1)
    else
      ClearPage(m, p, d, t);
      RemovePage(m, p, d, t).free > 0 && FreeFits(RemovePage(m, p, d, t), p, d, t + 1)
  }

  ghost function Exit(m: Mem, p: nat): Mem
    requires Inv(m) && p < TASK_NR && Live(m, p)
  {
    var r := FreeFrom(m, p, 0, 0);
    r.(dirs := r.dirs[p := None])
  }

  lemma ExitOk(m: Mem, p: nat)
    requires Inv(m) && p < TASK_NR && Live(m, p)
    ensures Inv(Exit(m, p)) && OthersKept(m, Exit(m, p), p) && !Live(Exit(m, p), p)
    ensures forall l :: Mapped(Exit(m, p), l) ==> l.p != p
  {
    var r := FreeFrom(m, p, 0, 0);
    FreeFromOk(m, p, 0, 0);
    DropEmptySpace(r, Exit(m, p), p);
    OthersKeptTransitive(m, r, Exit(m, p), p);
  }

  lemma DropEmptySpace(r: Mem, m': Mem, p: nat)
    requires Inv(r) && p < TASK_NR && (forall e :: !HasTable(r, p, e))
    requires m' == r.(dirs := r.dirs[p := None])
    ensures Inv(m') && OthersKept(r, m', p) && (forall l :: Mapped(m', l) ==> l.p != p)
  {
    assert forall q, e :: HasTable(m', q, e) == HasTable(r, q, e);
    assert forall q, e :: HasTable(m', q, e) ==> TableFrame(m', q, e) == TableFrame(r, q, e);
    assert Shape(m');
    forall k ensures Mapped(m', k) == Mapped(r, k) {}
    SameEntriesSameInv(r, m');
  }

  /** The same tables and entries under the same counts. */
  lemma SameEntriesSameInv(m: Mem, m': Mem)
    requires Inv(m) && SameEntries(m, m') && m'.counts == m.counts && m'.free == m.free
    requires forall q, e :: HasTable(m', q, e) == HasTable(m, q, e)
    requires forall q, e :: HasTable(m, q, e) ==> TableFrame(m', q, e) == TableFrame(m, q, e)
    ensures Inv(m')
  {
    SameNamesKeepAccounting(m, m');
  }

  // ------------------------------------------------------------------ fork

  /** `copy_pde`: the child starts with the parent's directory; its tables follow. */
  function NewSpace(m: Mem, p: nat, c: nat): Mem
    requires Live(m, p) && c < |m.dirs|
  {
    m.(dirs := m.dirs[c := Some(seq(USER_DIRS, e requires 0 <= e < USER_DIRS => m.dirs[p].value[e].(present := false)))])
  }

  lemma NewSpaceSame(m: Mem, m': Mem, p: nat, c: nat)
    requires Inv(m) && Live(m, p) && c < TASK_NR && !Live(m, c) && m' == NewSpace(m, p, c)
    ensures SameEntries(m, m') && (forall e :: !HasTable(m', c, e))
    ensures forall q, e :: HasTable(m', q, e) == HasTable(m, q, e)
    ensures forall q, e :: HasTable(m, q, e) ==> TableFrame(m', q, e) == TableFrame(m, q, e)
  {
    hide Accounting, TablesUnshared, EntriesOk, SharersAgree;
    assert forall q, e :: HasTable(m', q, e) == HasTable(m, q, e);
    assert forall q, e :: HasTable(m', q, e) ==> TableFrame(m', q, e) == TableFrame(m, q, e);
    assert Shape(m');
    forall k ensures Mapped(m', k) == Mapped(m, k) {}
  }

  lemma NewSpaceOk(m: Mem, p: nat, c: nat)
    requires Inv(m) && Live(m, p) && c < TASK_NR && !Live(m, c)
    ensures Inv(NewSpace(m, p, c)) && OthersKept(m, NewSpace(m, p, c), c)
    ensures forall e :: !HasTable(NewSpace(m, p, c), c, e)
  {
    NewSpaceSame(m, NewSpace(m, p, c), p, c);
    SameEntriesSameInv(m, NewSpace(m, p, c));
  }

  /** A copy that goes on with table `i`. */
  ghost predicate Forking(m: Mem, n: Mem, p: nat, c: nat, i: nat)
    requires p < |m.dirs|
  {
    Inv(n) && Live(n, p) && Live(n, c) && n.dirs[p] == m.dirs[p] && forall e :: e >= i ==> !HasTable(n, c, e)
  }

  lemma ForkGoesOn(m: Mem, n: Mem, p: nat, c: nat, d: nat, f: nat)
    requires p < |m.dirs| && c < TASK_NR && p != c && d < USER_DIRS && Forking(m, n, p, c, d) && HasTable(n, p, d)
    requires UserFrame(n, f) && n.counts[f] == 0
    ensures Forking(m, ForkTable(n, p, c, d, f), p, c, d + 1)
  {
    ForkTableKeepsInv(n, p, c, d, f);
  }

  /** The first `i` page tables of `p` have been copied to `c`. */
  ghost function ForkUpTo(m: Mem, p: nat, c: nat, i: nat): (r: Option<Mem>)
    requires Inv(m) && Live(m, p) && c < TASK_NR && !Live(m, c) && i <= USER_DIRS
    ensures r.Some? ==> Forking(m, r.value, p, c, i)
  {
    if i == 0 then
      NewSpaceOk(m, p, c);
      Some(NewSpace(m, p, c))
    else
      match ForkUpTo(m, p, c, i - 1)
      case None => None
      case Some(n) =>
        if !HasTable(n, p, i - 1) then Some(n)
        else match LowestFree(n)
          case None => None
          case Some(f) =>
            ForkGoesOn(m, n, p, c, i - 1, f);
            Some(ForkTable(n, p, c, i - 1, f))
  }

  // ---------------------------------------------------------- user accesses

  /** What an operation comes to: done, the calling task killed, or the kernel
      stopped by a failed assertion or by running out of frames. */
  datatype Outcome = Done(m: Mem, seen: Option<Word>) | Killed(m: Mem) | Panic

  /** `sys_exit`, as far as memory goes; it refuses the first two tasks. */
  ghost function Kill(m: Mem, p: nat): Outcome
    requires Inv(m) && p < TASK_NR && Live(m, p)
  {
    if p < 2 || !FreeFits(m, p, 0, 0) then Panic else Killed(Exit(m, p))
  }

  /** Copy on write proper: `l` leaves its frame for a fresh copy of it. */
  ghost function CopyPage(m: Mem, l: Place): Option<Mem>
    requires Inv(m) && Mapped(m, l)
  {
    RemovePageKeepsInv(m, l);
    var m1 := RemovePage(m, l.p, l.d, l.t);
    match LowestFree(m1)
    case None => None
    case Some(f) => Some(AddPage(m1, l.p, l.d, l.t, f, m.frames[EntryAt(m, l).index]))
  }

  /** `page_fault` for a write (`writing`) or a read at `a`. */
  ghost function PageFault(m: Mem, p: nat, a: nat, writing: bool): Outcome
    requires Inv(m) && p < TASK_NR && Live(m, p)
  {
    if !UserAddress(a) then Kill(m, p)
    else
      var l := PlaceOf(p, a);
      if Mapped(m, l) then
        var w := EntryAt(m, l);
        if !writing || w.shared then Panic
        else if w.readonly then Kill(m, p)
        else if m.counts[w.index] == 1 then Done(SetEntry(m, p, l.d, l.t, w.(write := true)), None)
        else if m.counts[w.index] != 2 then Panic
        else match CopyPage(m, l)
          case None => Panic
          case Some(m1) => Done(m1, None)
      else if OnStack(a) then
        match LinkPage(m, l)
        case None => Panic
        case Some(m1) => Done(m1, None)
      else Kill(m, p)
  }

  /** The page-table walk of the processor: may user code write (read) at `l`? */
  ghost predicate Accessible(m: Mem, l: Place, writing: bool)
    requires Shape(m)
  {
    Mapped(m, l) && EntryAt(m, l).user && (writing ==> EntryAt(m, l).write)
  }

  function WriteWord(m: Mem, f: nat, i: nat, w: Word): Mem
    requires f < |m.frames| && i < ENTRIES
  {
    WriteFrame(m, f, m.frames[f][i := w])
  }

  /** A user store: faults are served and the instruction restarted. */
  ghost function Store(m: Mem, p: nat, a: nat, w: Word): Outcome
    requires Inv(m) && p < TASK_NR && Live(m, p)
  {
    var l := PlaceOf(p, a);
    if UserAddress(a) && Accessible(m, l, true) then Done(WriteWord(m, EntryAt(m, l).index, WordOf(a), w), None)
    else match PageFault(m, p, a, true)
      case Panic => Panic
      case Killed(m1) => Killed(m1)
      case Done(m1, _) =>
        PageFaultServes(m, p, a, true);
        Done(WriteWord(m1, EntryAt(m1, l).index, WordOf(a), w), None)
  }

  ghost function Load(m: Mem, p: nat, a: nat): Outcome
    requires Inv(m) && p < TASK_NR && Live(m, p)
  {
    var l := PlaceOf(p, a);
    if UserAddress(a) && Accessible(m, l, false) then Done(m, Some(m.frames[EntryAt(m, l).index][WordOf(a)]))
    else match PageFault(m, p, a, false)
      case Panic => Panic
      case Killed(m1) => Killed(m1)
      case Done(m1, _) =>
        PageFaultServes(m, p, a, false);
        Done(m1, Some(m1.frames[EntryAt(m1, l).index][WordOf(a)]))
  }

  lemma CopyPageOk(m: Mem, l: Place)
    requires Inv(m) && Mapped(m, l) && m.counts[EntryAt(m, l).index] == 2
    ensures CopyPage(m, l).Some? ==>
              var m1 := CopyPage(m, l).value;
              && Inv(m1) && SameLive(m, m1) && SamePages(m, m1) && SameExceptEntries(m, m1, l)
              && Mapped(m1, l) && EntryAt(m1, l) == UserEntry(EntryAt(m1, l).index)
              && m1.frames[EntryAt(m1, l).index] == m.frames[EntryAt(m, l).index]
  {
    hide Accounting, SharersAgree, TablesUnshared;
    RemovePageKeepsOthers(m, l);
    var g := EntryAt(m, l).index;
    var m1 := RemovePage(m, l.p, l.d, l.t);
    if LowestFree(m1).Some? {
      var f := LowestFree(m1).value;
      AddPageMaps(m1, l, f, m.frames[g]);
      assert f != g;
    }
  }

  ghost predicate Served(m: Mem, m1: Mem, l: Place, writing: bool)
    requires Inv(m)
  {
    && Inv(m1) && Accessible(m1, l, writing) && SameLive(m, m1) && SamePages(m, m1)
    && SameExceptEntries(m, m1, l)
  }

  lemma PermitServes(m: Mem, l: Place)
    requires Inv(m) && Mapped(m, l) && !EntryAt(m, l).readonly && !EntryAt(m, l).shared
    requires EntryAt(m, l).index < |m.counts| && m.counts[EntryAt(m, l).index] == 1
    ensures Served(m, SetEntry(m, l.p, l.d, l.t, EntryAt(m, l).(write := true)), l, true)
  {
    EntryIsOk(m, l);
    TablesAreDistinct(m);
    var w := EntryAt(m, l).(write := true);
    SetFlagsKeepsInv(m, l, w);
    SetFlagsStructure(m, SetEntry(m, l.p, l.d, l.t, w), l, w);
  }

  /** After a fault has been served, the access goes through. */
  lemma PageFaultServes(m: Mem, p: nat, a: nat, writing: bool)
    requires Inv(m) && p < TASK_NR && Live(m, p)
    requires !(UserAddress(a) && Accessible(m, PlaceOf(p, a), writing))
    ensures PageFault(m, p, a, writing).Done? ==> UserAddress(a) && Served(m, PageFault(m, p, a, writing).m, PlaceOf(p, a), writing)
  {
    hide Accounting, SharersAgree, TablesUnshared, Exit, FreeFits;
    AddressParts(a);
    var l := PlaceOf(p, a);
    if UserAddress(a) {
      if Mapped(m, l) {
        EntryIsOk(m, l);
        var w := EntryAt(m, l);
        if writing && !w.shared && !w.readonly {
          if m.counts[w.index] == 1 {
            PermitServes(m, l);
          } else if m.counts[w.index] == 2 {
            CopyPageOk(m, l);
          }
        }
      } else if OnStack(a) {
        LinkPageMaps(m, l);
      }
    }
  }
}
