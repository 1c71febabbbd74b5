/** From boot through fork, exit and wait: every frame comes back, and exactly when the exit
    of a child cannot get through. */
module TaskLifetimes {
  import opened Basics
  import opened Paging
  import opened CopyOnWrite
  import opened Stops
  import opened EagerCopy
  import opened VmRuns
  import opened SharedPool
  import opened SystemRuns
  import Bitmaps
  import K = KernelPages

  // ------------------------------------------------------------ single pages

  /** The frame of an owner that holds one page. */
  ghost function FrameOf(s: Sys, o: Owner): nat
    requires o in s.pages
  {
    K.MEMORY_BASE + s.pages[o].s
  }

  lemma OnePageTaken(s: Sys, o: Owner)
    requires Kept(s) && o !in s.pages && TakeRun(s, o, 1).Some?
    ensures var s' := TakeRun(s, o, 1).value;
            && Kept(s') && KernelOnly(s.m, s'.m) && s'.m.free == s.m.free - 1
            && o in s'.pages && s'.pages == s.pages[o := s'.pages[o]] && s'.pages[o].n == 1
            && FrameOf(s', o) < FIRST_USER_FRAME && s.m.counts[FrameOf(s', o)] == 0
            && s'.m.counts == s.m.counts[FrameOf(s', o) := 1]
  {
    TakeRunOk(s, o, 1);
    var s' := TakeRun(s, o, 1).value;
    assert !View(s.m).bits[s'.pages[o].s];
  }

  lemma OnePageGiven(s: Sys, o: Owner)
    requires Kept(s) && o in s.pages && s.pages[o].n == 1
    ensures var s' := GiveRun(s, o);
            && Kept(s') && KernelOnly(s.m, s'.m) && s'.m.free == s.m.free + 1 && s'.pages == s.pages - {o}
            && FrameOf(s, o) < FIRST_USER_FRAME && s.m.counts[FrameOf(s, o)] == 1
            && s'.m.counts == s.m.counts[FrameOf(s, o) := 0]
  {
    GiveRunOk(s, o);
    HeldRun(s, o);
    assert View(s.m).bits[s.pages[o].s];
  }

  // ------------------------------------------------------------------ start

  /** One page for each of the owners, in turn. */
  ghost function TakeAll(s: Sys, os: seq<Owner>): Option<Sys>
    requires Kept(s) && Unheld(s, os)
    decreases |os|
  {
    if os == [] then Some(s)
    else match TakeRun(s, os[0], 1)
      case None => None
      case Some(s1) => TakeStep(s, os); TakeAll(s1, os[1..])
  }

  /** None of the owners holds a page yet, and none is there twice. */
  ghost predicate Unheld(s: Sys, os: seq<Owner>) {
    (forall i :: 0 <= i < |os| ==> os[i] !in s.pages) && (forall i, j :: 0 <= i < j < |os| ==> os[i] != os[j])
  }

  lemma TakeStep(s: Sys, os: seq<Owner>)
    requires Kept(s) && Unheld(s, os) && os != [] && TakeRun(s, os[0], 1).Some?
    ensures Kept(TakeRun(s, os[0], 1).value) && Unheld(TakeRun(s, os[0], 1).value, os[1..])
  {
    TakeRunOk(s, os[0], 1);
  }

  lemma {:induction false} TakeAllOk(s: Sys, os: seq<Owner>)
    requires Kept(s) && Unheld(s, os)
    ensures TakeAll(s, os).Some? <==> |os| <= |FreeKernel(s.m)|
    ensures TakeAll(s, os).Some? ==>
              var r := TakeAll(s, os).value;
              && Kept(r) && KernelOnly(s.m, r.m) && r.m.free == s.m.free - |os|
              && |FreeKernel(r.m)| == |FreeKernel(s.m)| - |os| && FreeUsers(r.m) == FreeUsers(s.m)
              && (forall o :: o in r.pages <==> o in s.pages || o in os)
    decreases |os|
  {
    if os == [] {
      SelfKernelOnly(s.m);
    } else {
      hide Inv, Held, FreeKernel, FreeUsers;
      TakeOneIff(s, os[0]);
      if TakeRun(s, os[0], 1).Some? {
        TakeRunOk(s, os[0], 1);
        TakeStep(s, os);
        TakeAllOk(TakeRun(s, os[0], 1).value, os[1..]);
      }
    }
  }

  lemma SelfKernelOnly(m: Mem)
    requires Inv(m)
    ensures KernelOnly(m, m)
  {}

  /** An address space without user pages, as `copy_pde` makes it from the kernel's directory. */
  function EmptySpace(m: Mem, p: nat): Mem
    requires p < |m.dirs|
  {
    m.(dirs := m.dirs[p := Some(seq(USER_DIRS, _ => ZERO))])
  }

  lemma EmptySpaceOk(m: Mem, p: nat)
    requires Inv(m) && p < TASK_NR && !Live(m, p)
    ensures Inv(EmptySpace(m, p)) && UserOnly(m, EmptySpace(m, p))
    ensures forall q: nat :: Live(EmptySpace(m, p), q) <==> Live(m, q) || q == p
    ensures forall q, e :: HasTable(EmptySpace(m, p), q, e) == HasTable(m, q, e)
  {
    var m' := EmptySpace(m, p);
    EmptySpaceSame(m, m', p);
    SameEntriesSameInv(m, m');
  }

  lemma EmptySpaceSame(m: Mem, m': Mem, p: nat)
    requires Inv(m) && p < TASK_NR && !Live(m, p) && m' == EmptySpace(m, p)
    ensures SameEntries(m, m') && forall q, e :: HasTable(m', q, e) == HasTable(m, q, e)
    ensures forall q, e :: HasTable(m, q, e) ==> TableFrame(m', q, e) == TableFrame(m, q, e)
  {
    hide Accounting, TablesUnshared, EntriesOk, SharersAgree;
    assert forall q, e :: HasTable(m', q, e) == HasTable(m, q, e);
    assert forall q, e :: HasTable(m', q, e) ==> TableFrame(m', q, e) == TableFrame(m, q, e);
    assert Shape(m');
    forall k ensures Mapped(m', k) == Mapped(m, k) {}
  }

  /** The pages of idle and of init, in the order in which they are taken. */
  function FirstOwners(): seq<Owner> { [TaskPage(0), TaskPage(1), MapPage(1), DirPage(1)] }

  ghost function Interval(a: nat, b: nat): (r: set<nat>)
    requires a <= b
    ensures |r| == b - a
    ensures forall f: nat :: f in r <==> a <= f < b
    decreases b - a
  {
    if a == b then {} else Interval(a, b - 1) + {b - 1}
  }

  lemma BootedHeld(m: Mem)
    requires Booted(m)
    ensures Kept(Sys(m, map[])) && Unheld(Sys(m, map[]), FirstOwners())
  {
    hide Inv;
    BootedInv(m);
    var none: map<Owner, K.Block> := map[];
    assert none.Values == {};
  }

  lemma BootedSizes(m: Mem)
    requires Booted(m)
    ensures |FreeKernel(m)| == FIRST_USER_FRAME - BootFrames(|m.counts|) >= 4
    ensures |FreeUsers(m)| == |m.counts| - FIRST_USER_FRAME
  {
    assert FreeKernel(m) == Interval(BootFrames(|m.counts|), FIRST_USER_FRAME);
    assert FreeUsers(m) == Interval(FIRST_USER_FRAME, |m.counts|);
  }

  ghost function Boot(m: Mem): (r: Sys)
    requires Booted(m)
    ensures Kept(r) && KernelOnly(m, r.m) && r.m.free == |FreeKernel(r.m)| + |FreeUsers(r.m)|
    ensures |FreeKernel(r.m)| == FIRST_USER_FRAME - BootFrames(|m.counts|) - 4 && |FreeUsers(r.m)| == |m.counts| - FIRST_USER_FRAME
    ensures forall o :: o in r.pages <==> o in FirstOwners()
  {
    BootedHeld(m);
    BootedSizes(m);
    TakeAllOk(Sys(m, map[]), FirstOwners());
    TakeAll(Sys(m, map[]), FirstOwners()).value
  }

  /** Idle and init have been made, and init has its empty address space. */
  ghost function Started(m: Mem): Sys
    requires Booted(m)
  {
    Boot(m).(m := EmptySpace(Boot(m).m, 1))
  }

  lemma StartedOk(m: Mem)
    requires Booted(m)
    ensures var s := Started(m);
            && SysInv(s) && s.m.free == |FreeKernel(s.m)| + |FreeUsers(s.m)|
            && |FreeKernel(s.m)| == FIRST_USER_FRAME - BootFrames(|m.counts|) - 4 && |FreeUsers(s.m)| == |m.counts| - FIRST_USER_FRAME
            && (forall p: nat :: Live(s.m, p) <==> p == 1) && (forall p, d :: !HasTable(s.m, p, d))
            && (forall o :: o in s.pages <==> o in FirstOwners())
  {
    hide Inv, Held, Boot, UserOnly, KernelOnly, Booted, FreeKernel;
    var s0 := Boot(m);
    NoSpacesYet(m, s0.m);
    EmptySpaceOk(s0.m, 1);
    UserOnlyKeepsHeld(s0, EmptySpace(s0.m, 1));
    UserOnlyFreeKernel(s0.m, EmptySpace(s0.m, 1));
    assert FreeUsers(EmptySpace(s0.m, 1)) == FreeUsers(s0.m);
  }

  lemma NoSpacesYet(m: Mem, m': Mem)
    requires Booted(m) && KernelOnly(m, m')
    ensures |m'.dirs| == TASK_NR && (forall p: nat :: !Live(m', p)) && forall p, d :: !HasTable(m', p, d)
  {}

  /** From boot on, every reachable state accounts for every frame: a user frame's count is the
      number of entries that name it, a kernel page is reserved, free, or one owner's, and
      `free_pages` counts the free ones of both. */
  lemma ReachableInv(m: Mem, calls: seq<Call>, events: seq<Event>, last: Sys)
    requires Booted(m) && Runs(Started(m), calls, events, last)
    ensures SysInv(last)
  {
    StartedOk(m);
    RunKeepsInv(Started(m), calls, events, last);
  }

  // ---------------------------------------------- when the child can exit

  /** `free_pte`, from entry `t` of table `d` on, comes to a page before it has emptied a table. */
  ghost predicate PageFirst(m: Mem, p: nat, d: nat, t: nat)
    requires Shape(m) && d <= USER_DIRS && t <= ENTRIES
    decreases USER_DIRS - d, ENTRIES - t
  {
    if d == USER_DIRS then false
    else if !HasTable(m, p, d) then PageFirst(m, p, d + 1, 0)
    else t < ENTRIES && (Mapped(m, Pte(p, d, t)) || PageFirst(m, p, d, t + 1))
  }

  /** Child `c` in `n` has the tables and pages that its parent had in `m`, and shares them. */
  ghost predicate Child(m: Mem, n: Mem, p: nat, c: nat) {
    && Inv(m) && Inv(n) && p < TASK_NR && c < TASK_NR && p != c
    && ForkShape(m, n, p, c, USER_DIRS) && ChildShape(m, n, p, c, USER_DIRS)
  }

  lemma ChildEntry(m: Mem, n: Mem, p: nat, c: nat, d: nat, t: nat)
    requires Child(m, n, p, c) && d < USER_DIRS && t < ENTRIES
    ensures HasTable(n, c, d) == HasTable(m, p, d) && Mapped(n, Pte(c, d, t)) == Mapped(m, Pte(p, d, t))
    ensures Mapped(n, Pte(c, d, t)) ==>
              var f := EntryAt(n, Pte(c, d, t)).index; UserFrame(n, f) && n.counts[f] >= 2
  {
    hide Accounting, EntriesOk, SharersAgree, TablesUnshared;
    if Mapped(n, Pte(c, d, t)) {
      EntryIsOk(n, Pte(c, d, t));
      assert Mapped(m, Pte(p, d, t)) && Mapped(n, Pte(p, d, t));
      TwoNamesCountTwo(n, Pte(p, d, t), Pte(c, d, t), EntryAt(n, Pte(c, d, t)).index);
    }
  }

  /** What the child gives back first is the parent's too if it is a page, its own if it is a table. */
  lemma {:induction false} ChildBack(m: Mem, n: Mem, p: nat, c: nat, d: nat, t: nat)
    requires Child(m, n, p, c) && d <= USER_DIRS && t <= ENTRIES
    ensures PageFirst(m, p, d, t) <==> FirstBack(n, c, d, t).Some? && n.counts[FirstBack(n, c, d, t).value] != 1
    decreases USER_DIRS - d, ENTRIES - t
  {
    hide Accounting, EntriesOk, SharersAgree, ForkShape, ChildShape;
    if d < USER_DIRS {
      ChildEntry(m, n, p, c, d, if t < ENTRIES then t else 0);
      if !HasTable(n, c, d) {
        ChildBack(m, n, p, c, d + 1, 0);
      } else if t < ENTRIES && !Mapped(n, Pte(c, d, t)) {
        ChildBack(m, n, p, c, d, t + 1);
      }
    }
  }

  /** Kernel pages taken before and after the copying change nothing about the tables. */
  lemma ChildAcross(m: Mem, m1: Mem, n: Mem, n1: Mem, p: nat, c: nat)
    requires Child(m1, n, p, c) && Inv(m) && Inv(n1) && KernelOnly(m, m1) && KernelOnly(n, n1)
    ensures Child(m, n1, p, c)
  {
    KernelOnlyTables(m, m1);
    KernelOnlyTables(n, n1);
    hide Accounting, EntriesOk, SharersAgree, TablesUnshared, KernelOnly;
    ForkShapeAcross(m, m1, n, n1, p, c);
    ChildShapeAcross(m, m1, n, n1, p, c);
  }

  ghost predicate SameSpaces(m: Mem, m1: Mem)
    requires Shape(m) && Shape(m1)
  {
    && SameEntries(m, m1)
    && (forall q, e :: HasTable(m1, q, e) == HasTable(m, q, e))
    && (forall q, e :: HasTable(m, q, e) ==> TableFrame(m1, q, e) == TableFrame(m, q, e))
  }

  lemma ForkShapeAcross(m: Mem, m1: Mem, n: Mem, n1: Mem, p: nat, c: nat)
    requires Shape(m) && Shape(m1) && Shape(n) && Shape(n1) && SameSpaces(m, m1) && SameSpaces(n, n1)
    requires ForkShape(m1, n, p, c, USER_DIRS)
    ensures ForkShape(m, n1, p, c, USER_DIRS)
  {}

  lemma ChildShapeAcross(m: Mem, m1: Mem, n: Mem, n1: Mem, p: nat, c: nat)
    requires Shape(m) && Shape(m1) && Shape(n) && Shape(n1) && SameSpaces(m, m1) && SameSpaces(n, n1)
    requires ChildShape(m1, n, p, c, USER_DIRS)
    ensures ChildShape(m, n1, p, c, USER_DIRS)
  {}

  lemma ForkedChild(s: Sys, p: nat, c: nat)
    requires CanFork(s, p, c) && p < TASK_NR && ForkTask(s, p, c).Some?
    ensures Kept(ForkTask(s, p, c).value) && Child(s.m, ForkTask(s, p, c).value.m, p, c)
  {
    hide Held, Accounting, EntriesOk, SharersAgree, TablesUnshared, ForkShape, ChildShape, ForkTask, ForkPages;
    var s2, n := ForkTaskParts(s, p, c);
    ForkUpToShape(s2.m, p, c, USER_DIRS);
    ForkUpToChild(s2.m, p, c, USER_DIRS);
    ChildAcross(s.m, s2.m, n, ForkTask(s, p, c).value.m, p, c);
  }

  lemma ForkIsCall(s: Sys, p: nat, c: nat)
    requires SysInv(s) && p < TASK_NR && Live(s.m, p) && FreeSlot(s.pages, 0) == Some(c)
    ensures CanFork(s, p, c) && CallLegal(s, User(DoFork(p, c)))
    ensures CallStep(s, User(DoFork(p, c))) == if ForkTask(s, p, c).None? then Stop else Went(ForkTask(s, p, c).value, None)
    ensures ForkTask(s, p, c).Some? ==> SysInv(ForkTask(s, p, c).value)
  {
    SlotIsFree(s, p, c);
    CallKeepsInv(s, User(DoFork(p, c)));
  }

  /** The child of a fork exits, unless the fork has taken the last frame there was, kernel
      page or user frame, and the lowest page table of the parent has a page: that page is
      still the parent's too, so giving it back frees nothing. */
  lemma ChildExitsIff(s: Sys, p: nat, c: nat)
    requires SysInv(s) && p < TASK_NR && Live(s.m, p) && FreeSlot(s.pages, 0) == Some(c) && 2 <= c
    requires CanFork(s, p, c) && ForkTask(s, p, c).Some?
    ensures |s.m.dirs| == TASK_NR && Shape(s.m)
    ensures var s' := ForkTask(s, p, c).value;
            && SysInv(s') && CallLegal(s', User(DoExit(c)))
            && (CallStep(s', User(DoExit(c))).Stop? <==> s.m.free == 3 + |Tables(s.m, p, USER_DIRS)| && PageFirst(s.m, p, 0, 0))
  {
    hide Held, Accounting, EntriesOk, SharersAgree, TablesUnshared, ForkTask, Exit, FreeFits, Child, Tables;
    ForkIsCall(s, p, c);
    var s' := ForkTask(s, p, c).value;
    ForkedIsLive(s, p, c);
    ForkTaskStopsIff(s, p, c);
    ForkedChild(s, p, c);
    ChildBack(s.m, s'.m, p, c, 0, 0);
    FreeNotNegative(s'.m);
    KillStopsIff(s'.m, c);
  }

  lemma ForkedIsLive(s: Sys, p: nat, c: nat)
    requires CanFork(s, p, c) && ForkTask(s, p, c).Some?
    ensures c < TASK_NR && Live(ForkTask(s, p, c).value.m, c)
  {
    var s2, n := ForkTaskParts(s, p, c);
  }

  /** The three pages of a new task were free, and are its own now. */
  ghost predicate NewPages(s: Sys, s': Sys, c: nat) {
    && TaskPage(c) in s'.pages && DirPage(c) in s'.pages && MapPage(c) in s'.pages
    && s'.pages == s.pages[TaskPage(c) := s'.pages[TaskPage(c)]][DirPage(c) := s'.pages[DirPage(c)]][MapPage(c) := s'.pages[MapPage(c)]]
    && s'.pages[TaskPage(c)].n == s'.pages[DirPage(c)].n == s'.pages[MapPage(c)].n == 1
    && |s.m.counts| == |s'.m.counts| >= FIRST_USER_FRAME
    && var t, d, v := FrameOf(s', TaskPage(c)), FrameOf(s', DirPage(c)), FrameOf(s', MapPage(c));
       && t < FIRST_USER_FRAME && d < FIRST_USER_FRAME && v < FIRST_USER_FRAME && t != d && d != v && v != t
       && s.m.counts[t] == s.m.counts[d] == s.m.counts[v] == 0
       && forall f: nat :: f < FIRST_USER_FRAME ==> s'.m.counts[f] == if f == t || f == d || f == v then 1 else s.m.counts[f]
  }

  lemma ForkTakesPages(s: Sys, p: nat, c: nat)
    requires CanFork(s, p, c) && ForkTask(s, p, c).Some?
    ensures NewPages(s, ForkTask(s, p, c).value, c)
  {
    hide Inv, Held, KernelOnly;
    var s2, n := ForkTaskParts(s, p, c);
    OnePageTaken(s, TaskPage(c));
    OnePageTaken(TakeRun(s, TaskPage(c), 1).value, DirPage(c));
    OnePageTaken(s2.(m := n), MapPage(c));
    PoolSize(s.m);
  }

  lemma PoolSize(m: Mem)
    requires Inv(m)
    ensures |m.counts| >= FIRST_USER_FRAME
  {}

  /** The state in which the user frames of `c` are back and its kernel pages are not. */
  ghost function Freed(s: Sys, c: nat): Sys
    requires Inv(s.m) && c < TASK_NR && Live(s.m, c)
  {
    s.(m := Exit(s.m, c))
  }

  lemma ExitIsReleased(s: Sys, c: nat)
    requires SysInv(s) && CallLegal(s, User(DoExit(c))) && !CallStep(s, User(DoExit(c))).Stop?
    ensures Inv(s.m) && c < TASK_NR && Live(s.m, c) && Kept(Freed(s, c)) && DirPage(c) in s.pages && MapPage(c) in s.pages
    ensures CallStep(s, User(DoExit(c))) == Ended(Released(Freed(s, c), c))
    ensures SysInv(Released(Freed(s, c), c)) && !Live(Released(Freed(s, c), c).m, c)
  {
    hide Held, Accounting, EntriesOk, SharersAgree, TablesUnshared, Exit, FreeFits;
    StepKept(s, DoExit(c));
    CallKeepsInv(s, User(DoExit(c)));
    ExitOk(s.m, c);
    KernelOnlyLives(Freed(s, c).m, Released(Freed(s, c), c).m);
  }

  lemma ReleasedCounts(s: Sys, c: nat)
    requires Kept(s) && DirPage(c) in s.pages && MapPage(c) in s.pages && s.pages[DirPage(c)].n == s.pages[MapPage(c)].n == 1
    ensures var x := Released(s, c); var d, v := FrameOf(s, DirPage(c)), FrameOf(s, MapPage(c));
            && Kept(x) && x.pages == s.pages - {DirPage(c)} - {MapPage(c)}
            && d < |s.m.counts| && v < |s.m.counts| && x.m.counts == s.m.counts[d := 0][v := 0]
  {
    hide Inv, Held;
    PoolSizeOf(s);
    OnePageGiven(s, DirPage(c));
    OnePageGiven(GiveRun(s, DirPage(c)), MapPage(c));
  }

  lemma PoolSizeOf(s: Sys)
    requires Kept(s)
    ensures |s.m.counts| >= FIRST_USER_FRAME
  {}

  /** What a fork took and its exit gave back, over the whole table of counts. */
  lemma CountsBack(s: Sys, s': Sys, x: Sys, c: nat, freed: seq<nat>)
    requires NewPages(s, s', c) && |freed| == |s.m.counts|
    requires forall f: nat :: FIRST_USER_FRAME <= f < |freed| ==> freed[f] == s.m.counts[f]
    requires forall f: nat :: f < FIRST_USER_FRAME ==> freed[f] == s'.m.counts[f]
    requires x.m.counts == freed[FrameOf(s', DirPage(c)) := 0][FrameOf(s', MapPage(c)) := 0]
    requires x.pages == s'.pages - {DirPage(c)} - {MapPage(c)}
    requires TaskPage(c) !in s.pages && DirPage(c) !in s.pages && MapPage(c) !in s.pages
    ensures TaskPage(c) in x.pages && x.pages == s.pages[TaskPage(c) := x.pages[TaskPage(c)]] && x.pages[TaskPage(c)].n == 1
    ensures FrameOf(x, TaskPage(c)) < |s.m.counts| && s.m.counts[FrameOf(x, TaskPage(c))] == 0
    ensures x.m.counts == s.m.counts[FrameOf(x, TaskPage(c)) := 1]
  {
    var t := FrameOf(x, TaskPage(c));
    assert t == FrameOf(s', TaskPage(c));
    forall f: nat | f < |freed| ensures x.m.counts[f] == s.m.counts[t := 1][f] {}
  }

  /** Exit gives back all that the fork took but the page with the control block. */
  lemma ExitUndoesFork(s: Sys, p: nat, c: nat)
    requires SysInv(s) && p < TASK_NR && CanFork(s, p, c) && ForkTask(s, p, c).Some? && SysInv(ForkTask(s, p, c).value)
    requires CallLegal(ForkTask(s, p, c).value, User(DoExit(c))) && !CallStep(ForkTask(s, p, c).value, User(DoExit(c))).Stop?
    ensures var r := CallStep(ForkTask(s, p, c).value, User(DoExit(c)));
            && r.Ended? && SysInv(r.s) && !Live(r.s.m, c)
            && TaskPage(c) in r.s.pages && r.s.pages == s.pages[TaskPage(c) := r.s.pages[TaskPage(c)]] && r.s.pages[TaskPage(c)].n == 1
            && FrameOf(r.s, TaskPage(c)) < |s.m.counts| && s.m.counts[FrameOf(r.s, TaskPage(c))] == 0
            && r.s.m.counts == s.m.counts[FrameOf(r.s, TaskPage(c)) := 1]
  {
    hide Inv, Held, Tied, ForkTask, CallStep, CallLegal, Exit, Released, ForkShape, ChildShape, NewPages;
    var s' := ForkTask(s, p, c).value;
    SysInvParts(s');
    ForkTakesPages(s, p, c);
    ForkedChild(s, p, c);
    ExitIsReleased(s', c);
    ExitRestoresUsers(s.m, s'.m, p, c);
    NewPagesAreSingle(s, s', c);
    ReleasedCounts(Freed(s', c), c);
    CountsBack(s, s', Released(Freed(s', c), c), c, Freed(s', c).m.counts);
  }

  lemma NewPagesAreSingle(s: Sys, s': Sys, c: nat)
    requires NewPages(s, s', c)
    ensures TaskPage(c) in s'.pages && DirPage(c) in s'.pages && MapPage(c) in s'.pages
    ensures s'.pages[DirPage(c)].n == s'.pages[MapPage(c)].n == 1
  {}

  /** Waiting for the child gives back the rest: counts, free pages and owners are as they
      were before the fork. */
  lemma WaitUndoesFork(s: Sys, p: nat, c: nat, x: Sys)
    requires SysInv(s) && p < TASK_NR && CanFork(s, p, c) && 2 <= c && ForkTask(s, p, c).Some? && SysInv(ForkTask(s, p, c).value)
    requires CallLegal(ForkTask(s, p, c).value, User(DoExit(c))) && CallStep(ForkTask(s, p, c).value, User(DoExit(c))) == Ended(x)
    ensures SysInv(x) && x.m.free == s.m.free - 1 && CallLegal(x, Reap(c))
    ensures var y := CallStep(x, Reap(c));
            y.Went? && y.s.m.counts == s.m.counts && y.s.m.free == s.m.free && y.s.pages == s.pages
  {
    hide Held, Accounting, Tied, ForkTask, EntriesOk, SharersAgree, TablesUnshared, Exit, Released;
    ExitUndoesFork(s, p, c);
    OnePageGiven(x, TaskPage(c));
    var y := GiveRun(x, TaskPage(c));
    var t := FrameOf(x, TaskPage(c));
    assert y.m.counts == s.m.counts[t := 1][t := 0] == s.m.counts;
    assert y.pages == s.pages;
    FreeIsZeros(s);
    FreeIsZeros(y);
  }

  lemma FreeIsZeros(s: Sys)
    requires Kept(s)
    ensures s.m.free == |Zeros(s.m.counts)|
  {}

  // ------------------------------------------------- a run in which it cannot

  function Takes(id: nat, k: nat): seq<Call>
    decreases k
  {
    if k == 0 then [] else [KernelTakes(id, 1)] + Takes(id + 1, k - 1)
  }

  function Saws(k: nat): seq<Event> { if k == 0 then [] else [Saw(None)] + Saws(k - 1) }

  /** What taking `k` kernel pages for the heap has done. */
  ghost predicate Shrunk(s: Sys, t: Sys, k: nat) {
    && SysInv(t) && KernelOnly(s.m, t.m) && t.m.free == s.m.free - k
    && |FreeKernel(t.m)| == |FreeKernel(s.m)| - k && FreeUsers(t.m) == FreeUsers(s.m)
    && forall o: Owner :: !o.Other? ==> (o in t.pages <==> o in s.pages)
  }

  lemma TakeCall(s: Sys, id: nat)
    requires SysInv(s) && Other(id) !in s.pages && |FreeKernel(s.m)| > 0
    ensures CallLegal(s, KernelTakes(id, 1)) && CallStep(s, KernelTakes(id, 1)).Went? && CallStep(s, KernelTakes(id, 1)).seen == None
    ensures var s1 := CallStep(s, KernelTakes(id, 1)).s;
            Shrunk(s, s1, 1) && forall o :: o in s1.pages <==> o in s.pages || o == Other(id)
  {
    hide Inv, Held, Tied, KernelOnly, FreeKernel, FreeUsers;
    SysInvParts(s);
    TakeOneIff(s, Other(id));
    TakeRunOk(s, Other(id), 1);
    CallKeepsInv(s, KernelTakes(id, 1));
  }

  /** What `t` shows is shown from `s` after `k` takings. */
  ghost predicate ShownAfter(s: Sys, t: Sys, id: nat, k: nat) {
    forall rest, events, last :: Runs(t, rest, events, last) ==> Runs(s, Takes(id, k) + rest, Saws(k) + events, last)
  }

  lemma {:induction false} TakesThen(s: Sys, id: nat, k: nat) returns (t: Sys)
    requires SysInv(s) && k <= |FreeKernel(s.m)| && forall i: nat :: i >= id ==> Other(i) !in s.pages
    ensures Shrunk(s, t, k) && ShownAfter(s, t, id, k)
    decreases k
  {
    hide Inv, Held, Tied, FreeKernel, FreeUsers, CallStep, CallLegal, ShownAfter, KernelOnly;
    if k == 0 {
      t := s;
      SysInvParts(s);
      SelfKernelOnly(s.m);
      NoTakes(s, id);
    } else {
      TakeCall(s, id);
      var s1 := CallStep(s, KernelTakes(id, 1)).s;
      t := TakesThen(s1, id + 1, k - 1);
      ShrunkTwice(s, s1, t, k - 1);
      OneTakeMoreShows(s, s1, t, id, k);
    }
  }

  lemma NoTakes(s: Sys, id: nat)
    ensures ShownAfter(s, s, id, 0)
  {
    hide Runs;
    forall rest, events, last | Runs(s, rest, events, last) ensures Runs(s, Takes(id, 0) + rest, Saws(0) + events, last) {
      assert Takes(id, 0) + rest == rest && Saws(0) + events == events;
    }
  }

  lemma ShrunkTwice(s: Sys, s1: Sys, t: Sys, k: nat)
    requires Shrunk(s, s1, 1) && Shrunk(s1, t, k)
    ensures Shrunk(s, t, k + 1)
  {
    hide SysInv, FreeKernel, FreeUsers;
  }

  lemma OneTakeMoreShows(s: Sys, s1: Sys, t: Sys, id: nat, k: nat)
    requires k > 0 && SysInv(s) && CallLegal(s, KernelTakes(id, 1)) && CallStep(s, KernelTakes(id, 1)) == Went(s1, None)
    requires ShownAfter(s1, t, id + 1, k - 1)
    ensures ShownAfter(s, t, id, k)
  {
    hide SysInv, CallLegal, CallStep, Runs, Takes, Saws;
    forall rest, events, last | Runs(t, rest, events, last) ensures Runs(s, Takes(id, k) + rest, Saws(k) + events, last) {
      OneTakeMore(s, s1, id, k, rest, events, last);
    }
  }

  lemma OneTakeMore(s: Sys, s1: Sys, id: nat, k: nat, rest: seq<Call>, events: seq<Event>, last: Sys)
    requires k > 0 && SysInv(s) && CallLegal(s, KernelTakes(id, 1)) && CallStep(s, KernelTakes(id, 1)) == Went(s1, None)
    requires Runs(s1, Takes(id + 1, k - 1) + rest, Saws(k - 1) + events, last)
    ensures Runs(s, Takes(id, k) + rest, Saws(k) + events, last)
  {
    hide SysInv, CallLegal, CallStep, Runs;
    CallThen(s, KernelTakes(id, 1), s1, Takes(id + 1, k - 1) + rest, Saws(k - 1) + events, last);
    assert Takes(id, k) + rest == [KernelTakes(id, 1)] + (Takes(id + 1, k - 1) + rest);
    assert Saws(k) + events == [Saw(None)] + (Saws(k - 1) + events);
  }

  lemma CallThen(s: Sys, call: Call, s1: Sys, rest: seq<Call>, events: seq<Event>, last: Sys)
    requires SysInv(s) && CallLegal(s, call) && CallStep(s, call) == Went(s1, None) && Runs(s1, rest, events, last)
    ensures Runs(s, [call] + rest, [Saw(None)] + events, last)
  {
    hide SysInv, CallLegal, CallStep;
    assert ([call] + rest)[1..] == rest && ([Saw(None)] + events)[1..] == events;
  }

  lemma CallHalts(s: Sys, call: Call)
    requires SysInv(s) && CallLegal(s, call) && CallStep(s, call).Stop?
    ensures Runs(s, [call], [Halted], s)
  {
    hide SysInv, CallLegal, CallStep;
  }

  /** One page for init, the first there is. */
  lemma FirstPage(s: Sys)
    requires SysInv(s) && Live(s.m, 1) && (forall p, d :: !HasTable(s.m, p, d)) && |FreeUsers(s.m)| == 3
    ensures CallLegal(s, User(DoLink(1, 0))) && CallStep(s, User(DoLink(1, 0))).Went? && CallStep(s, User(DoLink(1, 0))).seen == None
    ensures var u := CallStep(s, User(DoLink(1, 0))).s;
            && SysInv(u) && u.pages == s.pages && Live(u.m, 1) && u.m.free == s.m.free - 2
            && |FreeKernel(u.m)| == |FreeKernel(s.m)| && |FreeUsers(u.m)| == 1
            && |u.m.dirs| == TASK_NR && |Tables(u.m, 1, USER_DIRS)| == 1 && Shape(u.m) && PageFirst(u.m, 1, 0, 0)
  {
    hide Held, Tied, Accounting, EntriesOk, SharersAgree, TablesUnshared, LinkPage;
    var l := Pte(1, 0, 0);
    assert PlaceOf(1, 0) == l;
    LinkStopsIff(s.m, l);
    LinkPageMaps(s.m, l);
    LinkTakes(s.m, l);
    LinkUserOnly(s.m, l);
    CallKeepsInv(s, User(DoLink(1, 0)));
    var m := LinkPage(s.m, l).value;
    UserOnlyFreeKernel(s.m, m);
    assert Tables(m, 1, USER_DIRS) == {0};
  }

  lemma AfterTakes(s: Sys, t: Sys, id: nat, k: nat, rest: seq<Call>, events: seq<Event>, last: Sys)
    requires ShownAfter(s, t, id, k) && Runs(t, rest, events, last)
    ensures Runs(s, Takes(id, k) + rest, Saws(k) + events, last)
  {}

  /** Fork and exit with four frames left: three kernel pages and one for the page table. */
  lemma LastFork(u: Sys)
    requires SysInv(u) && Live(u.m, 1) && FreeSlot(u.pages, 0) == Some(2) && |FreeKernel(u.m)| == 3
    requires u.m.free == 4 && |FreeUsers(u.m)| == 1 && |u.m.dirs| == TASK_NR && |Tables(u.m, 1, USER_DIRS)| == 1
    requires Shape(u.m) && PageFirst(u.m, 1, 0, 0)
    ensures CanFork(u, 1, 2) && ForkTask(u, 1, 2).Some?
    ensures Runs(u, [User(DoFork(1, 2)), User(DoExit(2))], [Saw(None), Halted], ForkTask(u, 1, 2).value)
  {
    hide Inv, Held, Tied, FreeKernel, FreeUsers, Tables, CallStep, CallLegal, ForkTask, PageFirst, CanFork, Runs, Shape;
    ForkIsCall(u, 1, 2);
    ForkTaskStopsIff(u, 1, 2);
    ChildExitsIff(u, 1, 2);
    var last := ForkTask(u, 1, 2).value;
    CallHalts(last, User(DoExit(2)));
    CallThen(u, User(DoFork(1, 2)), last, [User(DoExit(2))], [Halted], last);
    assert [User(DoFork(1, 2))] + [User(DoExit(2))] == [User(DoFork(1, 2)), User(DoExit(2))];
    assert [Saw(None)] + [Halted] == [Saw(None), Halted];
  }

  lemma LinkForkExit(t: Sys) returns (last: Sys)
    requires SysInv(t) && Live(t.m, 1) && FreeSlot(t.pages, 0) == Some(2) && (forall p, d :: !HasTable(t.m, p, d))
    requires |FreeKernel(t.m)| == |FreeUsers(t.m)| == 3 && t.m.free == 6
    ensures Runs(t, [User(DoLink(1, 0)), User(DoFork(1, 2)), User(DoExit(2))], [Saw(None), Saw(None), Halted], last)
  {
    hide Inv, Held, Tied, FreeKernel, FreeUsers, Tables, CallStep, CallLegal, ForkTask, PageFirst, CanFork, LinkPage, Runs;
    FirstPage(t);
    var u := CallStep(t, User(DoLink(1, 0))).s;
    LastFork(u);
    last := ForkTask(u, 1, 2).value;
    CallThen(t, User(DoLink(1, 0)), u, [User(DoFork(1, 2)), User(DoExit(2))], [Saw(None), Halted], last);
    assert [User(DoLink(1, 0))] + [User(DoFork(1, 2)), User(DoExit(2))] == [User(DoLink(1, 0)), User(DoFork(1, 2)), User(DoExit(2))];
    assert [Saw(None)] + [Saw(None), Halted] == [Saw(None), Saw(None), Halted];
  }

  /** The stop is reached from boot: on a machine with three user frames the kernel's heap
      grows until three kernel pages are left, init gets a page and forks, and the child
      cannot exit. */
  lemma ExitCanStop(m: Mem) returns (calls: seq<Call>, events: seq<Event>, last: Sys)
    requires Booted(m) && |m.counts| == FIRST_USER_FRAME + 3
    ensures Runs(Started(m), calls, events, last)
    ensures |calls| == |events| > 0 && calls[|calls| - 1] == User(DoExit(2)) && events[|events| - 1] == Halted
  {
    hide Inv, Held, Tied, Started, Booted, KernelOnly, FreeKernel, FreeUsers, CallStep, CallLegal, Runs, ShownAfter;
    StartedOk(m);
    var s := Started(m);
    var k := |FreeKernel(s.m)| - 3;
    var t := TakesThen(s, 0, k);
    NothingMapped(s, t);
    last := LinkForkExit(t);
    calls, events := [User(DoLink(1, 0)), User(DoFork(1, 2)), User(DoExit(2))], [Saw(None), Saw(None), Halted];
    AfterTakes(s, t, 0, k, calls, events, last);
    calls, events := Takes(0, k) + calls, Saws(k) + events;
    TakesLength(0, k);
  }

  lemma NothingMapped(s: Sys, t: Sys)
    requires Kept(s) && KernelOnly(s.m, t.m) && forall p, d :: !HasTable(s.m, p, d)
    ensures |t.m.dirs| == TASK_NR && (forall p: nat :: Live(t.m, p) == Live(s.m, p)) && forall p, d :: !HasTable(t.m, p, d)
  {
    KernelOnlyTables(s.m, t.m);
  }

  lemma {:induction false} TakesLength(id: nat, k: nat)
    ensures |Takes(id, k)| == |Saws(k)| == k
    decreases k
  {
    if k > 0 {
      TakesLength(id + 1, k - 1);
    }
  }
}
