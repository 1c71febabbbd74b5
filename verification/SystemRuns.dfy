/** Whole runs of the memory system, user frames and kernel pages together: copy on write
    is invisible until the kernel stops, exactly when it stops, and every reachable state
    accounts for every frame. */
module SystemRuns {
  import opened Basics
  import opened Paging
  import opened Fork
  import opened CopyOnWrite
  import opened Stops
  import opened EagerCopy
  import opened VmRuns
  import opened SharedPool
  import Bitmaps
  import K = KernelPages

  // ---------------------------------------------------------------- states

  /** A task with an address space has its directory and its mapping bitmap; a dead one
      keeps the page with its control block until it is waited for. */
  ghost predicate Tied(s: Sys) {
    forall p: nat ::
      && (DirPage(p) in s.pages <==> Live(s.m, p))
      && (MapPage(p) in s.pages <==> Live(s.m, p))
      && (Live(s.m, p) ==> TaskPage(p) in s.pages)
  }

  ghost predicate SysInv(s: Sys) { Kept(s) && Tied(s) }

  /** The first slot of the task table that is free. */
  function FreeSlot(pages: map<Owner, K.Block>, i: nat): (r: Option<nat>)
    requires i <= TASK_NR
    ensures r.Some? ==> i <= r.value < TASK_NR && TaskPage(r.value) !in pages
    ensures r.Some? ==> forall j: nat :: i <= j < r.value ==> TaskPage(j) in pages
    ensures r.None? ==> forall j: nat :: i <= j < TASK_NR ==> TaskPage(j) in pages
    decreases TASK_NR - i
  {
    if i == TASK_NR then None else if TaskPage(i) !in pages then Some(i) else FreeSlot(pages, i + 1)
  }

  // ------------------------------------------------------------------ fork

  ghost predicate CanFork(s: Sys, p: nat, c: nat) {
    && Kept(s) && Live(s.m, p) && c < TASK_NR && !Live(s.m, c)
    && TaskPage(c) !in s.pages && DirPage(c) !in s.pages && MapPage(c) !in s.pages
  }

  lemma SlotIsFree(s: Sys, p: nat, c: nat)
    requires SysInv(s) && Live(s.m, p) && FreeSlot(s.pages, 0) == Some(c)
    ensures CanFork(s, p, c)
  {}

  /** The two pages that `fork` takes before it copies the page tables. */
  ghost function ForkPages(s: Sys, p: nat, c: nat): (r: Option<Sys>)
    requires CanFork(s, p, c)
    ensures r.Some? ==> Kept(r.value) && KernelOnly(s.m, r.value.m)
    ensures r.Some? ==> MapPage(c) !in r.value.pages && Live(r.value.m, p) && !Live(r.value.m, c)
  {
    match TakeRun(s, TaskPage(c), 1)
    case None => None
    case Some(s1) =>
      TakeRunOk(s, TaskPage(c), 1);
      match TakeRun(s1, DirPage(c), 1)
      case None => None
      case Some(s2) =>
        TakeRunOk(s1, DirPage(c), 1);
        Some(s2)
  }

  /** `sys_fork`: the page of the new task, its directory, the page tables, and the page of
      its mapping bitmap. */
  ghost function ForkTask(s: Sys, p: nat, c: nat): Option<Sys>
    requires CanFork(s, p, c)
  {
    match ForkPages(s, p, c)
    case None => None
    case Some(s2) =>
      match ForkUpTo(s2.m, p, c, USER_DIRS)
      case None => None
      case Some(n) => TakeRun(s2.(m := n), MapPage(c), 1)
  }

  lemma ForkUserOnly(m: Mem, p: nat, c: nat)
    requires Inv(m) && Live(m, p) && c < TASK_NR && !Live(m, c) && ForkUpTo(m, p, c, USER_DIRS).Some?
    ensures UserOnly(m, ForkUpTo(m, p, c, USER_DIRS).value)
  {
    hide Inv;
    InvShape(m);
    forall f: nat | f < FIRST_USER_FRAME
      ensures f < |m.counts| == |ForkUpTo(m, p, c, USER_DIRS).value.counts|
              && ForkUpTo(m, p, c, USER_DIRS).value.counts[f] == m.counts[f]
    {
      ForkKeepsKernelCounts(m, p, c, USER_DIRS, f);
    }
  }

  lemma ForkPagesStop(s: Sys, p: nat, c: nat)
    requires CanFork(s, p, c)
    ensures ForkPages(s, p, c).None? <==> |FreeKernel(s.m)| < 2
    ensures ForkPages(s, p, c).Some? ==>
              var s2 := ForkPages(s, p, c).value;
              && |FreeKernel(s2.m)| == |FreeKernel(s.m)| - 2 && FreeUsers(s2.m) == FreeUsers(s.m)
              && s2.m.dirs == s.m.dirs && s2.m.free == s.m.free - 2
  {
    TakeOneIff(s, TaskPage(c));
    if TakeRun(s, TaskPage(c), 1).Some? {
      TakeRunOk(s, TaskPage(c), 1);
      hide Kept, KernelOnly;
      TakeOneIff(TakeRun(s, TaskPage(c), 1).value, DirPage(c));
      if TakeRun(TakeRun(s, TaskPage(c), 1).value, DirPage(c), 1).Some? {
        TakeRunOk(TakeRun(s, TaskPage(c), 1).value, DirPage(c), 1);
      }
    }
  }

  /** The steps of a fork that goes through. */
  lemma ForkTaskParts(s: Sys, p: nat, c: nat) returns (s2: Sys, n: Mem)
    requires CanFork(s, p, c) && ForkTask(s, p, c).Some?
    ensures ForkPages(s, p, c) == Some(s2) && Kept(s2) && KernelOnly(s.m, s2.m)
    ensures Live(s2.m, p) && !Live(s2.m, c) && ForkUpTo(s2.m, p, c, USER_DIRS) == Some(n) && UserOnly(s2.m, n)
    ensures Kept(s2.(m := n)) && MapPage(c) !in s2.pages && ForkTask(s, p, c) == TakeRun(s2.(m := n), MapPage(c), 1)
    ensures var s' := ForkTask(s, p, c).value;
            && Kept(s') && KernelOnly(n, s'.m) && s'.m.free == n.free - 1
            && MapPage(c) in s'.pages && s'.pages == s2.pages[MapPage(c) := s'.pages[MapPage(c)]]
  {
    s2 := ForkPages(s, p, c).value;
    n := ForkUpTo(s2.m, p, c, USER_DIRS).value;
    ForkUserOnly(s2.m, p, c);
    UserOnlyKeepsHeld(s2, n);
    hide Inv, Held, KernelOnly, UserOnly;
    TakeRunOk(s2.(m := n), MapPage(c), 1);
  }

  lemma UserOnlyFreeKernel(m: Mem, n: Mem)
    requires UserOnly(m, n)
    ensures FreeKernel(n) == FreeKernel(m)
  {}

  lemma SameDirsSameTables(m: Mem, n: Mem, p: nat, i: nat)
    requires |m.dirs| == TASK_NR && n.dirs == m.dirs
    ensures Tables(n, p, i) == Tables(m, p, i)
  {}

  /** `fork` panics exactly when it finds fewer than three kernel pages, or fewer user frames
      than the parent has page tables; all of them are gone from the one count of free pages. */
  lemma ForkTaskStopsIff(s: Sys, p: nat, c: nat)
    requires CanFork(s, p, c)
    ensures |s.m.dirs| == TASK_NR
    ensures ForkTask(s, p, c).None? <==> |FreeKernel(s.m)| < 3 || |FreeUsers(s.m)| < |Tables(s.m, p, USER_DIRS)|
    ensures ForkTask(s, p, c).Some? ==> ForkTask(s, p, c).value.m.free == s.m.free - 3 - |Tables(s.m, p, USER_DIRS)|
  {
    InvShape(s.m);
    ForkPagesStop(s, p, c);
    if ForkPages(s, p, c).Some? {
      var s2 := ForkPages(s, p, c).value;
      hide Inv, Held, KernelOnly, UserOnly, FreeKernel, FreeUsers, Tables;
      ForkStopsIff(s2.m, p, c, USER_DIRS);
      SameDirsSameTables(s.m, s2.m, p, USER_DIRS);
      if ForkUpTo(s2.m, p, c, USER_DIRS).Some? {
        var n := ForkUpTo(s2.m, p, c, USER_DIRS).value;
        ForkUserOnly(s2.m, p, c);
        UserOnlyKeepsHeld(s2, n);
        UserOnlyFreeKernel(s2.m, n);
        TakeOneIff(s2.(m := n), MapPage(c));
        if TakeRun(s2.(m := n), MapPage(c), 1).Some? {
          TakeRunOk(s2.(m := n), MapPage(c), 1);
        }
      }
    }
  }

  // ------------------------------------------- what user steps leave alone

  lemma LinkUserOnly(m: Mem, l: Place)
    requires Inv(m) && InRange(l) && l.Pte? && Live(m, l.p) && LinkPage(m, l).Some?
    ensures UserOnly(m, LinkPage(m, l).value)
  {
    hide Accounting, SharersAgree, EntriesOk, TablesUnshared;
    EnsureTableOk(m, l.p, l.d);
  }

  lemma UnlinkUserOnly(m: Mem, l: Place)
    requires Inv(m) && InRange(l) && l.Pte? && Live(m, l.p) && UnlinkPage(m, l).Some?
    ensures UserOnly(m, UnlinkPage(m, l).value)
  {
    EnsureTableOk(m, l.p, l.d);
    var m1 := EnsureTable(m, l.p, l.d).value;
    if Mapped(m1, l) {
      EntryIsOk(m1, l);
      RemovePageKeepsInv(m1, l);
    }
    hide Accounting, SharersAgree, EntriesOk, TablesUnshared;
  }

  lemma MmapUserOnly(m: Mem, l: Place, writable: bool, share: bool, priv: bool)
    requires Inv(m) && InRange(l) && l.Pte? && Live(m, l.p) && MmapPage(m, l, writable, share, priv).Some?
    ensures UserOnly(m, MmapPage(m, l, writable, share, priv).value)
  {
    hide Accounting, SharersAgree, EntriesOk, TablesUnshared, LinkPage;
    LinkPageMaps(m, l);
    LinkUserOnly(m, l);
  }

  lemma ExitUserOnly(m: Mem, p: nat)
    requires Inv(m) && p < TASK_NR && Live(m, p)
    ensures UserOnly(m, Exit(m, p))
  {
    ExitOk(m, p);
    forall f: nat | f < FIRST_USER_FRAME ensures Exit(m, p).counts[f] == m.counts[f] {
      FreeKeepsKernelCounts(m, p, 0, 0, f);
    }
  }

  lemma CopyUserOnly(m: Mem, l: Place)
    requires Inv(m) && Mapped(m, l) && CopyPage(m, l).Some?
    ensures UserOnly(m, CopyPage(m, l).value)
  {
    EntryIsOk(m, l);
    RemovePageKeepsInv(m, l);
  }

  lemma FaultUserOnly(m: Mem, p: nat, a: nat, writing: bool)
    requires Inv(m) && p < TASK_NR && Live(m, p)
    ensures !PageFault(m, p, a, writing).Panic? ==> UserOnly(m, PageFault(m, p, a, writing).m)
  {
    hide Accounting, SharersAgree, EntriesOk, TablesUnshared, LinkPage, CopyPage, Exit, FreeFits;
    ExitUserOnly(m, p);
    if UserAddress(a) {
      AddressParts(a);
      var l := PlaceOf(p, a);
      if Mapped(m, l) {
        if CopyPage(m, l).Some? {
          CopyUserOnly(m, l);
        }
      } else if LinkPage(m, l).Some? {
        LinkUserOnly(m, l);
      }
    }
  }

  lemma StepUserOnly(m: Mem, op: Op)
    requires Inv(m) && Legal(m, op) && !op.DoFork? && !Step(m, op).Panic?
    ensures UserOnly(m, Step(m, op).m)
  {
    hide Accounting, SharersAgree, EntriesOk, TablesUnshared, LinkPage, UnlinkPage, MmapPage, PageFault, Exit, FreeFits;
    match op
    case DoLoad(p, a) => FaultUserOnly(m, p, a, false);
    case DoStore(p, a, w) =>
      FaultUserOnly(m, p, a, true);
      if UserAddress(a) && Accessible(m, PlaceOf(p, a), true) {
      } else {
        PageFaultServes(m, p, a, true);
      }
    case DoLink(p, a) => AddressParts(a); LinkUserOnly(m, PlaceOf(p, a));
    case DoUnlink(p, a) => AddressParts(a); UnlinkUserOnly(m, PlaceOf(p, a));
    case DoMmap(p, a, writable, share, priv) => AddressParts(a); MmapUserOnly(m, PlaceOf(p, a), writable, share, priv);
    case DoExit(p) => ExitUserOnly(m, p);
  }

  // ----------------------------------------------------------------- calls

  /** What happens to memory: an operation of a user program, the kernel taking a run of
      pages for itself or giving one back, and the page of a dead task going back when it
      has been waited for. */
  datatype Call = User(op: Op) | KernelTakes(id: nat, n: nat) | KernelGives(id: nat) | Reap(c: nat)

  datatype Result = Went(s: Sys, seen: Option<Word>) | Ended(s: Sys) | Stop

  /** The child of a fork is in the first free slot; the others are as for single steps. */
  ghost predicate CallLegal(s: Sys, call: Call)
    requires SysInv(s)
  {
    match call
    case User(op) =>
      if op.DoFork? then op.p < TASK_NR && Live(s.m, op.p) && (FreeSlot(s.pages, 0).Some? ==> op.c == FreeSlot(s.pages, 0).value)
      else Legal(s.m, op)
    case KernelTakes(id, n) => n > 0 && Other(id) !in s.pages
    case KernelGives(id) => Other(id) in s.pages
    case Reap(c) => 2 <= c && TaskPage(c) in s.pages && !Live(s.m, c)
  }

  /** The end of `sys_exit`: directory and mapping bitmap go back after the user frames. */
  ghost function Released(s: Sys, p: nat): (r: Sys)
    requires Kept(s) && DirPage(p) in s.pages && MapPage(p) in s.pages
    ensures Kept(r) && KernelOnly(s.m, r.m) && r.pages == s.pages - {DirPage(p)} - {MapPage(p)}
  {
    GiveRunOk(s, DirPage(p));
    var s1 := GiveRun(s, DirPage(p));
    GiveRunOk(s1, MapPage(p));
    GiveRun(s1, MapPage(p))
  }

  lemma StepKept(s: Sys, op: Op)
    requires SysInv(s) && Legal(s.m, op) && !op.DoFork? && !Step(s.m, op).Panic?
    ensures Kept(s.(m := Step(s.m, op).m)) && DirPage(op.p) in s.pages && MapPage(op.p) in s.pages
  {
    hide Inv;
    StepInv(s.m, op);
    StepUserOnly(s.m, op);
    UserOnlyKeepsHeld(s, Step(s.m, op).m);
  }

  ghost function CallStep(s: Sys, call: Call): Result
    requires SysInv(s) && CallLegal(s, call)
  {
    match call
    case User(op) =>
      if op.DoFork? then
        if FreeSlot(s.pages, 0).None? then Stop
        else
          SlotIsFree(s, op.p, op.c);
          match ForkTask(s, op.p, op.c)
          case None => Stop
          case Some(s') => Went(s', None)
      else
        (match Step(s.m, op)
         case Panic => Stop
         case Done(m, seen) => Went(s.(m := m), seen)
         case Killed(m) => StepKept(s, op); Ended(Released(s.(m := m), op.p)))
    case KernelTakes(id, n) =>
      (match TakeRun(s, Other(id), n)
       case None => Stop
       case Some(s') => Went(s', None))
    case KernelGives(id) => Went(GiveRun(s, Other(id)), None)
    case Reap(c) => Went(GiveRun(s, TaskPage(c)), None)
  }

  /** Where a call stops the kernel. */
  ghost predicate CallStops(s: Sys, call: Call)
    requires SysInv(s) && CallLegal(s, call)
  {
    match call
    case User(op) =>
      if op.DoFork? then
        || (forall c: nat :: c < TASK_NR ==> TaskPage(c) in s.pages)
        || |FreeKernel(s.m)| < 3
        || |FreeUsers(s.m)| < |Tables(s.m, op.p, USER_DIRS)|
      else StepStops(s.m, op)
    case KernelTakes(_, n) => forall r: nat :: !Bitmaps.ClearRun(View(s.m).bits, r, n)
    case KernelGives(_) => false
    case Reap(_) => false
  }

  /** Exactly when a call stops the kernel: a full table of tasks, no kernel page or no user
      frame where one is wanted, or a failed assertion. */
  lemma CallStopsIff(s: Sys, call: Call)
    requires SysInv(s) && CallLegal(s, call)
    ensures CallStep(s, call).Stop? <==> CallStops(s, call)
  {
    hide StepStops, Step, ForkTask, TakeRun, GiveRun, Inv, Held;
    match call
    case User(op) =>
      if op.DoFork? {
        if FreeSlot(s.pages, 0).Some? {
          SlotIsFree(s, op.p, op.c);
          ForkTaskStopsIff(s, op.p, op.c);
        }
      } else {
        StepStopsIff(s.m, op);
      }
    case KernelTakes(id, n) => TakeStopsIff(s, id, n);
    case KernelGives(_) =>
    case Reap(_) =>
  }

  lemma TakeStopsIff(s: Sys, id: nat, n: nat)
    requires Kept(s) && n > 0
    ensures TakeRun(s, Other(id), n).None? <==> forall r: nat :: !Bitmaps.ClearRun(View(s.m).bits, r, n)
  {
    var r := K.Lowest(View(s.m).bits, n);
    assert r < |View(s.m).bits| ==> Bitmaps.ClearRun(View(s.m).bits, r, n);
  }

  // ------------------------------------------------------- the eager machine

  ghost predicate ECallLegal(e: Eager, call: Call) { call.User? ==> ELegal(e, call.op) }

  ghost predicate ECallAllowed(e: Eager, call: Call, o: Choice)
    requires ECallLegal(e, call)
  {
    call.User? ==> Allowed(e, call.op, o)
  }

  /** Kernel pages are nothing to the eager machine. */
  ghost function ECallStep(e: Eager, call: Call, o: Choice): EOutcome
    requires EValid(e) && ECallLegal(e, call) && ECallAllowed(e, call, o)
  {
    if call.User? then EStep(e, call.op, o) else EDone(e, None)
  }

  ghost predicate CallMatches(r: Result, x: EOutcome) {
    match r
    case Stop => false
    case Went(s, seen) => x.EDone? && x.seen == seen && SysInv(s) && Sim(s.m, x.e)
    case Ended(s) => x.EKilled? && SysInv(s) && Sim(s.m, x.e)
  }

  lemma KernelOnlySims(m: Mem, m': Mem, e: Eager)
    requires Inv(m) && Sim(m, e) && KernelOnly(m, m')
    ensures Inv(m') && Sim(m', e)
  {
    KernelOnlyKeepsInv(m, m');
    KernelOnlyTables(m, m');
    hide Accounting, SharersAgree, TablesUnshared;
    forall l: Place | l.Pte? ensures SimAt(m', e, l) {
      assert SimAt(m, e, l);
      if Mapped(m, l) {
        EntryIsOk(m, l);
      }
      SimAtKept(m, m', e, e, l);
    }
    forall p: nat ensures Live(m', p) == ELive(e, p) {
      assert Live(m, p) == ELive(e, p);
    }
  }

  /** Which address spaces there are after a step of the eager machine. */
  lemma EStepLives(e: Eager, op: Op, o: Choice)
    requires EValid(e) && ELegal(e, op) && Allowed(e, op, o)
    ensures var x := EStep(e, op, o);
            && (x.EDone? ==> forall q: nat :: ELive(x.e, q) <==> ELive(e, q) || (op.DoFork? && q == op.c))
            && (x.EKilled? ==> forall q: nat :: ELive(x.e, q) <==> ELive(e, q) && q != op.p)
  {}

  lemma SameLivesTied(s: Sys, s': Sys)
    requires Tied(s) && SameLive(s.m, s'.m)
    requires forall o: Owner :: !o.Other? && (o.TaskPage? ==> Live(s.m, o.p)) ==> (o in s'.pages <==> o in s.pages)
    ensures Tied(s')
  {}

  lemma OneLessTied(s: Sys, s': Sys, p: nat)
    requires Tied(s) && (forall q: nat :: Live(s'.m, q) <==> Live(s.m, q) && q != p)
    requires s'.pages == s.pages - {DirPage(p)} - {MapPage(p)}
    ensures Tied(s')
  {}

  lemma OneMoreTied(s: Sys, s': Sys, c: nat)
    requires Tied(s) && (forall q: nat :: Live(s'.m, q) <==> Live(s.m, q) || q == c)
    requires forall o :: o in s'.pages <==> o in s.pages || o == TaskPage(c) || o == DirPage(c) || o == MapPage(c)
    ensures Tied(s')
  {}

  /** The address spaces after a step, told from those of the eager machine. */
  lemma StepLives(m: Mem, m': Mem, e: Eager, e': Eager, op: Op, killed: bool)
    requires Inv(m) && Inv(m') && Sim(m, e) && Sim(m', e')
    requires forall q: nat :: ELive(e', q) <==> if killed then ELive(e, q) && q != op.p else ELive(e, q) || (op.DoFork? && q == op.c)
    ensures forall q: nat :: Live(m', q) <==> if killed then Live(m, q) && q != op.p else Live(m, q) || (op.DoFork? && q == op.c)
  {
    hide Inv, SimAt;
    forall q: nat
      ensures Live(m', q) <==> if killed then Live(m, q) && q != op.p else Live(m, q) || (op.DoFork? && q == op.c)
    {
      assert Live(m, q) == ELive(e, q) && Live(m', q) == ELive(e', q);
    }
  }

  lemma StepSims(s: Sys, e: Eager, op: Op) returns (o: Choice)
    requires SysInv(s) && Sim(s.m, e) && Legal(s.m, op) && !op.DoFork? && !Step(s.m, op).Panic?
    ensures EValid(e) && ELegal(e, op) && Allowed(e, op, o)
    ensures CallMatches(CallStep(s, User(op)), EStep(e, op, o))
  {
    hide Inv, Held, StepStops, Step, EStep, Legal, Sim, Tied;
    SysInvParts(s);
    o := StepSimulates(s.m, e, op);
    EStepLives(e, op, o);
    StepKept(s, op);
    var m, e1 := Step(s.m, op).m, EStep(e, op, o).e;
    StepLives(s.m, m, e, e1, op, Step(s.m, op).Killed?);
    if Step(s.m, op).Killed? {
      var r := Released(s.(m := m), op.p);
      KernelOnlySims(m, r.m, e1);
      KernelOnlyLives(m, r.m);
      OneLessTied(s, r, op.p);
    } else {
      SameLivesTied(s, s.(m := m));
    }
  }

  lemma SysInvParts(s: Sys)
    requires SysInv(s)
    ensures Inv(s.m) && Kept(s) && Tied(s)
  {}

  lemma KernelOnlyLives(m: Mem, m': Mem)
    requires KernelOnly(m, m')
    ensures SameLive(m, m')
  {}

  lemma ForkELive(m: Mem, e: Eager, p: nat, c: nat, o: Choice)
    requires Inv(m) && Sim(m, e) && Live(m, p) && c < TASK_NR && !Live(m, c)
    ensures ELive(e, p) && !ELive(e, c) && c < |e.spaces| && EValid(e) && ELegal(e, DoFork(p, c))
    ensures Allowed(e, DoFork(p, c), o) && EStep(e, DoFork(p, c), o) == EDone(e.(spaces := e.spaces[c := e.spaces[p]]), None)
  {
    SimIsValid(m, e);
    assert Live(m, p) == ELive(e, p) && Live(m, c) == ELive(e, c);
  }

  lemma ForkSims(s: Sys, e: Eager, p: nat, c: nat, o: Choice)
    requires SysInv(s) && Sim(s.m, e) && CanFork(s, p, c) && ForkTask(s, p, c).Some?
    ensures EValid(e) && ELegal(e, DoFork(p, c)) && Allowed(e, DoFork(p, c), o) && EStep(e, DoFork(p, c), o).EDone?
    ensures EStep(e, DoFork(p, c), o).seen == None
    ensures var s' := ForkTask(s, p, c).value; SysInv(s') && Sim(s'.m, EStep(e, DoFork(p, c), o).e)
  {
    hide Inv, Held, KernelOnly, UserOnly, Tied, ForkPages, ForkTask, Sim, EStep, ForkUpTo;
    SysInvParts(s);
    ForkELive(s.m, e, p, c, o);
    var s2, n := ForkTaskParts(s, p, c);
    var s' := ForkTask(s, p, c).value;
    var e' := EStep(e, DoFork(p, c), o).e;
    KernelOnlySims(s.m, s2.m, e);
    ForkSimulates(s2.m, e, p, c);
    KernelOnlySims(n, s'.m, e');
    ForkPagesAdds(s, p, c);
    EStepLives(e, DoFork(p, c), o);
    StepLives(s.m, s'.m, e, e', DoFork(p, c), false);
    OneMoreTied(s, s', c);
  }

  lemma ForkPagesAdds(s: Sys, p: nat, c: nat)
    requires CanFork(s, p, c) && ForkPages(s, p, c).Some?
    ensures forall o :: o in ForkPages(s, p, c).value.pages <==> o in s.pages || o == TaskPage(c) || o == DirPage(c)
  {
    TakeRunOk(s, TaskPage(c), 1);
    hide Inv, KernelOnly;
    TakeRunOk(TakeRun(s, TaskPage(c), 1).value, DirPage(c), 1);
  }

  /** One call of the kernel does and shows what the eager machine does, or stops it exactly
      where it has to. */
  lemma CallSimulates(s: Sys, e: Eager, call: Call) returns (o: Choice)
    requires SysInv(s) && Sim(s.m, e) && CallLegal(s, call)
    ensures CallStep(s, call).Stop? <==> CallStops(s, call)
    ensures !CallStep(s, call).Stop? ==>
              EValid(e) && ECallLegal(e, call) && ECallAllowed(e, call, o) && CallMatches(CallStep(s, call), ECallStep(e, call, o))
  {
    hide CallStops, StepStops, Step, EStep, Inv, Held, Tied, Sim, ForkTask, TakeRun, GiveRun, KernelOnly;
    SysInvParts(s);
    CallStopsIff(s, call);
    SimIsValid(s.m, e);
    InvShape(s.m);
    o := Choice(s.m.frames[0], 0);
    match call
    case User(op) =>
      if op.DoFork? {
        if FreeSlot(s.pages, 0).Some? {
          SlotIsFree(s, op.p, op.c);
          if ForkTask(s, op.p, op.c).Some? {
            ForkSims(s, e, op.p, op.c, o);
          }
        }
      } else if !Step(s.m, op).Panic? {
        o := StepSims(s, e, op);
      }
    case KernelTakes(id, n) =>
      if TakeRun(s, Other(id), n).Some? {
        TakeRunOk(s, Other(id), n);
        KernelCallSims(s, TakeRun(s, Other(id), n).value, e);
      }
    case KernelGives(id) =>
      GiveRunOk(s, Other(id));
      KernelCallSims(s, GiveRun(s, Other(id)), e);
    case Reap(c) =>
      GiveRunOk(s, TaskPage(c));
      KernelCallSims(s, GiveRun(s, TaskPage(c)), e);
  }

  lemma KernelCallSims(s: Sys, s': Sys, e: Eager)
    requires SysInv(s) && Sim(s.m, e) && Kept(s') && KernelOnly(s.m, s'.m)
    requires forall o: Owner :: !o.Other? && (o.TaskPage? ==> Live(s.m, o.p)) ==> (o in s'.pages <==> o in s.pages)
    ensures SysInv(s') && Sim(s'.m, e)
  {
    KernelOnlySims(s.m, s'.m, e);
    KernelOnlyLives(s.m, s'.m);
    SameLivesTied(s, s');
  }

  // ------------------------------------------------------------------ runs

  datatype Event = Saw(word: Option<Word>) | Died | Halted

  /** From `s`, the calls `calls` show `events` and end in `last`; where the kernel stops, the
      rest of `calls` is not done. */
  ghost predicate Runs(s: Sys, calls: seq<Call>, events: seq<Event>, last: Sys)
    decreases |calls|
  {
    if calls == [] then events == [] && last == s
    else
      && events != [] && SysInv(s) && CallLegal(s, calls[0])
      && match CallStep(s, calls[0])
         case Stop => events == [Halted] && last == s
         case Went(s1, seen) => events[0] == Saw(seen) && Runs(s1, calls[1..], events[1..], last)
         case Ended(s1) => events[0] == Died && Runs(s1, calls[1..], events[1..], last)
  }

  ghost predicate ERuns(e: Eager, calls: seq<Call>, choices: seq<Choice>, events: seq<Event>, last: Eager)
    decreases |calls|
  {
    if calls == [] then events == [] && choices == [] && last == e
    else
      && |events| == |calls| == |choices| && EValid(e) && ECallLegal(e, calls[0]) && ECallAllowed(e, calls[0], choices[0])
      && match ECallStep(e, calls[0], choices[0])
         case EPanic => false
         case EDone(e1, seen) => events[0] == Saw(seen) && ERuns(e1, calls[1..], choices[1..], events[1..], last)
         case EKilled(e1) => events[0] == Died && ERuns(e1, calls[1..], choices[1..], events[1..], last)
  }

  /** A run does all of `calls`, or the kernel stops at call `k`, where `CallStops` says so. */
  ghost predicate Through(calls: seq<Call>, events: seq<Event>, last: Sys, k: nat) {
    || k == |calls| == |events|
    || (k < |calls| && |events| == k + 1 && events[k] == Halted && SysInv(last) && CallLegal(last, calls[k]) && CallStops(last, calls[k]))
  }

  /** Copy on write is invisible: whatever the kernel shows, the machine that copies at
      `fork` can show too, and the accounting holds at the end. The kernel may stop on the
      way, but at a call that must stop it. */
  lemma {:induction false} CowInvisible(s: Sys, e: Eager, calls: seq<Call>, events: seq<Event>, last: Sys)
    returns (choices: seq<Choice>, elast: Eager)
    requires SysInv(s) && Sim(s.m, e) && Runs(s, calls, events, last)
    ensures Through(calls, events, last, |choices|)
    ensures ERuns(e, calls[..|choices|], choices, events[..|choices|], elast)
    ensures SysInv(last) && Sim(last.m, elast)
    decreases |calls|
  {
    choices, elast := [], e;
    if calls != [] {
      var o := CallSimulates(s, e, calls[0]);
      if !CallStep(s, calls[0]).Stop? {
        var r := CallStep(s, calls[0]);
        var rest;
        rest, elast := CowInvisible(r.s, ECallStep(e, calls[0], o).e, calls[1..], events[1..], last);
        choices := [o] + rest;
        OneMoreStep(e, calls, choices, events, elast);
        hide Runs, ERuns, Sim;
        assert |rest| < |calls[1..]| ==> calls[1..][|rest|] == calls[|choices|] && events[1..][|rest|] == events[|choices|];
      }
    }
  }

  /** An eager step before an eager run. */
  lemma OneMoreStep(e: Eager, calls: seq<Call>, choices: seq<Choice>, events: seq<Event>, last: Eager)
    requires 0 < |choices| <= |calls| && |choices| <= |events|
    requires EValid(e) && ECallLegal(e, calls[0]) && ECallAllowed(e, calls[0], choices[0]) && !ECallStep(e, calls[0], choices[0]).EPanic?
    requires var x := ECallStep(e, calls[0], choices[0]); events[0] == if x.EDone? then Saw(x.seen) else Died
    requires var n := |choices| - 1;
             ERuns(ECallStep(e, calls[0], choices[0]).e, calls[1..][..n], choices[1..], events[1..][..n], last)
    ensures ERuns(e, calls[..|choices|], choices, events[..|choices|], last)
  {
    var n := |choices|;
    assert calls[..n][1..] == calls[1..][..n - 1] && events[..n][1..] == events[1..][..n - 1];
  }

  /** No call breaks the accounting of user frames and kernel pages. */
  lemma CallKeepsInv(s: Sys, call: Call)
    requires SysInv(s) && CallLegal(s, call)
    ensures !CallStep(s, call).Stop? ==> SysInv(CallStep(s, call).s)
  {
    var e := EagerView(s.m);
    var _ := CallSimulates(s, e, call);
  }

  lemma {:induction false} RunKeepsInv(s: Sys, calls: seq<Call>, events: seq<Event>, last: Sys)
    requires SysInv(s) && Runs(s, calls, events, last)
    ensures SysInv(last)
    decreases |calls|
  {
    if calls != [] {
      CallKeepsInv(s, calls[0]);
      if !CallStep(s, calls[0]).Stop? {
        RunKeepsInv(CallStep(s, calls[0]).s, calls[1..], events[1..], last);
      }
    }
  }
}
