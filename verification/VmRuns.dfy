/** Single steps of the memory system: each shows user loads and stores what the eager
    machine shows, or stops the kernel, exactly where it has to; what `fork` leaves, and
    what `exit` gives back. */
module VmRuns {
  import opened Basics
  import opened Paging
  import opened Fork
  import opened CopyOnWrite
  import opened Stops
  import opened EagerCopy

  ghost predicate Legal(m: Mem, op: Op)
    requires Inv(m)
  {
    && op.p < TASK_NR && Live(m, op.p)
    && (op.DoFork? ==> op.c < TASK_NR && !Live(m, op.c))
    && (op.DoLink? || op.DoUnlink? || op.DoMmap? ==> UserAddress(op.a))
    && (op.DoMmap? ==> MmapSafe(m, PlaceOf(op.p, op.a), op.writable, op.share))
  }

  ghost function OrPanic(r: Option<Mem>): Outcome { if r.Some? then Done(r.value, None) else Panic }

  ghost function Step(m: Mem, op: Op): Outcome
    requires Inv(m) && Legal(m, op)
  {
    match op
    case DoFork(p, c) => OrPanic(ForkUpTo(m, p, c, USER_DIRS))
    case DoLoad(p, a) => Load(m, p, a)
    case DoStore(p, a, w) => Store(m, p, a, w)
    case DoLink(p, a) => AddressParts(a); OrPanic(LinkPage(m, PlaceOf(p, a)))
    case DoUnlink(p, a) => AddressParts(a); OrPanic(UnlinkPage(m, PlaceOf(p, a)))
    case DoMmap(p, a, writable, share, priv) => AddressParts(a); OrPanic(MmapPage(m, PlaceOf(p, a), writable, share, priv))
    case DoExit(p) => Kill(m, p)
  }

  /** Where an operation stops the kernel. */
  ghost predicate StepStops(m: Mem, op: Op)
    requires Inv(m) && Legal(m, op)
  {
    match op
    case DoFork(p, c) => |FreeUsers(m)| < |Tables(m, p, USER_DIRS)|
    case DoLoad(p, a) => LoadStops(m, p, a)
    case DoStore(p, a, w) => StoreStops(m, p, a)
    case DoLink(p, a) => |FreeUsers(m)| < FramesFor(m, PlaceOf(p, a))
    case DoUnlink(p, a) => AddressParts(a); UnlinkStops(m, PlaceOf(p, a))
    case DoMmap(p, a, _, _, _) => |FreeUsers(m)| < FramesFor(m, PlaceOf(p, a))
    case DoExit(p) => KillStops(m, p)
  }

  /** Exactly when a step stops the kernel, by a failed assertion or for want of a frame. */
  lemma StepStopsIff(m: Mem, op: Op)
    requires Inv(m) && Legal(m, op)
    ensures Step(m, op).Panic? <==> StepStops(m, op)
  {
    hide Accounting, SharersAgree, EntriesOk, TablesUnshared, Load, Store, LoadStops, StoreStops, KillStops, UnlinkStops, LinkPage, UnlinkPage, Kill;
    match op
    case DoFork(p, c) => ForkStopsIff(m, p, c, USER_DIRS);
    case DoLoad(p, a) => LoadStopsIff(m, p, a);
    case DoStore(p, a, w) => StoreStopsIff(m, p, a, w);
    case DoLink(p, a) => AddressParts(a); LinkStopsIff(m, PlaceOf(p, a));
    case DoUnlink(p, a) => AddressParts(a); UnlinkStopsIff(m, PlaceOf(p, a));
    case DoMmap(p, a, _, _, _) => AddressParts(a); LinkStopsIff(m, PlaceOf(p, a));
    case DoExit(p) => KillStopsIff(m, p);
  }

  /** The two machines do and show the same, and end in matching states. */
  ghost predicate Matches(r: Outcome, s: EOutcome) {
    match r
    case Panic => false
    case Done(m, seen) => s.EDone? && s.seen == seen && Inv(m) && Sim(m, s.e)
    case Killed(m) => s.EKilled? && Inv(m) && Sim(m, s.e)
  }

  lemma SimKeepsLegal(m: Mem, e: Eager, op: Op)
    requires Inv(m) && Sim(m, e) && Legal(m, op)
    ensures EValid(e) && ELegal(e, op)
  {
    SimIsValid(m, e);
  }

  lemma StepSimulates(m: Mem, e: Eager, op: Op) returns (o: Choice)
    requires Inv(m) && Sim(m, e) && Legal(m, op)
    ensures Step(m, op).Panic? <==> StepStops(m, op)
    ensures !Step(m, op).Panic? ==> EValid(e) && ELegal(e, op) && Allowed(e, op, o) && Matches(Step(m, op), EStep(e, op, o))
  {
    StepStopsIff(m, op);
    hide StepStops;
    SimKeepsLegal(m, e, op);
    o := Choice(m.frames[0], 0);
    match op
    case DoFork(p, c) =>
      if Step(m, op).Done? {
        ForkSimulates(m, e, p, c);
      }
    case DoLoad(p, a) => o := LoadMatches(m, e, p, a);
    case DoStore(p, a, w) => o := StoreMatches(m, e, p, a, w);
    case DoLink(p, a) =>
      AddressParts(a);
      var l := PlaceOf(p, a);
      if LinkPage(m, l).Some? {
        LinkPageMaps(m, l);
        assert EntryOk(LinkPage(m, l).value, EntryAt(LinkPage(m, l).value, l));
        o := Choice(LinkPage(m, l).value.frames[EntryAt(LinkPage(m, l).value, l).index], 0);
        LinkSimulates(m, e, l, o);
      }
    case DoUnlink(p, a) =>
      AddressParts(a);
      if UnlinkPage(m, PlaceOf(p, a)).Some? {
        UnlinkSimulates(m, e, PlaceOf(p, a));
      }
    case DoMmap(p, a, writable, share, priv) => o := MmapMatches(m, e, p, a, writable, share, priv);
    case DoExit(p) => ExitSimulates(m, e, p);
  }

  lemma MmapMatches(m: Mem, e: Eager, p: nat, a: nat, writable: bool, share: bool, priv: bool) returns (o: Choice)
    requires Inv(m) && Sim(m, e) && EValid(e)
    requires Legal(m, DoMmap(p, a, writable, share, priv)) && ELegal(e, DoMmap(p, a, writable, share, priv))
    ensures LinkPage(m, PlaceOf(p, a)).Some? ==>
              && Allowed(e, DoMmap(p, a, writable, share, priv), o)
              && Matches(Step(m, DoMmap(p, a, writable, share, priv)), EStep(e, DoMmap(p, a, writable, share, priv), o))
  {
    hide Accounting, TablesUnshared, SharersAgree, EntriesOk, LinkPage, MmapSafe;
    AddressParts(a);
    var l := PlaceOf(p, a);
    o := Choice(m.frames[0], 0);
    if LinkPage(m, l).Some? {
      assert SimAt(m, e, l);
      LinkPageMaps(m, l);
      EntryIsOk(LinkPage(m, l).value, l);
      o := Choice(LinkPage(m, l).value.frames[EntryAt(LinkPage(m, l).value, l).index], EntryAt(LinkPage(m, l).value, l).index);
      MmapSimulates(m, e, l, writable, share, priv, o);
    }
  }

  lemma LoadMatches(m: Mem, e: Eager, p: nat, a: nat) returns (o: Choice)
    requires Inv(m) && Sim(m, e) && EValid(e) && Legal(m, DoLoad(p, a)) && ELegal(e, DoLoad(p, a))
    ensures !Load(m, p, a).Panic? ==> Matches(Load(m, p, a), EStep(e, DoLoad(p, a), o))
  {
    o := Choice(m.frames[0], 0);
    assert SimAt(m, e, PlaceOf(p, a));
    if UserAddress(a) && Load(m, p, a).Done? {
      o := LoadSimulates(m, e, p, a);
    } else {
      ExitSimulates(m, e, p);
    }
  }

  lemma StoreMatches(m: Mem, e: Eager, p: nat, a: nat, w: Word) returns (o: Choice)
    requires Inv(m) && Sim(m, e) && EValid(e) && Legal(m, DoStore(p, a, w)) && ELegal(e, DoStore(p, a, w))
    ensures !Store(m, p, a, w).Panic? ==> Matches(Store(m, p, a, w), EStep(e, DoStore(p, a, w), o))
  {
    o := Choice(m.frames[0], 0);
    assert SimAt(m, e, PlaceOf(p, a));
    if UserAddress(a) && Store(m, p, a, w).Done? {
      o := StoreSimulates(m, e, p, a, w);
    } else if Store(m, p, a, w).Killed? {
      ExitSimulates(m, e, p);
      AddressParts(a);
    }
  }

  // ------------------------------------------------------------ accounting

  /** The pages that `memory_map_init` takes for good: the first megabyte and the table of
      counts itself, one byte for each of `total` frames. */
  function BootFrames(total: nat): nat { 256 + (total + 4095) / 4096 }

  /** What `memory_map_init` leaves: those taken, the others free, and no address space. */
  ghost predicate Booted(m: Mem) {
    && FIRST_USER_FRAME <= |m.counts| == |m.frames| <= 0x10_0000 && |m.dirs| == TASK_NR
    && (forall f: nat :: f < |m.counts| ==> m.counts[f] == if f < BootFrames(|m.counts|) then RESERVED else 0)
    && m.free == |m.counts| - BootFrames(|m.counts|)
    && (forall p: nat :: p < TASK_NR ==> m.dirs[p] == None)
  }

  lemma BootedInv(m: Mem)
    requires Booted(m)
    ensures Inv(m)
  {
    ZerosFrom(m.counts, BootFrames(|m.counts|));
    assert forall p, d :: !HasTable(m, p, d);
    assert Shape(m);
    forall f | UserFrame(m, f) ensures Refs(m, f) == {} {}
  }

  /** When no task has an address space, every user frame is free. */
  lemma AllExitedAllFree(m: Mem, f: nat)
    requires Inv(m) && (forall p: nat :: !Live(m, p)) && UserFrame(m, f)
    ensures m.counts[f] == 0
  {
    assert forall p, d :: HasTable(m, p, d) ==> Live(m, p);
    assert Refs(m, f) == {};
  }

  /** How the entries of a forked memory relate to those before. */
  ghost predicate ForkShape(m: Mem, n: Mem, p: nat, c: nat, i: nat)
    requires Shape(m) && Shape(n)
  {
    && |n.counts| == |m.counts|
    && (forall q, d :: q != c ==> HasTable(n, q, d) == HasTable(m, q, d))
    && (forall q, d :: q != c && HasTable(m, q, d) ==> TableFrame(n, q, d) == TableFrame(m, q, d))
    && (forall l: Place :: l.p != c ==> Mapped(n, l) == Mapped(m, l))
    && (forall l: Place :: l.p != c && Mapped(m, l) ==>
          EntryAt(n, l).index == EntryAt(m, l).index
          && EntryAt(n, l).shared == EntryAt(m, l).shared && EntryAt(n, l).readonly == EntryAt(m, l).readonly)
    && (forall d: nat, t: nat :: d < i && Mapped(m, Pte(p, d, t)) ==>
          Mapped(n, Pte(c, d, t)) && EntryAt(n, Pte(c, d, t)).index == EntryAt(m, Pte(p, d, t)).index)
    && (forall l: Place :: l.p == p && l.d < i && Mapped(m, l) && !EntryAt(m, l).shared ==> !EntryAt(n, l).write)
  }

  lemma ForkShapeStart(m: Mem, p: nat, c: nat)
    requires Inv(m) && Live(m, p) && c < TASK_NR && !Live(m, c)
    ensures Inv(NewSpace(m, p, c)) && ForkShape(m, NewSpace(m, p, c), p, c, 0)
  {
    NewSpaceOk(m, p, c);
  }

  lemma {:induction false} ForkUpToShape(m: Mem, p: nat, c: nat, i: nat)
    requires Inv(m) && Live(m, p) && c < TASK_NR && !Live(m, c) && i <= USER_DIRS
    requires ForkUpTo(m, p, c, i).Some?
    ensures ForkShape(m, ForkUpTo(m, p, c, i).value, p, c, i)
  {
    hide Accounting, TablesUnshared, EntriesOk, SharersAgree, ForkShape;
    if i == 0 {
      ForkShapeStart(m, p, c);
    } else {
      var n := ForkUpTo(m, p, c, i - 1).value;
      ForkUpToShape(m, p, c, i - 1);
      if HasTable(n, p, i - 1) {
        var f := LowestFree(n).value;
        ForkTableKeepsInv(n, p, c, i - 1, f);
        ForkShapeStep(m, n, ForkTable(n, p, c, i - 1, f), p, c, i - 1, f);
      } else {
        ForkShapeSkip(m, n, p, c, i - 1);
      }
    }
  }

  lemma ForkShapeSkip(m: Mem, n: Mem, p: nat, c: nat, d: nat)
    requires Inv(m) && Inv(n) && ForkShape(m, n, p, c, d) && !HasTable(n, p, d) && p != c
    ensures ForkShape(m, n, p, c, d + 1)
  {}

  lemma ForkShapeStep(m: Mem, n: Mem, n': Mem, p: nat, c: nat, d: nat, f: nat)
    requires Inv(m) && Inv(n) && Inv(n') && p != c && ForkShape(m, n, p, c, d)
    requires HasTable(n, p, d) && ForkStructure(n, n', p, c, d, f)
    ensures ForkShape(m, n', p, c, d + 1)
  {
    hide Accounting, TablesUnshared, SharersAgree, EntriesOk;
    forall l: Place | l.p != c && Mapped(m, l)
      ensures Mapped(n', l)
              && EntryAt(n', l).index == EntryAt(m, l).index
              && EntryAt(n', l).shared == EntryAt(m, l).shared && EntryAt(n', l).readonly == EntryAt(m, l).readonly
              && (l.p == p && l.d <= d && !EntryAt(m, l).shared ==> !EntryAt(n', l).write)
    {
      assert Mapped(n, l);
    }
    forall e: nat, t: nat | e <= d && Mapped(m, Pte(p, e, t))
      ensures Mapped(n', Pte(c, e, t)) && EntryAt(n', Pte(c, e, t)).index == EntryAt(m, Pte(p, e, t)).index
    {
      ForkedEntry(m, n, n', p, c, d, f, e, t);
    }
  }

  lemma ForkedEntry(m: Mem, n: Mem, n': Mem, p: nat, c: nat, d: nat, f: nat, e: nat, t: nat)
    requires Inv(m) && Inv(n) && Inv(n') && p != c && ForkShape(m, n, p, c, d)
    requires HasTable(n, p, d) && ForkStructure(n, n', p, c, d, f)
    requires e <= d && Mapped(m, Pte(p, e, t))
    ensures Mapped(n', Pte(c, e, t)) && EntryAt(n', Pte(c, e, t)).index == EntryAt(m, Pte(p, e, t)).index
  {
    hide Accounting, TablesUnshared, SharersAgree, EntriesOk;
    assert Mapped(n, Pte(p, e, t));
    if e < d {
      assert Mapped(n, Pte(c, e, t));
    }
  }

  /** Neither `fork` nor `exit` touches the kernel's frames. */
  lemma {:induction false} ForkKeepsKernelCounts(m: Mem, p: nat, c: nat, i: nat, g: nat)
    requires Inv(m) && Live(m, p) && c < TASK_NR && !Live(m, c) && i <= USER_DIRS && g < FIRST_USER_FRAME
    requires ForkUpTo(m, p, c, i).Some?
    ensures g < |ForkUpTo(m, p, c, i).value.counts| == |m.counts| && ForkUpTo(m, p, c, i).value.counts[g] == m.counts[g]
  {
    if i > 0 {
      var n := ForkUpTo(m, p, c, i - 1).value;
      ForkKeepsKernelCounts(m, p, c, i - 1, g);
      if HasTable(n, p, i - 1) {
        KernelCountsStay(n, p, i - 1, g);
      }
    }
  }

  lemma {:induction false} FreeKeepsKernelCounts(m: Mem, p: nat, d: nat, t: nat, g: nat)
    requires Inv(m) && p < TASK_NR && Live(m, p) && d <= USER_DIRS && t <= ENTRIES && g < FIRST_USER_FRAME
    requires Cleared(m, p, d, t)
    requires forall e: nat :: e < d ==> !HasTable(m, p, e)
    ensures FreeFrom(m, p, d, t).counts[g] == m.counts[g]
    decreases USER_DIRS - d, ENTRIES - t
  {
    hide Accounting, SharersAgree;
    if d == USER_DIRS {
    } else if !HasTable(m, p, d) {
      FreeKeepsKernelCounts(m, p, d + 1, 0, g);
    } else if t == ENTRIES {
      RemoveTableKeepsOthers(m, p, d);
      FreeKeepsKernelCounts(RemoveTable(m, p, d), p, d + 1, 0, g);
    } else if !Mapped(m, Pte(p, d, t)) {
      FreeKeepsKernelCounts(m, p, d, t + 1, g);
    } else {
      EntryIsOk(m, Pte(p, d, t));
      RemovePageKeepsOthers(m, Pte(p, d, t));
      FreeKeepsKernelCounts(RemovePage(m, p, d, t), p, d, t + 1, g);
    }
  }

  /** Exit takes back what `fork` gave: every user frame has the count from before, whatever
      the kernel has taken for itself in between. */
  lemma ExitRestoresUsers(m: Mem, n: Mem, p: nat, c: nat)
    requires Inv(m) && Inv(n) && c < TASK_NR && !Live(m, c) && Live(n, c) && ForkShape(m, n, p, c, USER_DIRS)
    ensures var x := Exit(n, c);
            && Inv(x) && |x.counts| == |n.counts| == |m.counts|
            && (forall f: nat :: UserFrame(m, f) ==> x.counts[f] == m.counts[f])
            && (forall f: nat :: f < FIRST_USER_FRAME ==> x.counts[f] == n.counts[f])
  {
    var x := Exit(n, c);
    ExitOk(n, c);
    forall f: nat | UserFrame(m, f) ensures x.counts[f] == m.counts[f] {
      RefsBack(m, n, x, p, c, f);
    }
    forall f: nat | f < FIRST_USER_FRAME ensures x.counts[f] == n.counts[f] {
      FreeKeepsKernelCounts(n, c, 0, 0, f);
    }
  }

  lemma RefsBack(m: Mem, n: Mem, x: Mem, p: nat, c: nat, f: nat)
    requires Inv(m) && Inv(n) && Inv(x) && !Live(m, c) && !Live(x, c) && UserFrame(m, f)
    requires ForkShape(m, n, p, c, USER_DIRS) && OthersKept(n, x, c)
    ensures Refs(x, f) == Refs(m, f)
  {
    forall k ensures k in Refs(x, f) <==> k in Refs(m, f) {
      PlacesAreInRange(k);
      SameNamesOfOthers(m, n, x, p, c, k, f);
    }
  }

  lemma SameNamesOfOthers(m: Mem, n: Mem, x: Mem, p: nat, c: nat, k: Place, f: int)
    requires Inv(m) && Inv(n) && Inv(x) && !Live(m, c) && !Live(x, c)
    requires ForkShape(m, n, p, c, USER_DIRS) && OthersKept(n, x, c)
    ensures Names(x, k, f) == Names(m, k, f)
  {
    if k.p == c {
      assert !HasTable(x, k.p, k.d) && !HasTable(m, k.p, k.d);
    }
  }

  /** The child's tables and pages are those of the parent that have been copied. */
  ghost predicate ChildShape(m: Mem, n: Mem, p: nat, c: nat, i: nat)
    requires Shape(m) && Shape(n)
  {
    && (forall e: nat :: e < USER_DIRS ==> (HasTable(n, c, e) <==> e < i && HasTable(m, p, e)))
    && (forall e: nat, t: nat :: Mapped(n, Pte(c, e, t)) ==> Mapped(m, Pte(p, e, t)))
  }

  lemma {:induction false} ForkUpToChild(m: Mem, p: nat, c: nat, i: nat)
    requires Inv(m) && Live(m, p) && c < TASK_NR && !Live(m, c) && i <= USER_DIRS
    requires ForkUpTo(m, p, c, i).Some?
    ensures ChildShape(m, ForkUpTo(m, p, c, i).value, p, c, i)
  {
    hide Accounting, TablesUnshared, EntriesOk, SharersAgree, ChildShape, ForkShape;
    if i == 0 {
      NoChildYet(m, p, c);
    } else {
      var n := ForkUpTo(m, p, c, i - 1).value;
      ForkUpToChild(m, p, c, i - 1);
      ForkUpToShape(m, p, c, i - 1);
      if HasTable(n, p, i - 1) {
        var f := LowestFree(n).value;
        ForkTableKeepsInv(n, p, c, i - 1, f);
        ChildShapeStep(m, n, ForkTable(n, p, c, i - 1, f), p, c, i - 1, f);
      } else {
        ChildShapeSkip(m, n, p, c, i - 1);
      }
    }
  }

  lemma NoChildYet(m: Mem, p: nat, c: nat)
    requires Inv(m) && Live(m, p) && c < TASK_NR && !Live(m, c)
    ensures Inv(NewSpace(m, p, c)) && ChildShape(m, NewSpace(m, p, c), p, c, 0)
  {
    NewSpaceOk(m, p, c);
  }

  lemma ChildShapeSkip(m: Mem, n: Mem, p: nat, c: nat, d: nat)
    requires Inv(m) && Inv(n) && p != c && ChildShape(m, n, p, c, d) && ForkShape(m, n, p, c, d) && !HasTable(n, p, d)
    ensures ChildShape(m, n, p, c, d + 1)
  {
    assert !HasTable(m, p, d);
  }

  lemma ChildShapeStep(m: Mem, n: Mem, n': Mem, p: nat, c: nat, d: nat, f: nat)
    requires Inv(m) && Inv(n) && Inv(n') && p != c && ChildShape(m, n, p, c, d) && ForkShape(m, n, p, c, d)
    requires HasTable(n, p, d) && ForkStructure(n, n', p, c, d, f)
    ensures ChildShape(m, n', p, c, d + 1)
  {
    hide Accounting, TablesUnshared, SharersAgree, EntriesOk;
    assert HasTable(m, p, d);
    forall e: nat, t: nat | Mapped(n', Pte(c, e, t)) ensures Mapped(m, Pte(p, e, t)) {
      if !Mapped(n, Pte(c, e, t)) {
        assert Mapped(n, Pte(p, e, t));
      }
    }
  }

  // -------------------------------------------- when the write fault gives up

  /** Exactly when a store to a private, writable-by-right page succeeds while a
      frame is free: at most two entries name its frame. */
  lemma StoreWorksIffTwoSharers(m: Mem, p: nat, a: nat, w: Word)
    requires Inv(m) && p < TASK_NR && Live(m, p) && UserAddress(a) && Mapped(m, PlaceOf(p, a))
    requires !EntryAt(m, PlaceOf(p, a)).shared && !EntryAt(m, PlaceOf(p, a)).readonly
    requires LowestFree(m).Some?
    ensures Store(m, p, a, w).Done? <==> |Refs(m, EntryAt(m, PlaceOf(p, a)).index)| <= 2
    ensures !Store(m, p, a, w).Done? ==> Store(m, p, a, w).Panic?
  {
    var l := PlaceOf(p, a);
    EntryIsOk(m, l);
    FrameLeftIff(m);
    StoreStopsIff(m, p, a, w);
  }

  /** A mapped private page of the parent after `fork`: both name its frame. */
  lemma ForkEntry(m: Mem, p: nat, c: nat, l: Place)
    requires Inv(m) && Live(m, p) && c < TASK_NR && !Live(m, c) && ForkUpTo(m, p, c, USER_DIRS).Some?
    requires Mapped(m, l) && l.p == p && !EntryAt(m, l).shared
    ensures var n := ForkUpTo(m, p, c, USER_DIRS).value;
            && Live(n, p) && Mapped(n, l) && Mapped(n, Pte(c, l.d, l.t))
            && EntryAt(n, l).index == EntryAt(n, Pte(c, l.d, l.t)).index == EntryAt(m, l).index
            && !EntryAt(n, l).shared && EntryAt(n, l).readonly == EntryAt(m, l).readonly && !EntryAt(n, l).write
    ensures var n := ForkUpTo(m, p, c, USER_DIRS).value;
            forall k: Place :: k.p != c && Mapped(m, k) ==> Mapped(n, k) && EntryAt(n, k).index == EntryAt(m, k).index
  {
    ForkUpToShape(m, p, c, USER_DIRS);
    assert Mapped(m, Pte(p, l.d, l.t));
  }

  /** A parent that forks twice and then stores stops the kernel: the page has
      three users while both children live. */
  lemma TwoForksThenStorePanics(m: Mem, p: nat, c1: nat, c2: nat, a: nat, w: Word)
    requires Inv(m) && p < TASK_NR && Live(m, p) && UserAddress(a) && Mapped(m, PlaceOf(p, a))
    requires !EntryAt(m, PlaceOf(p, a)).shared && !EntryAt(m, PlaceOf(p, a)).readonly
    requires c1 < TASK_NR && !Live(m, c1) && ForkUpTo(m, p, c1, USER_DIRS).Some?
    requires var m1 := ForkUpTo(m, p, c1, USER_DIRS).value;
             Live(m1, p) && c2 < TASK_NR && !Live(m1, c2) && ForkUpTo(m1, p, c2, USER_DIRS).Some?
    ensures var m2 := ForkUpTo(ForkUpTo(m, p, c1, USER_DIRS).value, p, c2, USER_DIRS).value;
            Live(m2, p) && Store(m2, p, a, w).Panic?
  {
    AddressParts(a);
    var l := PlaceOf(p, a);
    var f := EntryAt(m, l).index;
    ForkEntry(m, p, c1, l);
    var m1 := ForkUpTo(m, p, c1, USER_DIRS).value;
    ForkEntry(m1, p, c2, l);
    var m2 := ForkUpTo(m1, p, c2, USER_DIRS).value;
    assert EntryOk(m2, EntryAt(m2, l));
    ThreeNamesCountThree(m2, l, Pte(c1, l.d, l.t), Pte(c2, l.d, l.t), f);
    ThreeSharersStopTheStore(m2, p, a, w);
  }

  lemma ThreeNamesCountThree(m: Mem, l: Place, l1: Place, l2: Place, f: int)
    requires Shape(m) && UserFrame(m, f) && m.counts[f] == |Refs(m, f)| && l != l1 && l1 != l2 && l != l2
    requires InRange(l) && InRange(l1) && InRange(l2) && Names(m, l, f) && Names(m, l1, f) && Names(m, l2, f)
    ensures m.counts[f] >= 3
  {
    PlacesAreInRange(l);
    PlacesAreInRange(l1);
    PlacesAreInRange(l2);
    assert {l, l1, l2} <= Refs(m, f);
    SubsetCardinality({l, l1, l2}, Refs(m, f));
    assert |{l, l1, l2}| == 3;
  }

  lemma ThreeSharersStopTheStore(m: Mem, p: nat, a: nat, w: Word)
    requires Inv(m) && p < TASK_NR && Live(m, p) && UserAddress(a) && Mapped(m, PlaceOf(p, a))
    requires var e := EntryAt(m, PlaceOf(p, a)); !e.shared && !e.readonly && !e.write && e.index < |m.counts| && m.counts[e.index] >= 3
    ensures Store(m, p, a, w).Panic?
  {}

  /** A page mapped as shared memory and not for writing: a store to it meets the
      assertion on shared pages instead of killing its task. */
  lemma ReadonlySharedStorePanics(m: Mem, p: nat, a: nat, w: Word, priv: bool)
    requires Inv(m) && p < TASK_NR && Live(m, p) && UserAddress(a) && Legal(m, DoMmap(p, a, false, true, priv))
    requires Step(m, DoMmap(p, a, false, true, priv)).Done?
    ensures var m1 := Step(m, DoMmap(p, a, false, true, priv)).m;
            Inv(m1) && Live(m1, p) && Store(m1, p, a, w).Panic?
  {
    var m1 := Step(m, DoMmap(p, a, false, true, priv)).m;
    StepInv(m, DoMmap(p, a, false, true, priv));
    AddressParts(a);
    MmapEntry(m, PlaceOf(p, a), false, true, priv);
    hide Accounting, TablesUnshared, SharersAgree, EntriesOk, Step;
    StoreStopsIff(m1, p, a, w);
  }

  lemma MmapEntry(m: Mem, l: Place, writable: bool, share: bool, priv: bool)
    requires Inv(m) && InRange(l) && l.Pte? && Live(m, l.p) && MmapPage(m, l, writable, share, priv).Some?
    requires Inv(MmapPage(m, l, writable, share, priv).value)
    ensures var n := MmapPage(m, l, writable, share, priv).value;
            SameLive(m, n) && Mapped(n, l) && EntryAt(n, l).write == writable && (share ==> EntryAt(n, l).shared)
  {
    hide Accounting, TablesUnshared, SharersAgree, EntriesOk, LinkPage;
    LinkPageMaps(m, l);
    var m1 := LinkPage(m, l).value;
    assert HasTable(m1, l.p, l.d) && MmapPage(m, l, writable, share, priv).value.dirs == m1.dirs;
  }

  lemma StepInv(m: Mem, op: Op)
    requires Inv(m) && Legal(m, op)
    ensures match Step(m, op) case Panic => true case Done(m1, _) => Inv(m1) case Killed(m1) => Inv(m1)
  {
    var e := EagerView(m);
    var _ := StepSimulates(m, e, op);
  }

  /** Some eager machine shows what `m` shows. */
  lemma EagerView(m: Mem) returns (e: Eager)
    requires Inv(m)
    ensures Sim(m, e)
  {
    var spaces := seq(TASK_NR, q requires 0 <= q < TASK_NR =>
      if m.dirs[q].Some? then Some(SpaceOf(m, q)) else None);
    e := Eager(spaces, map f: nat | f < |m.frames| :: m.frames[f]);
    forall l: Place | l.Pte? ensures SimAt(m, e, l) {
      if Mapped(m, l) {
        assert EntryOk(m, EntryAt(m, l));
      }
    }
  }

  /** What task `q` sees, read off the page tables. */
  ghost function SpaceOf(m: Mem, q: nat): Space
    requires Inv(m)
  {
    map d: nat, t: nat | d < USER_DIRS && t < ENTRIES && Mapped(m, Pte(q, d, t)) ::
      VPage(d, t) := SlotAt(m, Pte(q, d, t))
  }

  ghost function SlotAt(m: Mem, l: Place): Slot
    requires Inv(m) && Mapped(m, l)
  {
    assert EntryOk(m, EntryAt(m, l));
    SlotOf(m, EntryAt(m, l))
  }

  // --------------------------------------------------- mmap over a used page

  /** `sys_mmap` keeps the invariant exactly when it is safe: mapped over a page
      still waiting to be copied, it would hand out a write permission (or the
      shared mark) that copy on write relies on withholding. */
  lemma MmapKeepsInvIffSafe(m: Mem, l: Place, writable: bool, share: bool, priv: bool)
    requires Inv(m) && InRange(l) && l.Pte? && Live(m, l.p) && MmapPage(m, l, writable, share, priv).Some?
    ensures Inv(MmapPage(m, l, writable, share, priv).value) <==> MmapSafe(m, l, writable, share)
  {
    LinkPageMaps(m, l);
    var m1 := LinkPage(m, l).value;
    var w := MmapWord(EntryAt(m1, l), writable, share, priv);
    var m' := MmapPage(m, l, writable, share, priv).value;
    assert EntryOk(m1, EntryAt(m1, l));
    TablesAreDistinct(m1);
    if MmapSafe(m, l, writable, share) {
      MmapSafeAfterLink(m, l, writable, share);
      SetFlagsKeepsInv(m1, l, w);
    } else {
      EnsureTableOk(m, l.p, l.d);
      SetEntryTouchesOnly(m, m', l, w, w.index, m.frames[w.index]);
      var k := OtherSharer(m, l);
      assert Mapped(m', k) && EntryAt(m', k) == EntryAt(m, k) && Mapped(m', l);
    }
  }

  /** A store through `j` that the page tables let pass changes what a private page at `k` shows. */
  ghost predicate StoreShows(m: Mem, j: Place, k: Place, i: nat, w: Word)
    requires Shape(m)
  {
    && j != k && i < ENTRIES && Accessible(m, j, true) && Mapped(m, k) && !EntryAt(m, k).shared
    && EntryAt(m, j).index < |m.frames| && EntryAt(m, k).index < |m.frames|
    && WriteWord(m, EntryAt(m, j).index, i, w).frames[EntryAt(m, k).index][i] != m.frames[EntryAt(m, k).index][i]
  }

  /** An unsafe mapping can be seen by some store exactly when it asks for write permission.
      Without, the page is only marked shared, and no store to its frame passes. */
  lemma UnsafeMmapShowsIff(m: Mem, l: Place, writable: bool, share: bool, priv: bool)
    requires Inv(m) && InRange(l) && l.Pte? && Live(m, l.p) && MmapPage(m, l, writable, share, priv).Some?
    requires !MmapSafe(m, l, writable, share)
    ensures Shape(MmapPage(m, l, writable, share, priv).value)
    ensures (exists j, k, i, w :: StoreShows(MmapPage(m, l, writable, share, priv).value, j, k, i, w)) <==> writable
  {
    hide Accounting, SharersAgree, EntriesOk, TablesUnshared, StoreShows;
    var m' := MmapPage(m, l, writable, share, priv).value;
    UnsafeMmapped(m, l, writable, share, priv);
    if writable {
      var k, w := WritableShows(m, m', l);
    } else {
      forall j, k, i, w ensures !StoreShows(m', j, k, i, w) {
        UnwritableHides(m, m', l, j, k, i, w);
      }
    }
  }

  lemma UnsafeMmapped(m: Mem, l: Place, writable: bool, share: bool, priv: bool)
    requires Inv(m) && InRange(l) && l.Pte? && Live(m, l.p) && MmapPage(m, l, writable, share, priv).Some?
    requires !MmapSafe(m, l, writable, share)
    ensures Mapped(m, l) && !EntryAt(m, l).shared && UserFrame(m, EntryAt(m, l).index) && m.counts[EntryAt(m, l).index] != 1
    ensures var m' := MmapPage(m, l, writable, share, priv).value; var w := MmapWord(EntryAt(m, l), writable, share, priv);
            && SameExceptAt(m, m', l) && Mapped(m', l) && EntryAt(m', l) == w && m'.counts == m.counts
  {
    EnsureTableOk(m, l.p, l.d);
    EntryIsOk(m, l);
    TablesAreDistinct(m);
    hide Accounting, SharersAgree, EntriesOk, TablesUnshared;
    var e := EntryAt(m, l);
    SetEntryTouchesOnly(m, MmapPage(m, l, writable, share, priv).value, l, MmapWord(e, writable, share, priv), e.index, m.frames[e.index]);
  }

  lemma WritableShows(m: Mem, m': Mem, l: Place) returns (k: Place, w: Word)
    requires Inv(m) && Mapped(m, l) && !EntryAt(m, l).shared && UserFrame(m, EntryAt(m, l).index) && m.counts[EntryAt(m, l).index] != 1
    requires SameExceptAt(m, m', l) && Accessible(m', l, true) && EntryAt(m', l).index == EntryAt(m, l).index
    ensures StoreShows(m', l, k, 0, w)
  {
    hide Inv, StoreShows;
    InvShape(m);
    k := OtherSharer(m, l);
    w := Changed(m'.frames[EntryAt(m, l).index][0]);
    SharedWriteShows(m', l, k, w);
  }

  function Changed(v: Word): (w: Word)
    ensures w != v
  {
    v.(present := !v.present)
  }

  lemma SharedWriteShows(m: Mem, j: Place, k: Place, w: Word)
    requires Shape(m) && j != k && Accessible(m, j, true) && Mapped(m, k) && !EntryAt(m, k).shared
    requires EntryAt(m, j).index == EntryAt(m, k).index < |m.frames| && w != m.frames[EntryAt(m, k).index][0]
    ensures StoreShows(m, j, k, 0, w)
  {
    assert WriteWord(m, EntryAt(m, j).index, 0, w).frames[EntryAt(m, k).index][0] == w;
  }

  lemma UnwritableHides(m: Mem, m': Mem, l: Place, j: Place, k: Place, i: nat, w: Word)
    requires Inv(m) && Mapped(m, l) && !EntryAt(m, l).shared && SameExceptAt(m, m', l)
    requires Mapped(m', l) && !EntryAt(m', l).write && EntryAt(m', l).index == EntryAt(m, l).index
    ensures !StoreShows(m', j, k, i, w)
  {
    hide Accounting, SharersAgree, EntriesOk, TablesUnshared;
    if StoreShows(m', j, k, i, w) {
      NoneWritable(m, l, j, k);
    }
  }

  /** Two entries that name a private page do not let writes pass. */
  lemma NoneWritable(m: Mem, l: Place, j: Place, k: Place)
    requires Inv(m) && Mapped(m, l) && Mapped(m, j) && Mapped(m, k) && j != k && EntryAt(m, j).index == EntryAt(m, k).index
    requires !EntryAt(m, k).shared
    ensures !EntryAt(m, j).write
  {
    EntryIsOk(m, j);
    if EntryAt(m, j).write {
      TwoNamesCountTwo(m, j, k, EntryAt(m, j).index);
    }
  }
}
