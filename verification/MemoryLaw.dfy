/** What user code sees, in addresses and words alone: which page an address is on, what a
    load finds after a store, and what every other operation leaves as it was. */
module MemoryLaw {
  import opened Basics
  import opened Paging
  import opened CopyOnWrite
  import opened EagerCopy
  import opened VmRuns

  /** Two addresses are on one page exactly when they differ in the last twelve bits at most, and
      in one word exactly when they differ in the last two. */
  lemma SamePageIff(p: nat, a: nat, b: nat)
    ensures PlaceOf(p, a) == PlaceOf(p, b) <==> a / 4096 == b / 4096
    ensures a / 4 == b / 4 <==> PlaceOf(p, a) == PlaceOf(p, b) && WordOf(a) == WordOf(b)
    ensures a / 4096 == b / 4096 ==> (UserAddress(a) <==> UserAddress(b))
  {
    assert a / 0x40_0000 == a / 4096 / 1024 && b / 0x40_0000 == b / 4096 / 1024;
    assert a / 4 == 1024 * (a / 4096) + WordOf(a) && b / 4 == 1024 * (b / 4096) + WordOf(b);
  }

  /** A word of a page of one's own, or of a piece of shared memory, or no page at all. */
  datatype Sight = Nothing | Own(word: Word) | Common(word: Word, id: nat)

  /** What task `q` has at address `b`. */
  ghost function Seen(m: Mem, q: nat, b: nat): Sight
    requires Inv(m)
  {
    var l := PlaceOf(q, b);
    if !UserAddress(b) || !Mapped(m, l) || EntryAt(m, l).index >= |m.frames| then Nothing
    else if EntryAt(m, l).shared then Common(m.frames[EntryAt(m, l).index][WordOf(b)], EntryAt(m, l).index)
    else Own(m.frames[EntryAt(m, l).index][WordOf(b)])
  }

  ghost function ESeen(e: Eager, q: nat, b: nat): Sight
    requires EValid(e)
  {
    var l := PlaceOf(q, b);
    if !UserAddress(b) || !EMapped(e, l) then Nothing
    else match ESlot(e, l)
      case Private(page, _) => Own(page[WordOf(b)])
      case Shared(id, _) => Common(e.objects[id][WordOf(b)], id)
  }

  lemma SimSeen(m: Mem, e: Eager, q: nat, b: nat)
    requires Inv(m) && Sim(m, e) && EValid(e)
    ensures Seen(m, q, b) == ESeen(e, q, b)
  {
    assert SimAt(m, e, PlaceOf(q, b));
    if Mapped(m, PlaceOf(q, b)) {
      EntryIsOk(m, PlaceOf(q, b));
    }
  }

  /** Task `q` and the caller have address `b`, and the caller's `at`, in one piece of memory. */
  predicate Joint(at: Sight, before: Sight) { at.Common? && before.Common? && at.id == before.id }

  /** What operation `op` makes of the `before` that task `q` has at address `b`. The caller has
      `at` at the address of the operation, or at `b` where the operation has none, and `shown`
      is what a load delivers. */
  predicate Law(op: Op, q: nat, b: nat, at: Sight, before: Sight, after: Sight, shown: Option<Word>) {
    match op
    case DoFork(p, c) => after == if q == c then at else before
    case DoLoad(p, a) =>
      && (if before.Nothing? && p == q && a / 4096 == b / 4096 && UserAddress(b) then after.Own? else after == before)
      && (p == q && a / 4 == b / 4 ==> !after.Nothing? && shown == Some(after.word))
    case DoStore(p, a, w) =>
      if before.Nothing? then
        if p == q && a / 4096 == b / 4096 && UserAddress(b) then after.Own? && (a / 4 == b / 4 ==> after.word == w)
        else after.Nothing?
      else after == if a / 4 == b / 4 && (p == q || Joint(at, before)) then before.(word := w) else before
    case DoLink(p, a) =>
      if before.Nothing? && p == q && a / 4096 == b / 4096 && UserAddress(b) then after.Own? else after == before
    case DoUnlink(p, a) => after == if p == q && a / 4096 == b / 4096 then Nothing else before
    case DoMmap(p, a, _, share, _) =>
      if p == q && a / 4096 == b / 4096 && UserAddress(b) && !before.Common? then
        (if share then after.Common? else after.Own?) && (before.Own? ==> after.word == before.word)
      else after == before
    case DoExit(_) => false
  }

  function Address(op: Op, b: nat): nat { if op.DoFork? || op.DoExit? then b else op.a }

  /** Shared memory stands at the same page in every address space that has it. */
  lemma JointIsOnePage(m: Mem, p: nat, a: nat, q: nat, b: nat)
    requires Inv(m) && Joint(Seen(m, p, a), Seen(m, q, b))
    ensures a / 4096 == b / 4096
  {
    assert PlaceOf(q, a) == PlaceOf(q, b);
    SamePageIff(q, a, b);
  }

  lemma ObjectIsThere(e: Eager, l: Place)
    requires EValid(e)
    ensures |e.spaces| == TASK_NR
    ensures EMapped(e, l) && ESlot(e, l).Shared? ==> ESlot(e, l).id in e.objects
  {}

  lemma EagerStore(e: Eager, p: nat, a: nat, w: Word, o: Choice, q: nat, b: nat)
    requires EValid(e) && ELegal(e, DoStore(p, a, w)) && EStep(e, DoStore(p, a, w), o).EDone? && EValid(EStep(e, DoStore(p, a, w), o).e)
    requires Joint(ESeen(e, p, a), ESeen(e, q, b)) ==> a / 4096 == b / 4096
    ensures Law(DoStore(p, a, w), q, b, ESeen(e, p, a), ESeen(e, q, b), ESeen(EStep(e, DoStore(p, a, w), o).e, q, b), None)
  {
    hide EValid, WordOf, DirOf, EntryOf, UserAddress, OnStack;
    SamePageIff(q, a, b);
    AddressParts(a);
    AddressParts(b);
    var l, k := PlaceOf(p, a), PlaceOf(q, b);
    var e2 := EStep(e, DoStore(p, a, w), o).e;
    ObjectIsThere(e, l);
    ObjectIsThere(e, k);
    assert l == k <==> p == q && a / 4096 == b / 4096;
    assert k != l ==> EMapped(e2, k) == EMapped(e, k) && (EMapped(e, k) ==> ESlot(e2, k) == ESlot(e, k));
  }

  /** The law on the eager machine, where each operation is one change of one map. */
  lemma EagerLaw(e: Eager, op: Op, o: Choice, q: nat, b: nat)
    requires EValid(e) && ELegal(e, op) && Allowed(e, op, o) && EStep(e, op, o).EDone? && EValid(EStep(e, op, o).e)
    requires Joint(ESeen(e, op.p, Address(op, b)), ESeen(e, q, b)) ==> Address(op, b) / 4096 == b / 4096
    ensures Law(op, q, b, ESeen(e, op.p, Address(op, b)), ESeen(e, q, b), ESeen(EStep(e, op, o).e, q, b), EStep(e, op, o).seen)
  {
    hide EValid, WordOf, DirOf, EntryOf, UserAddress, OnStack;
    var a := Address(op, b);
    SamePageIff(q, a, b);
    AddressParts(a);
    AddressParts(b);
    ObjectIsThere(e, PlaceOf(op.p, a));
    ObjectIsThere(e, PlaceOf(q, b));
    if op.DoStore? {
      EagerStore(e, op.p, op.a, op.w, o, q, b);
    }
    assert PlaceOf(op.p, a) == PlaceOf(q, b) <==> op.p == q && a / 4096 == b / 4096;
  }

  lemma EagerKill(e: Eager, op: Op, o: Choice, q: nat, b: nat)
    requires EValid(e) && ELegal(e, op) && Allowed(e, op, o) && EStep(e, op, o).EKilled? && EValid(EStep(e, op, o).e)
    ensures ESeen(EStep(e, op, o).e, q, b) == if q == op.p then Nothing else ESeen(e, q, b)
  {
    hide EValid;
  }

  /** The law of every operation that the kernel gets through, on every word of every task. */
  lemma StepLaw(m: Mem, op: Op, q: nat, b: nat)
    requires Inv(m) && Legal(m, op)
    ensures Step(m, op).Done? ==>
              var m1 := Step(m, op).m;
              Inv(m1) && Law(op, q, b, Seen(m, op.p, Address(op, b)), Seen(m, q, b), Seen(m1, q, b), Step(m, op).seen)
    ensures Step(m, op).Killed? ==>
              var m1 := Step(m, op).m;
              Inv(m1) && Seen(m1, q, b) == if q == op.p then Nothing else Seen(m, q, b)
  {
    hide Inv, Sim, Step, Law, Seen, ESeen, EStep, EValid, ELegal, Allowed, Legal;
    if !Step(m, op).Panic? {
      var e := EagerView(m);
      var o := StepSimulates(m, e, op);
      var m1, e1 := Step(m, op).m, EStep(e, op, o).e;
      SimIsValid(m1, e1);
      SimSeen(m, e, q, b);
      SimSeen(m, e, op.p, Address(op, b));
      SimSeen(m1, e1, q, b);
      if Step(m, op).Done? {
        if Joint(Seen(m, op.p, Address(op, b)), Seen(m, q, b)) {
          JointIsOnePage(m, op.p, Address(op, b), q, b);
        }
        EagerLaw(e, op, o, q, b);
      } else {
        EagerKill(e, op, o, q, b);
      }
    }
  }

  // ------------------------------------------------------------------ runs

  /** `op` is not a store of `p` to the word at `b`, and does not take the page away from it or
      make it shared. */
  predicate Leaves(op: Op, p: nat, b: nat) {
    op.p == p ==>
      match op
      case DoStore(_, a, _) => a / 4 != b / 4
      case DoUnlink(_, a) => a / 4096 != b / 4096
      case DoMmap(_, a, _, share, _) => share ==> a / 4096 != b / 4096
      case DoExit(_) => false
      case _ => true
  }

  /** From `m`, the kernel gets through `ops` without killing `p`, and ends in `last`. */
  ghost predicate Goes(m: Mem, ops: seq<Op>, last: Mem, p: nat)
    decreases |ops|
  {
    if ops == [] then last == m
    else
      Inv(m) && Legal(m, ops[0]) &&
      match Step(m, ops[0])
      case Panic => false
      case Done(m1, _) => Goes(m1, ops[1..], last, p)
      case Killed(m1) => ops[0].p != p && Goes(m1, ops[1..], last, p)
  }

  lemma SeenIsLive(m: Mem, p: nat, b: nat)
    requires Inv(m) && !Seen(m, p, b).Nothing?
    ensures p < TASK_NR && Live(m, p)
  {}

  /** A load of a mapped word changes nothing and delivers it. */
  lemma LoadSees(m: Mem, p: nat, b: nat)
    requires Inv(m) && !Seen(m, p, b).Nothing?
    ensures p < TASK_NR && Live(m, p) && Load(m, p, b) == Done(m, Some(Seen(m, p, b).word))
  {
    EntryIsOk(m, PlaceOf(p, b));
  }

  lemma OwnWordStep(m: Mem, op: Op, p: nat, b: nat)
    requires Inv(m) && Legal(m, op) && Seen(m, p, b).Own? && Leaves(op, p, b) && !Step(m, op).Panic?
    requires Step(m, op).Killed? ==> op.p != p
    ensures Inv(Step(m, op).m) && Seen(Step(m, op).m, p, b) == Seen(m, p, b)
  {
    hide Inv, Seen, Step, UserAddress;
    SeenIsLive(m, p, b);
    StepLaw(m, op, p, b);
  }

  /** A word of one's own stays as it is over any run of the others' operations and one's own
      elsewhere. */
  lemma {:induction false} OwnWordStays(m: Mem, ops: seq<Op>, last: Mem, p: nat, b: nat)
    requires Inv(m) && Seen(m, p, b).Own? && Goes(m, ops, last, p) && forall k :: 0 <= k < |ops| ==> Leaves(ops[k], p, b)
    ensures Inv(last) && Seen(last, p, b) == Seen(m, p, b)
    decreases |ops|
  {
    hide Inv, Seen, Step, Legal, Leaves;
    if ops != [] {
      OwnWordStep(m, ops[0], p, b);
      OwnWordStays(Step(m, ops[0]).m, ops[1..], last, p, b);
    }
  }

  /** A store that goes through is seen at every byte of its word. */
  lemma StoredIsSeen(m: Mem, p: nat, a: nat, w: Word, b: nat)
    requires Inv(m) && Legal(m, DoStore(p, a, w)) && Store(m, p, a, w).Done? && !Seen(m, p, a).Common? && a / 4 == b / 4
    ensures Inv(Store(m, p, a, w).m) && Seen(Store(m, p, a, w).m, p, b) == Own(w)
  {
    hide Inv, Seen, PageFault, Accessible;
    SamePageIff(p, a, b);
    SeenOnePage(m, p, a, b);
    StepLaw(m, DoStore(p, a, w), p, b);
    StoreIsUser(m, p, a, w);
  }

  lemma StoreIsUser(m: Mem, p: nat, a: nat, w: Word)
    requires Inv(m) && p < TASK_NR && Live(m, p) && Store(m, p, a, w).Done?
    ensures UserAddress(a)
  {}

  /** What a task has stored in a page of its own is what it loads there, however its own other
      stores, forks, faults and copies and all that other tasks do come in between. */
  lemma LastStoreIsLoaded(m: Mem, p: nat, a: nat, w: Word, ops: seq<Op>, last: Mem, b: nat)
    requires Inv(m) && Legal(m, DoStore(p, a, w)) && Store(m, p, a, w).Done? && !Seen(m, p, a).Common? && a / 4 == b / 4
    requires Goes(Store(m, p, a, w).m, ops, last, p)
    requires forall k :: 0 <= k < |ops| ==> Leaves(ops[k], p, b)
    ensures Inv(last) && p < TASK_NR && Live(last, p) && Load(last, p, b) == Done(last, Some(w))
  {
    hide Inv, Seen, Store, Load, Leaves, Live, Goes;
    StoredIsSeen(m, p, a, w, b);
    OwnWordStays(Store(m, p, a, w).m, ops, last, p, b);
    LoadSees(last, p, b);
  }

  lemma SeenOnePage(m: Mem, p: nat, a: nat, b: nat)
    requires Inv(m) && a / 4 == b / 4
    ensures Seen(m, p, a) == Seen(m, p, b)
  {
    SamePageIff(p, a, b);
  }
}
