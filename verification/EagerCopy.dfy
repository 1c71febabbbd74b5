/** The machine in which `fork` copies every private page at once, and the proof
    that user code cannot tell the kernel from it. */
module EagerCopy {
  import opened Basics
  import opened Paging
  import opened Fork
  import opened CopyOnWrite

  datatype VPage = VPage(d: nat, t: nat)
  datatype Slot = Private(page: Page, readonly: bool) | Shared(id: nat, writable: bool)
  type Space = map<VPage, Slot>

  /** Each task owns its private pages outright; shared pages are objects. */
  datatype Eager = Eager(spaces: seq<Option<Space>>, objects: map<nat, Page>)

  datatype Op =
    | DoFork(p: nat, c: nat)
    | DoLoad(p: nat, a: nat)
    | DoStore(p: nat, a: nat, w: Word)
    | DoLink(p: nat, a: nat)
    | DoUnlink(p: nat, a: nat)
    | DoMmap(p: nat, a: nat, writable: bool, share: bool, priv: bool)
    | DoExit(p: nat)

  /** What the eager machine cannot know: the words a new page starts with and
      the name of a new shared object. */
  datatype Choice = Choice(page: Page, id: nat)

  datatype EOutcome = EDone(e: Eager, seen: Option<Word>) | EKilled(e: Eager) | EPanic

  predicate ELive(e: Eager, p: nat) { p < |e.spaces| && e.spaces[p].Some? }

  predicate EMapped(e: Eager, l: Place) {
    l.Pte? && ELive(e, l.p) && VPage(l.d, l.t) in e.spaces[l.p].value
  }

  function ESlot(e: Eager, l: Place): Slot
    requires EMapped(e, l)
  {
    e.spaces[l.p].value[VPage(l.d, l.t)]
  }

  function ESet(e: Eager, l: Place, s: Slot): Eager
    requires l.Pte? && ELive(e, l.p)
  {
    e.(spaces := e.spaces[l.p := Some(e.spaces[l.p].value[VPage(l.d, l.t) := s])])
  }

  function EErase(e: Eager, l: Place): Eager
    requires l.Pte? && ELive(e, l.p)
  {
    e.(spaces := e.spaces[l.p := Some(e.spaces[l.p].value - {VPage(l.d, l.t)})])
  }

  function EKill(e: Eager, p: nat): EOutcome
    requires ELive(e, p)
  {
    if p < 2 then EPanic else EKilled(e.(spaces := e.spaces[p := None]))
  }

  function ELink(e: Eager, l: Place, o: Choice): Eager
    requires l.Pte? && ELive(e, l.p)
  {
    if EMapped(e, l) then e else ESet(e, l, Private(o.page, false))
  }

  function EWrite(e: Eager, l: Place, i: nat, w: Word): EOutcome
    requires EMapped(e, l) && i < ENTRIES && (ESlot(e, l).Shared? ==> ESlot(e, l).id in e.objects)
  {
    match ESlot(e, l)
    case Private(pg, ro) => if ro then EKill(e, l.p) else EDone(ESet(e, l, Private(pg[i := w], false)), None)
    case Shared(id, writable) =>
      if writable then EDone(e.(objects := e.objects[id := e.objects[id][i := w]]), None) else EKill(e, l.p)
  }

  function EMmap(e: Eager, l: Place, writable: bool, share: bool, o: Choice): Eager
    requires EMapped(e, l)
  {
    match ESlot(e, l)
    case Private(pg, _) =>
      if share then ESet(e, l, Shared(o.id, writable)).(objects := e.objects[o.id := pg])
      else ESet(e, l, Private(pg, !writable))
    case Shared(id, _) => ESet(e, l, Shared(id, writable))
  }

  /** Reads of shared objects are defined in every machine state below. */
  ghost predicate EValid(e: Eager) {
    && |e.spaces| == TASK_NR
    && forall l :: EMapped(e, l) && ESlot(e, l).Shared? ==> ESlot(e, l).id in e.objects
  }

  ghost predicate ELegal(e: Eager, op: Op) {
    && ELive(e, op.p)
    && (op.DoFork? ==> op.c < TASK_NR && !ELive(e, op.c))
    && (op.DoLink? || op.DoUnlink? || op.DoMmap? ==> UserAddress(op.a))
  }

  /** No task maps a shared object of that name. */
  ghost predicate FreshId(e: Eager, id: nat) {
    forall l :: EMapped(e, l) && ESlot(e, l).Shared? ==> ESlot(e, l).id != id
  }

  /** A page that becomes shared becomes an object of its own. */
  ghost predicate Allowed(e: Eager, op: Op, o: Choice)
    requires ELegal(e, op)
  {
    op.DoMmap? && op.share && !(EMapped(e, PlaceOf(op.p, op.a)) && ESlot(e, PlaceOf(op.p, op.a)).Shared?) ==> FreshId(e, o.id)
  }

  ghost function EStep(e: Eager, op: Op, o: Choice): EOutcome
    requires EValid(e) && ELegal(e, op) && Allowed(e, op, o)
  {
    match op
    case DoFork(p, c) => EDone(e.(spaces := e.spaces[c := e.spaces[p]]), None)
    case DoLoad(p, a) =>
      var l := PlaceOf(p, a);
      if !UserAddress(a) || (!EMapped(e, l) && !OnStack(a)) then EKill(e, p)
      else
        var e1 := ELink(e, l, o);
        EDone(e1, Some((if ESlot(e1, l).Private? then ESlot(e1, l).page else e.objects[ESlot(e1, l).id])[WordOf(a)]))
    case DoStore(p, a, w) =>
      var l := PlaceOf(p, a);
      if !UserAddress(a) || (!EMapped(e, l) && !OnStack(a)) then EKill(e, p)
      else EWrite(ELink(e, l, o), l, WordOf(a), w)
    case DoLink(p, a) => EDone(ELink(e, PlaceOf(p, a), o), None)
    case DoUnlink(p, a) =>
      var l := PlaceOf(p, a);
      EDone(EErase(e, l), None)
    case DoMmap(p, a, writable, share, priv) =>
      var l := PlaceOf(p, a);
      EDone(EMmap(ELink(e, l, o), l, writable, share, o), None)
    case DoExit(p) => EKill(e, p)
  }

  // -------------------------------------------------------- the simulation

  ghost function SlotOf(m: Mem, w: Word): Slot
    requires w.index < |m.frames|
  {
    if w.shared then Shared(w.index, w.write) else Private(m.frames[w.index], w.readonly)
  }

  /** Task `l.p` sees at `l` in `m` what it sees there in `e`. */
  ghost predicate SimAt(m: Mem, e: Eager, l: Place)
    requires Inv(m)
  {
    && Mapped(m, l) == EMapped(e, l)
    && (Mapped(m, l) ==>
        var w := EntryAt(m, l);
        && ESlot(e, l) == SlotOf(m, w)
        && (w.shared ==> w.index in e.objects && e.objects[w.index] == m.frames[w.index]))
  }

  ghost predicate Sim(m: Mem, e: Eager)
    requires Inv(m)
  {
    && |e.spaces| == TASK_NR
    && (forall p: nat :: Live(m, p) == ELive(e, p))
    && (forall l: Place :: l.Pte? ==> SimAt(m, e, l))
  }

  lemma SimIsValid(m: Mem, e: Eager)
    requires Inv(m) && Sim(m, e)
    ensures EValid(e)
  {
    forall l | EMapped(e, l) && ESlot(e, l).Shared?
      ensures ESlot(e, l).id in e.objects
    {
      assert SimAt(m, e, l);
    }
  }

  /** Where a place keeps its entry and its page, and the object its entry names
      stays the same, the view of that place stays the same. */
  lemma SimAtKept(m: Mem, m': Mem, e: Eager, e': Eager, l: Place)
    requires Inv(m) && Inv(m') && l.Pte? && SimAt(m, e, l)
    requires Mapped(m', l) == Mapped(m, l) && EMapped(e', l) == EMapped(e, l)
    requires Mapped(m, l) ==> EntryAt(m', l) == EntryAt(m, l) && m'.frames[EntryAt(m, l).index] == m.frames[EntryAt(m, l).index]
    requires EMapped(e, l) ==> ESlot(e', l) == ESlot(e, l)
    requires Mapped(m, l) && EntryAt(m, l).shared ==>
               EntryAt(m, l).index in e'.objects && e'.objects[EntryAt(m, l).index] == e.objects[EntryAt(m, l).index]
    ensures SimAt(m', e', l)
  {
    assert Mapped(m, l) ==> EntryOk(m, EntryAt(m, l));
    assert Mapped(m', l) ==> EntryOk(m', EntryAt(m', l));
  }

  /** Everything but `l` kept: only `l` needs a look. */
  lemma SimExcept(m: Mem, m': Mem, e: Eager, e': Eager, l: Place)
    requires Inv(m) && Inv(m') && Sim(m, e) && l.Pte? && SameLive(m, m') && SameExceptEntries(m, m', l)
    requires |e'.spaces| == |e.spaces| && forall p: nat :: ELive(e', p) == ELive(e, p)
    requires forall k :: k != l ==> EMapped(e', k) == EMapped(e, k)
    requires forall k :: k != l && EMapped(e, k) ==> ESlot(e', k) == ESlot(e, k)
    requires forall k :: k != l && Mapped(m, k) && EntryAt(m, k).index < |m.frames|
                         ==> m'.frames[EntryAt(m, k).index] == m.frames[EntryAt(m, k).index]
    requires forall k :: k != l && Mapped(m, k) && EntryAt(m, k).shared && EntryAt(m, k).index in e.objects
                         ==> EntryAt(m, k).index in e'.objects && e'.objects[EntryAt(m, k).index] == e.objects[EntryAt(m, k).index]
    requires SimAt(m', e', l)
    ensures Sim(m', e')
  {
    forall k: Place | k.Pte?
      ensures SimAt(m', e', k)
    {
      if k != l {
        assert SimAt(m, e, k);
        assert Mapped(m, k) ==> EntryOk(m, EntryAt(m, k));
        SimAtKept(m, m', e, e', k);
      }
    }
  }

  // ------------------------------------------------- one lemma per operation

  lemma LinkSimulates(m: Mem, e: Eager, l: Place, o: Choice)
    requires Inv(m) && Sim(m, e) && InRange(l) && l.Pte? && Live(m, l.p)
    requires LinkPage(m, l).Some?
    requires (LinkPageMaps(m, l); EntryOk(LinkPage(m, l).value, EntryAt(LinkPage(m, l).value, l)) &&
              o.page == LinkPage(m, l).value.frames[EntryAt(LinkPage(m, l).value, l).index])
    ensures Inv(LinkPage(m, l).value) && Sim(LinkPage(m, l).value, ELink(e, l, o))
  {
    hide Accounting, EntriesOk, SharersAgree, TablesUnshared, LinkPage;
    LinkPageMaps(m, l);
    var m1 := LinkPage(m, l).value;
    var e1 := ELink(e, l, o);
    assert SimAt(m, e, l);
    EntryIsOk(m1, l);
    if Mapped(m, l) {
      EntryIsOk(m, l);
      SimAtKept(m, m1, e, e1, l);
    }
    SimExcept(m, m1, e, e1, l);
  }

  lemma UnlinkKeepsPages(m: Mem, l: Place)
    requires Inv(m) && InRange(l) && l.Pte? && Live(m, l.p)
    requires UnlinkPage(m, l).Some?
    ensures var m1 := UnlinkPage(m, l).value;
            Inv(m1) && SameLive(m, m1) && SameExceptEntries(m, m1, l) && SamePages(m, m1) && !Mapped(m1, l)
  {
    EnsureTableOk(m, l.p, l.d);
    var m0 := EnsureTable(m, l.p, l.d).value;
    if Mapped(m0, l) {
      RemovePageKeepsOthers(m0, l);
    }
  }

  lemma EraseEffect(e: Eager, l: Place)
    requires l.Pte? && ELive(e, l.p)
    ensures var e1 := EErase(e, l);
            && |e1.spaces| == |e.spaces| && (forall p: nat :: ELive(e1, p) == ELive(e, p)) && !EMapped(e1, l)
            && (forall k :: k != l ==> EMapped(e1, k) == EMapped(e, k))
            && (forall k :: k != l && EMapped(e, k) ==> ESlot(e1, k) == ESlot(e, k))
  {}

  lemma UnlinkSimulates(m: Mem, e: Eager, l: Place)
    requires Inv(m) && Sim(m, e) && InRange(l) && l.Pte? && Live(m, l.p)
    requires UnlinkPage(m, l).Some?
    ensures Inv(UnlinkPage(m, l).value)
    ensures Sim(UnlinkPage(m, l).value, EErase(e, l))
  {
    UnlinkKeepsPages(m, l);
    EraseEffect(e, l);
    SimExcept(m, UnlinkPage(m, l).value, e, EErase(e, l), l);
  }

  /** Writing one word of a private page that has no other user. */
  lemma WritePrivateSimulates(m: Mem, e: Eager, l: Place, i: nat, w: Word)
    requires Inv(m) && Sim(m, e) && Mapped(m, l) && i < ENTRIES
    requires EntryAt(m, l).index < |m.frames| && !EntryAt(m, l).shared
    requires UserFrame(m, EntryAt(m, l).index) && m.counts[EntryAt(m, l).index] == 1
    requires Inv(WriteWord(m, EntryAt(m, l).index, i, w))
    ensures Sim(WriteWord(m, EntryAt(m, l).index, i, w),
                ESet(e, l, Private(m.frames[EntryAt(m, l).index][i := w], EntryAt(m, l).readonly)))
  {
    hide SharersAgree;
    var f := EntryAt(m, l).index;
    var m' := WriteWord(m, f, i, w);
    WriteFrameStructure(m, l, m.frames[f][i := w]);
    assert SimAt(m, e, l);
    EntryIsOk(m, l);
    forall k | k != l && Mapped(m, k) ensures EntryAt(m, k).index != f {
      if EntryAt(m, k).index == f {
        TwoNamesCountTwo(m, l, k, f);
      }
    }
    SimExcept(m, m', e, ESet(e, l, Private(m.frames[f][i := w], EntryAt(m, l).readonly)), l);
  }

  /** A changed object is changed for everyone who maps it, and for nobody else. */
  lemma SharedFrameSeenAt(m: Mem, m': Mem, e: Eager, e': Eager, f: nat, pg: Page, k: Place)
    requires Inv(m) && Inv(m') && k.Pte? && SimAt(m, e, k) && f < |m.frames|
    requires SameEntries(m, m') && m'.frames == m.frames[f := pg]
    requires e' == e.(objects := e.objects[f := pg])
    requires Mapped(m, k) && EntryAt(m, k).index == f ==> EntryAt(m, k).shared
    ensures SimAt(m', e', k)
  {
    assert EMapped(e', k) == EMapped(e, k);
    if Mapped(m, k) {
      assert EntryOk(m, EntryAt(m, k));
      assert EntryAt(m', k) == EntryAt(m, k);
    }
  }

  lemma SharedFrameSimulates(m: Mem, m': Mem, e: Eager, f: nat, pg: Page)
    requires Inv(m) && Inv(m') && Sim(m, e) && f < |m.frames|
    requires SameEntries(m, m') && m'.frames == m.frames[f := pg] && m'.dirs == m.dirs
    requires forall k :: Mapped(m, k) && EntryAt(m, k).index == f ==> EntryAt(m, k).shared
    ensures Sim(m', e.(objects := e.objects[f := pg]))
  {
    var e' := e.(objects := e.objects[f := pg]);
    forall k: Place | k.Pte? ensures SimAt(m', e', k) {
      assert SimAt(m, e, k);
      SharedFrameSeenAt(m, m', e, e', f, pg, k);
    }
    forall p: nat ensures Live(m', p) == ELive(e', p) {
      assert Live(m, p) == ELive(e, p);
    }
  }

  /** Writing one word of a shared page: every entry naming it is a shared one. */
  lemma WriteSharedSimulates(m: Mem, e: Eager, l: Place, i: nat, w: Word)
    requires Inv(m) && Sim(m, e) && Mapped(m, l) && i < ENTRIES
    requires EntryAt(m, l).index < |m.frames| && EntryAt(m, l).shared
    requires Inv(WriteWord(m, EntryAt(m, l).index, i, w))
    ensures EntryAt(m, l).index in e.objects
    ensures Sim(WriteWord(m, EntryAt(m, l).index, i, w),
                e.(objects := e.objects[EntryAt(m, l).index := e.objects[EntryAt(m, l).index][i := w]]))
  {
    var f := EntryAt(m, l).index;
    assert SimAt(m, e, l);
    WriteFrameStructure(m, l, m.frames[f][i := w]);
    SharedFrameSimulates(m, WriteWord(m, f, i, w), e, f, m.frames[f][i := w]);
  }

  /** Writing one word through a writable entry. */
  lemma WriteSimulates(m: Mem, e: Eager, l: Place, i: nat, w: Word)
    requires Inv(m) && Sim(m, e) && Mapped(m, l) && EntryAt(m, l).write && i < ENTRIES
    requires EntryAt(m, l).index < |m.frames|
    ensures Inv(WriteWord(m, EntryAt(m, l).index, i, w))
    ensures EMapped(e, l) && (ESlot(e, l).Shared? ==> ESlot(e, l).id in e.objects)
    ensures EWrite(e, l, i, w).EDone? && EWrite(e, l, i, w).seen == None
    ensures Sim(WriteWord(m, EntryAt(m, l).index, i, w), EWrite(e, l, i, w).e)
  {
    assert SimAt(m, e, l);
    assert EntryOk(m, EntryAt(m, l));
    WriteFrameKeepsInv(m, l, m.frames[EntryAt(m, l).index][i := w]);
    if EntryAt(m, l).shared {
      WriteSharedSimulates(m, e, l, i, w);
    } else {
      WritePrivateSimulates(m, e, l, i, w);
    }
  }

  /** A write by the kernel: it asks for no permission. */
  function EPoke(e: Eager, l: Place, i: nat, w: Word): Eager
    requires EMapped(e, l) && i < ENTRIES && (ESlot(e, l).Shared? ==> ESlot(e, l).id in e.objects)
  {
    match ESlot(e, l)
    case Private(pg, ro) => ESet(e, l, Private(pg[i := w], ro))
    case Shared(id, _) => e.(objects := e.objects[id := e.objects[id][i := w]])
  }

  /** The processor lets the kernel write through any present entry, also one that waits
      to be copied. Such a write shows in no other address space exactly when the page is
      shared memory, has no other user, or is not changed by it. */
  lemma KernelWriteSimulatesIff(m: Mem, e: Eager, l: Place, i: nat, w: Word)
    requires Inv(m) && Sim(m, e) && Mapped(m, l) && i < ENTRIES
    requires EntryOk(m, EntryAt(m, l)) && EMapped(e, l) && (ESlot(e, l).Shared? ==> ESlot(e, l).id in e.objects)
    ensures Inv(WriteWord(m, EntryAt(m, l).index, i, w))
    ensures Sim(WriteWord(m, EntryAt(m, l).index, i, w), EPoke(e, l, i, w)) <==>
              || EntryAt(m, l).shared
              || m.counts[EntryAt(m, l).index] == 1
              || m.frames[EntryAt(m, l).index][i] == w
  {
    var f := EntryAt(m, l).index;
    var m' := WriteWord(m, f, i, w);
    assert SimAt(m, e, l);
    WriteFrameKeepsInv(m, l, m.frames[f][i := w]);
    if EntryAt(m, l).shared {
      WriteSharedSimulates(m, e, l, i, w);
    } else if m.counts[f] == 1 {
      WritePrivateSimulates(m, e, l, i, w);
    } else if m.frames[f][i] == w {
      NothingWritten(m, e, l, i);
    } else {
      WriteFrameStructure(m, l, m.frames[f][i := w]);
      var k := OtherSharer(m, l);
      assert SimAt(m, e, k);
      assert !SimAt(m', EPoke(e, l, i, w), k);
    }
  }

  lemma NothingWritten(m: Mem, e: Eager, l: Place, i: nat)
    requires Inv(m) && Sim(m, e) && Mapped(m, l) && i < ENTRIES && EntryOk(m, EntryAt(m, l)) && !EntryAt(m, l).shared
    requires EMapped(e, l) && ESlot(e, l).Private?
    ensures WriteWord(m, EntryAt(m, l).index, i, m.frames[EntryAt(m, l).index][i]) == m
    ensures EPoke(e, l, i, m.frames[EntryAt(m, l).index][i]) == e
  {
    var pg := m.frames[EntryAt(m, l).index];
    assert pg[i := pg[i]] == pg;
    assert m.frames[EntryAt(m, l).index := pg] == m.frames;
    assert SimAt(m, e, l);
    var s := e.spaces[l.p].value;
    assert s[VPage(l.d, l.t) := s[VPage(l.d, l.t)]] == s;
    assert e.spaces[l.p := Some(s)] == e.spaces;
  }

  /** A private page whose count is not one is named by a second entry. */
  lemma OtherSharer(m: Mem, l: Place) returns (k: Place)
    requires Inv(m) && Mapped(m, l) && !EntryAt(m, l).shared && UserFrame(m, EntryAt(m, l).index)
    requires m.counts[EntryAt(m, l).index] != 1
    ensures k != l && Mapped(m, k) && EntryAt(m, k).index == EntryAt(m, l).index && !EntryAt(m, k).shared
  {
    var f := EntryAt(m, l).index;
    NamedIsCounted(m, l, f);
    PlacesAreInRange(l);
    var others := Refs(m, f) - {l};
    assert l in Refs(m, f) && |others| == |Refs(m, f)| - 1;
    k :| k in others;
    TablesAreDistinct(m);
  }

  /** Serving a fault changes no task's view, except that a missing stack page appears. */
  lemma FaultSimulates(m: Mem, e: Eager, p: nat, a: nat, writing: bool) returns (o: Choice)
    requires Inv(m) && Sim(m, e) && p < TASK_NR && Live(m, p) && UserAddress(a)
    requires !Accessible(m, PlaceOf(p, a), writing) && PageFault(m, p, a, writing).Done?
    ensures EMapped(e, PlaceOf(p, a)) || OnStack(a)
    ensures (PageFaultServes(m, p, a, writing); Sim(PageFault(m, p, a, writing).m, ELink(e, PlaceOf(p, a), o)))
  {
    hide SharersAgree, Accounting;
    AddressParts(a);
    PageFaultServes(m, p, a, writing);
    var l := PlaceOf(p, a);
    var m1 := PageFault(m, p, a, writing).m;
    assert SimAt(m, e, l);
    EntryIsOk(m1, l);
    o := Choice(m1.frames[EntryAt(m1, l).index], 0);
    if Mapped(m, l) {
      var w := EntryAt(m, l);
      if m.counts[w.index] == 1 {
        assert EntryAt(m1, l) == w.(write := true);
      } else {
        CopyPageOk(m, l);
      }
      assert SlotOf(m1, EntryAt(m1, l)) == SlotOf(m, w);
      SimExcept(m, m1, e, e, l);
    } else {
      LinkSimulates(m, e, l, o);
    }
  }

  // -------------------------------------------------------- load and store

  lemma DirectStoreSimulates(m: Mem, e: Eager, p: nat, a: nat, w: Word, o: Choice)
    requires Inv(m) && Sim(m, e) && p < TASK_NR && Live(m, p) && UserAddress(a)
    requires Accessible(m, PlaceOf(p, a), true) && EValid(e) && ELegal(e, DoStore(p, a, w))
    ensures Store(m, p, a, w).Done? && EStep(e, DoStore(p, a, w), o).EDone?
    ensures Inv(Store(m, p, a, w).m) && Sim(Store(m, p, a, w).m, EStep(e, DoStore(p, a, w), o).e)
    ensures Store(m, p, a, w).seen == EStep(e, DoStore(p, a, w), o).seen
  {
    AddressParts(a);
    var l := PlaceOf(p, a);
    assert EntryOk(m, EntryAt(m, l));
    WriteSimulates(m, e, l, WordOf(a), w);
  }

  lemma FaultingStoreSimulates(m: Mem, e: Eager, p: nat, a: nat, w: Word) returns (o: Choice)
    requires Inv(m) && Sim(m, e) && p < TASK_NR && Live(m, p) && UserAddress(a)
    requires !Accessible(m, PlaceOf(p, a), true) && EValid(e) && ELegal(e, DoStore(p, a, w))
    requires Store(m, p, a, w).Done?
    ensures EStep(e, DoStore(p, a, w), o).EDone?
    ensures Inv(Store(m, p, a, w).m) && Sim(Store(m, p, a, w).m, EStep(e, DoStore(p, a, w), o).e)
    ensures Store(m, p, a, w).seen == EStep(e, DoStore(p, a, w), o).seen
  {
    hide Accounting, TablesUnshared, SharersAgree, EntriesOk, PageFault;
    AddressParts(a);
    var l := PlaceOf(p, a);
    o := FaultSimulates(m, e, p, a, true);
    PageFaultServes(m, p, a, true);
    var m1, e1 := PageFault(m, p, a, true).m, ELink(e, l, o);
    assert SimAt(m, e, l);
    EntryIsOk(m1, l);
    WriteSimulates(m1, e1, l, WordOf(a), w);
  }

  lemma StoreSimulates(m: Mem, e: Eager, p: nat, a: nat, w: Word) returns (o: Choice)
    requires Inv(m) && Sim(m, e) && p < TASK_NR && Live(m, p) && UserAddress(a)
    requires EValid(e) && ELegal(e, DoStore(p, a, w)) && Store(m, p, a, w).Done?
    ensures EStep(e, DoStore(p, a, w), o).EDone?
    ensures Inv(Store(m, p, a, w).m) && Sim(Store(m, p, a, w).m, EStep(e, DoStore(p, a, w), o).e)
    ensures Store(m, p, a, w).seen == EStep(e, DoStore(p, a, w), o).seen
  {
    if Accessible(m, PlaceOf(p, a), true) {
      o := Choice(m.frames[0], 0);
      DirectStoreSimulates(m, e, p, a, w, o);
    } else {
      o := FaultingStoreSimulates(m, e, p, a, w);
    }
  }

  lemma LoadSimulates(m: Mem, e: Eager, p: nat, a: nat) returns (o: Choice)
    requires Inv(m) && Sim(m, e) && p < TASK_NR && Live(m, p) && UserAddress(a)
    requires EValid(e) && ELegal(e, DoLoad(p, a)) && Load(m, p, a).Done?
    ensures EStep(e, DoLoad(p, a), o).EDone?
    ensures Inv(Load(m, p, a).m) && Sim(Load(m, p, a).m, EStep(e, DoLoad(p, a), o).e)
    ensures Load(m, p, a).seen == EStep(e, DoLoad(p, a), o).seen
  {
    AddressParts(a);
    var l := PlaceOf(p, a);
    assert SimAt(m, e, l);
    var m1, e1 := m, e;
    if Accessible(m, l, false) {
      o := Choice(m.frames[0], 0);
    } else {
      o := FaultSimulates(m, e, p, a, false);
      PageFaultServes(m, p, a, false);
      m1, e1 := PageFault(m, p, a, false).m, ELink(e, l, o);
    }
    assert SimAt(m1, e1, l);
    assert EntryOk(m1, EntryAt(m1, l));
  }

  // ------------------------------------------------------------------ exit

  lemma ExitSimulates(m: Mem, e: Eager, p: nat)
    requires Inv(m) && Sim(m, e) && p < TASK_NR && Live(m, p)
    ensures Inv(Exit(m, p)) && Sim(Exit(m, p), e.(spaces := e.spaces[p := None]))
  {
    ExitOk(m, p);
    var m', e' := Exit(m, p), e.(spaces := e.spaces[p := None]);
    forall k: Place | k.Pte? ensures SimAt(m', e', k) {
      assert SimAt(m, e, k);
      if k.p != p {
        assert Mapped(m, k) ==> EntryOk(m, EntryAt(m, k));
        SimAtKept(m, m', e, e', k);
      }
    }
    forall q: nat ensures Live(m', q) == ELive(e', q) {
      assert Live(m, q) == ELive(e, q);
    }
  }

  // ------------------------------------------------------------------ fork

  function Below(s: Space, i: nat): Space { map v | v in s && v.d < i :: s[v] }

  /** The eager child, once its first `i` page tables have arrived. */
  function EForkUpTo(e: Eager, p: nat, c: nat, i: nat): Eager
    requires ELive(e, p) && c < |e.spaces|
  {
    e.(spaces := e.spaces[c := Some(Below(e.spaces[p].value, i))])
  }

  /** Taking the write permission away does not show. */
  lemma ProtectedSlot(m: Mem, m': Mem, e: Eager, e': Eager, l: Place, k: Place)
    requires Inv(m) && Inv(m') && l.Pte? && k.Pte? && SimAt(m, e, l)
    requires Mapped(m', k) == Mapped(m, l) && EMapped(e', k) == EMapped(e, l)
    requires Mapped(m, l) ==> EntryAt(m', k) == ProtectedWord(EntryAt(m, l)) && EntryAt(m, l).index < |m.frames| == |m'.frames|
                              && m'.frames[EntryAt(m, l).index] == m.frames[EntryAt(m, l).index]
    requires EMapped(e, l) ==> ESlot(e', k) == ESlot(e, l)
    requires e'.objects == e.objects
    ensures SimAt(m', e', k)
  {}

  lemma BelowEffect(e: Eager, p: nat, c: nat, d: nat, k: Place)
    requires ELive(e, p) && c < |e.spaces| && c != p && k.Pte?
    ensures var e0, e' := EForkUpTo(e, p, c, d), EForkUpTo(e, p, c, d + 1);
            if k.p == c && k.d == d then
              EMapped(e', k) == EMapped(e0, Pte(p, d, k.t)) && (EMapped(e', k) ==> ESlot(e', k) == ESlot(e0, Pte(p, d, k.t)))
            else
              EMapped(e', k) == EMapped(e0, k) && (EMapped(e', k) ==> ESlot(e', k) == ESlot(e0, k))
  {}

  lemma ForkTablePages(m: Mem, p: nat, c: nat, d: nat, f: nat)
    requires CanForkTable(m, p, c, d, f)
    ensures SamePages(m, ForkTable(m, p, c, d, f))
  {
    FreeFrameIsUnnamed(m, f);
    TablesAreDistinct(m);
  }

  lemma ForkTableSimulatesAt(m: Mem, m': Mem, e: Eager, p: nat, c: nat, d: nat, f: nat, k: Place)
    requires CanForkTable(m, p, c, d, f) && ELive(e, p) && k.Pte? && c < |e.spaces|
    requires Inv(m') && ForkStructure(m, m', p, c, d, f) && SamePages(m, m')
    requires SimAt(m, EForkUpTo(e, p, c, d), k) && SimAt(m, EForkUpTo(e, p, c, d), Pte(p, d, k.t))
    ensures SimAt(m', EForkUpTo(e, p, c, d + 1), k)
  {
    var e0, e' := EForkUpTo(e, p, c, d), EForkUpTo(e, p, c, d + 1);
    BelowEffect(e, p, c, d, k);
    var l := if k.p == c && k.d == d then Pte(p, d, k.t) else k;
    if Mapped(m, l) {
      assert EntryOk(m, EntryAt(m, l));
    }
    if l.p == p && l.d == d {
      ProtectedSlot(m, m', e0, e', l, k);
    } else {
      SimAtKept(m, m', e0, e', k);
    }
  }

  lemma {:induction false} ForkUpToSimulates(m: Mem, e: Eager, p: nat, c: nat, i: nat)
    requires Inv(m) && Sim(m, e) && Live(m, p) && c < TASK_NR && !Live(m, c) && i <= USER_DIRS
    requires ForkUpTo(m, p, c, i).Some?
    ensures ELive(e, p) && Sim(ForkUpTo(m, p, c, i).value, EForkUpTo(e, p, c, i))
  {
    assert ELive(e, p) && !ELive(e, c);
    if i == 0 {
      NewSpaceSimulates(m, e, p, c);
    } else {
      var d := i - 1;
      ForkUpToSimulates(m, e, p, c, d);
      var n := ForkUpTo(m, p, c, d).value;
      var e0, e' := EForkUpTo(e, p, c, d), EForkUpTo(e, p, c, i);
      if !HasTable(n, p, d) {
        forall v | v in e.spaces[p].value ensures v.d != d {
          assert SimAt(n, e0, Pte(p, v.d, v.t));
          assert EMapped(e0, Pte(p, v.d, v.t));
        }
        assert Below(e.spaces[p].value, d) == Below(e.spaces[p].value, i);
      } else {
        var f := LowestFree(n).value;
        ForkTableKeepsInv(n, p, c, d, f);
        ForkTablePages(n, p, c, d, f);
        forall k: Place | k.Pte?
          ensures SimAt(ForkTable(n, p, c, d, f), e', k)
        {
          assert SimAt(n, e0, k) && SimAt(n, e0, Pte(p, d, k.t));
          ForkTableSimulatesAt(n, ForkTable(n, p, c, d, f), e, p, c, d, f, k);
        }
        forall q: nat ensures Live(ForkTable(n, p, c, d, f), q) == ELive(e', q) {
          assert Live(n, q) == ELive(e0, q);
        }
      }
    }
  }

  lemma NewSpaceSimulates(m: Mem, e: Eager, p: nat, c: nat)
    requires Inv(m) && Sim(m, e) && Live(m, p) && ELive(e, p) && c < TASK_NR && !Live(m, c) && !ELive(e, c)
    ensures Inv(NewSpace(m, p, c)) && Sim(NewSpace(m, p, c), EForkUpTo(e, p, c, 0))
  {
    NewSpaceOk(m, p, c);
    var m', e' := NewSpace(m, p, c), EForkUpTo(e, p, c, 0);
    forall k: Place | k.Pte?
      ensures SimAt(m', e', k)
    {
      assert SimAt(m, e, k);
      if k.p == c {
        assert !EMapped(e', k) && !Mapped(m', k);
      } else {
        if Mapped(m, k) {
          assert EntryOk(m, EntryAt(m, k));
        }
        SimAtKept(m, m', e, e', k);
      }
    }
    forall q: nat ensures Live(m', q) == ELive(e', q) {
      assert Live(m, q) == ELive(e, q);
    }
  }

  lemma ForkSimulates(m: Mem, e: Eager, p: nat, c: nat)
    requires Inv(m) && Sim(m, e) && Live(m, p) && c < TASK_NR && !Live(m, c)
    requires ForkUpTo(m, p, c, USER_DIRS).Some?
    ensures ELive(e, p) && Sim(ForkUpTo(m, p, c, USER_DIRS).value, e.(spaces := e.spaces[c := e.spaces[p]]))
  {
    assert ELive(e, p);
    ForkUpToSimulates(m, e, p, c, USER_DIRS);
    forall v | v in e.spaces[p].value ensures v.d < USER_DIRS {
      assert EMapped(e, Pte(p, v.d, v.t));
      assert SimAt(m, e, Pte(p, v.d, v.t));
    }
    assert Below(e.spaces[p].value, USER_DIRS) == e.spaces[p].value;
  }

  // ------------------------------------------------------------------ mmap

  /** `sys_mmap` is harmless on `l` unless it would make a page writable or
      shared that other entries still name for copying. */
  ghost predicate MmapSafe(m: Mem, l: Place, writable: bool, share: bool)
    requires Shape(m)
  {
    (Mapped(m, l) && !EntryAt(m, l).shared && (writable || share) && EntryAt(m, l).index < |m.counts|) ==>
      m.counts[EntryAt(m, l).index] == 1
  }

  lemma MmapSafeAfterLink(m: Mem, l: Place, writable: bool, share: bool)
    requires Inv(m) && InRange(l) && l.Pte? && Live(m, l.p) && MmapSafe(m, l, writable, share)
    requires LinkPage(m, l).Some?
    ensures Inv(LinkPage(m, l).value) && Mapped(LinkPage(m, l).value, l) && MmapSafe(LinkPage(m, l).value, l, writable, share)
  {
    LinkPageMaps(m, l);
    if Mapped(m, l) {
      EnsureTableOk(m, l.p, l.d);
      assert LinkPage(m, l).value == m;
    }
  }

  lemma SetPermissionsSimulates(m: Mem, e: Eager, l: Place, writable: bool, share: bool, priv: bool, o: Choice)
    requires Inv(m) && Sim(m, e) && Mapped(m, l) && MmapSafe(m, l, writable, share)
    requires EMapped(e, l) && o.id == EntryAt(m, l).index
    ensures var w := MmapWord(EntryAt(m, l), writable, share, priv);
            Inv(SetEntry(m, l.p, l.d, l.t, w)) && Sim(SetEntry(m, l.p, l.d, l.t, w), EMmap(e, l, writable, share, o))
  {
    var w0 := EntryAt(m, l);
    var w := MmapWord(w0, writable, share, priv);
    assert SimAt(m, e, l);
    assert EntryOk(m, w0);
    SetFlagsKeepsInv(m, l, w);
    PermissionsSimExcept(m, SetEntry(m, l.p, l.d, l.t, w), e, l, w, writable, share, o);
  }

  ghost predicate Permitted(m: Mem, e: Eager, l: Place, w: Word, writable: bool, share: bool, o: Choice)
    requires Shape(m)
  {
    && Mapped(m, l) && EMapped(e, l) && MmapSafe(m, l, writable, share)
    && w.present && w.index == o.id == EntryAt(m, l).index && w.write == writable && w.readonly == !writable
    && w.shared == (EntryAt(m, l).shared || share)
  }

  lemma SetEntryKeepsPages(m: Mem, l: Place, w: Word)
    requires Inv(m) && Mapped(m, l)
    ensures SamePages(m, SetEntry(m, l.p, l.d, l.t, w))
  {
    TablesAreDistinct(m);
    hide Accounting, TablesUnshared, EntriesOk, SharersAgree;
  }

  lemma PermissionsSimAt(m: Mem, m': Mem, e: Eager, l: Place, w: Word, writable: bool, share: bool, o: Choice)
    requires Inv(m) && Inv(m') && SimAt(m, e, l) && Permitted(m, e, l, w, writable, share, o) && SamePages(m, m')
    requires m' == SetEntry(m, l.p, l.d, l.t, w) && EntryOk(m, EntryAt(m, l))
    ensures SimAt(m', EMmap(e, l, writable, share, o), l)
  {
    hide Accounting, TablesUnshared, SharersAgree, EntriesOk;
    assert m'.dirs == m.dirs;
    assert TableAt(m', l.p, l.d) == TableAt(m, l.p, l.d)[l.t := w];
    assert Mapped(m', l) && EntryAt(m', l) == w;
    assert m'.frames[w.index] == m.frames[w.index];
  }

  lemma PermissionsSimExcept(m: Mem, m': Mem, e: Eager, l: Place, w: Word, writable: bool, share: bool, o: Choice)
    requires Inv(m) && Inv(m') && Sim(m, e) && Permitted(m, e, l, w, writable, share, o)
    requires m' == SetEntry(m, l.p, l.d, l.t, w) && SameExceptAt(m, m', l)
    ensures Sim(m', EMmap(e, l, writable, share, o))
  {
    var e' := EMmap(e, l, writable, share, o);
    assert SimAt(m, e, l);
    EntryIsOk(m, l);
    SetEntryKeepsPages(m, l, w);
    PermissionsSimAt(m, m', e, l, w, writable, share, o);
    EMmapEffect(e, l, writable, share, o);
    hide Accounting, TablesUnshared, EntriesOk;
    forall k | k != l && Mapped(m, k) && EntryAt(m, k).shared && share && !EntryAt(m, l).shared
      ensures EntryAt(m, k).index != w.index
    {}
    SimExcept(m, m', e, e', l);
  }

  lemma EMmapEffect(e: Eager, l: Place, writable: bool, share: bool, o: Choice)
    requires EMapped(e, l)
    ensures var e1 := EMmap(e, l, writable, share, o);
            && |e1.spaces| == |e.spaces| && (forall p: nat :: ELive(e1, p) == ELive(e, p)) && EMapped(e1, l)
            && (forall k :: k != l ==> EMapped(e1, k) == EMapped(e, k))
            && (forall k :: k != l && EMapped(e, k) ==> ESlot(e1, k) == ESlot(e, k))
  {}

  lemma MmapSimulates(m: Mem, e: Eager, l: Place, writable: bool, share: bool, priv: bool, o: Choice)
    requires Inv(m) && Sim(m, e) && InRange(l) && l.Pte? && Live(m, l.p) && MmapSafe(m, l, writable, share)
    requires LinkPage(m, l).Some?
    requires (LinkPageMaps(m, l); EntryOk(LinkPage(m, l).value, EntryAt(LinkPage(m, l).value, l)) &&
              o == Choice(LinkPage(m, l).value.frames[EntryAt(LinkPage(m, l).value, l).index], EntryAt(LinkPage(m, l).value, l).index))
    ensures ELive(e, l.p) && MmapPage(m, l, writable, share, priv).Some?
    ensures !(Mapped(m, l) && EntryAt(m, l).shared) ==> FreshId(e, o.id)
    ensures Inv(MmapPage(m, l, writable, share, priv).value)
    ensures Sim(MmapPage(m, l, writable, share, priv).value, EMmap(ELink(e, l, o), l, writable, share, o))
  {
    assert ELive(e, l.p);
    LinkSimulates(m, e, l, o);
    LinkPageMaps(m, l);
    var m1, e1 := LinkPage(m, l).value, ELink(e, l, o);
    MmapSafeAfterLink(m, l, writable, share);
    SetPermissionsSimulates(m1, e1, l, writable, share, priv, o);
    if !(Mapped(m, l) && EntryAt(m, l).shared) {
      UnsharedIsFresh(m1, e1, l);
      FreshBefore(e, l, o);
    }
  }

  /** The frame of a private page is no task's shared object. */
  lemma UnsharedIsFresh(m: Mem, e: Eager, l: Place)
    requires Inv(m) && Sim(m, e) && Mapped(m, l) && !EntryAt(m, l).shared
    ensures FreshId(e, EntryAt(m, l).index)
  {
    forall k | EMapped(e, k) && ESlot(e, k).Shared? ensures ESlot(e, k).id != EntryAt(m, l).index {
      assert SimAt(m, e, k);
    }
  }

  lemma FreshBefore(e: Eager, l: Place, o: Choice)
    requires l.Pte? && ELive(e, l.p) && FreshId(ELink(e, l, o), o.id)
    ensures FreshId(e, o.id)
  {
    forall k | EMapped(e, k) && ESlot(e, k).Shared? ensures ESlot(e, k).id != o.id {
      assert EMapped(ELink(e, l, o), k) && ESlot(ELink(e, l, o), k) == ESlot(e, k);
    }
  }
}
