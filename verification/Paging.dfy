/** Reference-counted user frames, two-level page tables and copy on write.

    Every frame holds 1024 words. A word is kept in the shape of a page-table
    entry (twelve flag bits and a 20-bit frame index), which is just another
    way to write down 32 bits, so page tables and user data live in the same
    frames and nothing but the invariant keeps them apart. */
module Paging {
  import opened Basics

  const ENTRIES := 1024
  const USER_DIRS := 768
  const FIRST_USER_FRAME := 4096
  const MAX_COUNT := 255
  /** The count of the pages that are taken for good at boot. */
  const RESERVED := 100
  const USER_STACK_BOTTOM := USER_STACK_TOP - 0x20_0000

  datatype Word = Word(present: bool, write: bool, user: bool, pwt: bool, pcd: bool, accessed: bool,
                       dirty: bool, pat: bool, global: bool, shared: bool, privat: bool, readonly: bool,
                       index: nat)

  const ZERO := Word(false, false, false, false, false, false, false, false, false, false, false, false, 0)

  type Page = s: seq<Word> | |s| == ENTRIES witness seq(ENTRIES, _ => ZERO)
  type Directory = s: seq<Word> | |s| == USER_DIRS witness seq(USER_DIRS, _ => ZERO)

  /** `entry_init`, followed by `user = 1` as every caller in user space does. */
  function UserEntry(frame: nat): Word {
    ZERO.(present := true, write := true, user := true, index := frame)
  }

  /** Reference counts, the count of free frames, the frames' words, and the
      user half of the page directory of each task that has an address space. */
  datatype Mem = Mem(counts: seq<nat>, free: int, frames: seq<Page>, dirs: seq<Option<Directory>>)

  /** A place that can name a frame: a page-directory or a page-table entry. */
  datatype Place = Pde(p: nat, d: nat) | Pte(p: nat, d: nat, t: nat)

  ghost function Places(): set<Place> {
    (set p: nat, d: nat | p < TASK_NR && d < USER_DIRS :: Pde(p, d)) +
    (set p: nat, d: nat, t: nat | p < TASK_NR && d < USER_DIRS && t < ENTRIES :: Pte(p, d, t))
  }

  predicate InRange(l: Place) {
    l.p < TASK_NR && l.d < USER_DIRS && (l.Pte? ==> l.t < ENTRIES)
  }

  lemma PlacesAreInRange(l: Place)
    ensures l in Places() <==> InRange(l)
  {}

  ghost predicate Shape(m: Mem) {
    && |m.counts| == |m.frames| >= FIRST_USER_FRAME
    && m.counts[0] > 0
    && |m.dirs| == TASK_NR
    && forall p: nat, d: nat :: p < TASK_NR && d < USER_DIRS && HasTableRaw(m, p, d) ==> UserFrame(m, m.dirs[p].value[d].index)
  }

  predicate UserFrame(m: Mem, f: int) {
    FIRST_USER_FRAME <= f < |m.counts|
  }

  predicate HasTableRaw(m: Mem, p: nat, d: nat)
    requires p < |m.dirs| && d < USER_DIRS
  {
    m.dirs[p].Some? && m.dirs[p].value[d].present
  }

  predicate HasTable(m: Mem, p: nat, d: nat)
    requires |m.dirs| == TASK_NR
  {
    p < TASK_NR && d < USER_DIRS && HasTableRaw(m, p, d)
  }

  function TableFrame(m: Mem, p: nat, d: nat): nat
    requires |m.dirs| == TASK_NR && HasTable(m, p, d)
  {
    m.dirs[p].value[d].index
  }

  function TableAt(m: Mem, p: nat, d: nat): Page
    requires Shape(m) && HasTable(m, p, d)
  {
    m.frames[TableFrame(m, p, d)]
  }

  /** `l` is a page-table entry, and it is present. */
  ghost predicate Mapped(m: Mem, l: Place)
    requires Shape(m)
  {
    l.Pte? && HasTable(m, l.p, l.d) && l.t < ENTRIES && TableAt(m, l.p, l.d)[l.t].present
  }

  ghost function EntryAt(m: Mem, l: Place): Word
    requires Shape(m) && l.Pte? && HasTable(m, l.p, l.d) && l.t < ENTRIES
  {
    TableAt(m, l.p, l.d)[l.t]
  }

  /** Place `l` holds a present entry naming frame `f`. */
  ghost predicate Names(m: Mem, l: Place, f: int)
    requires Shape(m)
  {
    if l.Pde? then HasTable(m, l.p, l.d) && TableFrame(m, l.p, l.d) == f
    else Mapped(m, l) && EntryAt(m, l).index == f
  }

  /** All present entries, over all live address spaces, that name frame `f`. */
  ghost function Refs(m: Mem, f: int): set<Place>
    requires Shape(m)
  {
    set l | l in Places() && Names(m, l, f)
  }

  /** Frame accounting: a user frame's count is the number of entries naming it,
      and `free` counts the zero entries of the whole table. */
  ghost predicate Accounting(m: Mem)
    requires Shape(m)
  {
    && (forall f :: UserFrame(m, f) ==> m.counts[f] == |Refs(m, f)|)
    && m.free == |Zeros(m.counts)|
  }

  /** A page table belongs to one directory entry only. */
  ghost predicate TablesUnshared(m: Mem)
    requires Shape(m)
  {
    forall p, d :: HasTable(m, p, d) ==> m.counts[TableFrame(m, p, d)] == 1
  }

  /** What every present page-table entry satisfies. The third conjunct is the
      heart of copy on write. */
  ghost predicate EntryOk(m: Mem, w: Word) {
    && UserFrame(m, w.index)
    && w.user
    && (w.write && !w.shared ==> m.counts[w.index] == 1)
    && (w.readonly ==> !w.write)
  }

  ghost predicate EntriesOk(m: Mem)
    requires Shape(m)
  {
    forall l :: Mapped(m, l) ==> EntryOk(m, EntryAt(m, l))
  }

  /** Entries naming one frame agree on whether it is shared memory, and stand at the
      same page of their address spaces. */
  ghost predicate SharersAgree(m: Mem)
    requires Shape(m)
  {
    forall l, k :: Mapped(m, l) && Mapped(m, k) && EntryAt(m, l).index == EntryAt(m, k).index
                   ==> EntryAt(m, l).shared == EntryAt(m, k).shared && l.d == k.d && l.t == k.t
  }

  ghost predicate Inv(m: Mem) {
    Shape(m) && Accounting(m) && TablesUnshared(m) && EntriesOk(m) && SharersAgree(m)
  }

  lemma InvShape(m: Mem)
    requires Inv(m)
    ensures Shape(m)
  {}

  lemma EntryIsOk(m: Mem, l: Place)
    requires Inv(m) && Mapped(m, l)
    ensures EntryOk(m, EntryAt(m, l))
  {}

  // ---------------------------------------------------------------- frames

  /** Two different places naming a frame make its count at least two. */
  lemma TwoNamesCountTwo(m: Mem, l1: Place, l2: Place, f: int)
    requires Shape(m) && Accounting(m) && UserFrame(m, f)
    requires l1 != l2 && InRange(l1) && InRange(l2) && Names(m, l1, f) && Names(m, l2, f)
    ensures m.counts[f] >= 2
  {
    PlacesAreInRange(l1);
    PlacesAreInRange(l2);
    assert {l1, l2} <= Refs(m, f);
    SubsetCardinality({l1, l2}, Refs(m, f));
  }

  /** A frame that is named has a positive count. */
  lemma NamedIsCounted(m: Mem, l: Place, f: int)
    requires Shape(m) && Accounting(m) && UserFrame(m, f)
    requires InRange(l) && Names(m, l, f)
    ensures m.counts[f] >= 1
  {
    PlacesAreInRange(l);
    assert {l} <= Refs(m, f);
    SubsetCardinality({l}, Refs(m, f));
  }

  /** A frame has at most one user in each address space, so no count comes near
      the limit that `copy_pte` asserts. */
  lemma CountAtMostTasks(m: Mem, f: nat)
    requires Shape(m) && Accounting(m) && TablesUnshared(m) && SharersAgree(m) && UserFrame(m, f)
    ensures m.counts[f] <= TASK_NR < MAX_COUNT
  {
    if m.counts[f] > 1 {
      var l :| l in Refs(m, f);
      assert l.Pte?;
      var column := OnePerTask(l.d, l.t, TASK_NR);
      forall k | k in Refs(m, f) ensures k in column {
        PlacesAreInRange(k);
        assert k == Pte(k.p, l.d, l.t);
      }
      SubsetCardinality(Refs(m, f), column);
    }
  }

  /** The entries of the first `n` address spaces for one page. */
  ghost function OnePerTask(d: nat, t: nat, n: nat): (r: set<Place>)
    ensures |r| <= n
    ensures forall q: nat :: q < n ==> Pte(q, d, t) in r
  {
    if n == 0 then {} else OnePerTask(d, t, n - 1) + {Pte((n - 1) as nat, d, t)}
  }

  /** No freed frame is still mapped, and no page table is anybody's data page. */
  lemma TableFrameIsPrivate(m: Mem, p: nat, d: nat, l: Place)
    requires Inv(m) && HasTable(m, p, d) && InRange(l) && Names(m, l, TableFrame(m, p, d))
    ensures l == Pde(p, d)
  {
    if l != Pde(p, d) {
      TwoNamesCountTwo(m, l, Pde(p, d), TableFrame(m, p, d));
    }
  }

  // ------------------------------------------------------- elementary steps

  function Take(m: Mem, f: nat): Mem
    requires f < |m.counts|
  {
    m.(counts := m.counts[f := 1], free := m.free - 1)
  }

  function Drop(m: Mem, f: nat): Mem
    requires f < |m.counts| && m.counts[f] >= 1
  {
    m.(counts := m.counts[f := m.counts[f] - 1], free := if m.counts[f] == 1 then m.free + 1 else m.free)
  }

  function SetEntry(m: Mem, p: nat, d: nat, t: nat, w: Word): Mem
    requires |m.dirs| == TASK_NR && HasTable(m, p, d) && TableFrame(m, p, d) < |m.frames| && t < ENTRIES
  {
    m.(frames := m.frames[TableFrame(m, p, d) := m.frames[TableFrame(m, p, d)][t := w]])
  }

  function SetDir(m: Mem, p: nat, d: nat, w: Word): Mem
    requires p < |m.dirs| && m.dirs[p].Some? && d < USER_DIRS
  {
    m.(dirs := m.dirs[p := Some(m.dirs[p].value[d := w])])
  }

  function WriteFrame(m: Mem, f: nat, pg: Page): Mem
    requires f < |m.frames|
  {
    m.(frames := m.frames[f := pg])
  }

  /** A new, empty page table in frame `f`. */
  function AddTable(m: Mem, p: nat, d: nat, f: nat): Mem
    requires f < |m.counts| == |m.frames| && p < |m.dirs| && m.dirs[p].Some? && d < USER_DIRS
  {
    SetDir(WriteFrame(Take(m, f), f, seq(ENTRIES, _ => ZERO)), p, d, UserEntry(f))
  }

  /** A new page with contents `pg` in frame `f`, mapped writable. */
  function AddPage(m: Mem, p: nat, d: nat, t: nat, f: nat, pg: Page): Mem
    requires |m.dirs| == TASK_NR && HasTable(m, p, d) && f < |m.counts| == |m.frames|
    requires TableFrame(m, p, d) < |m.frames| && t < ENTRIES
  {
    SetEntry(WriteFrame(Take(m, f), f, pg), p, d, t, UserEntry(f))
  }

  function RemovePage(m: Mem, p: nat, d: nat, t: nat): Mem
    requires |m.dirs| == TASK_NR && HasTable(m, p, d) && TableFrame(m, p, d) < |m.frames| && t < ENTRIES
    requires var g := m.frames[TableFrame(m, p, d)][t].index; g < |m.counts| && m.counts[g] >= 1
  {
    var w := m.frames[TableFrame(m, p, d)][t];
    Drop(SetEntry(m, p, d, t, w.(present := false)), w.index)
  }

  function RemoveTable(m: Mem, p: nat, d: nat): Mem
    requires |m.dirs| == TASK_NR && HasTable(m, p, d)
    requires TableFrame(m, p, d) < |m.counts| && m.counts[TableFrame(m, p, d)] >= 1
  {
    SetDir(Drop(m, TableFrame(m, p, d)), p, d, m.dirs[p].value[d].(present := false))
  }

  // ------------------------------------------- how a step moves the counts

  /** `m'` differs from `m` in who names frame `f` by place `l` only. */
  ghost predicate OnlyAt(m: Mem, m': Mem, l: Place)
    requires Shape(m) && Shape(m')
  {
    forall k, f :: InRange(k) && k != l ==> Names(m', k, f) == Names(m, k, f)
  }

  /** One place starts to name the free frame `f`: accounting survives. */
  lemma GainKeepsAccounting(m: Mem, m': Mem, l: Place, f: nat)
    requires Shape(m) && Shape(m') && Accounting(m) && UserFrame(m, f) && m.counts[f] == 0
    requires InRange(l) && (forall g :: !Names(m, l, g))
    requires (forall g :: Names(m', l, g) <==> g == f) && OnlyAt(m, m', l)
    requires m'.counts == m.counts[f := 1] && m'.free == m.free - 1
    ensures Accounting(m')
  {
    PlacesAreInRange(l);
    forall g | UserFrame(m', g)
      ensures m'.counts[g] == |Refs(m', g)|
    {
      forall k ensures k in Refs(m', g) <==> k in Refs(m, g) || (k == l && g == f) {
        PlacesAreInRange(k);
      }
      assert Refs(m', g) == if g == f then Refs(m, g) + {l} else Refs(m, g);
    }
    assert Zeros(m'.counts) == Zeros(m.counts) - {f};
    assert f in Zeros(m.counts);
  }

  /** One place stops naming frame `f`: accounting survives. */
  lemma LossKeepsAccounting(m: Mem, m': Mem, l: Place, f: nat)
    requires Shape(m) && Shape(m') && Accounting(m) && UserFrame(m, f) && m.counts[f] >= 1
    requires InRange(l) && (forall g :: Names(m, l, g) <==> g == f)
    requires (forall g :: !Names(m', l, g)) && OnlyAt(m, m', l)
    requires m'.counts == m.counts[f := m.counts[f] - 1]
    requires m'.free == if m.counts[f] == 1 then m.free + 1 else m.free
    ensures Accounting(m')
  {
    PlacesAreInRange(l);
    forall g | UserFrame(m', g)
      ensures m'.counts[g] == |Refs(m', g)|
    {
      forall k ensures k in Refs(m', g) <==> k in Refs(m, g) && !(k == l && g == f) {
        PlacesAreInRange(k);
      }
      assert Refs(m', g) == if g == f then Refs(m, g) - {l} else Refs(m, g);
    }
    assert Zeros(m'.counts) == if m.counts[f] == 1 then Zeros(m.counts) + {f} else Zeros(m.counts);
    assert f !in Zeros(m.counts);
  }

  /** The same places name the same frames: accounting survives. */
  lemma SameNamesKeepAccounting(m: Mem, m': Mem)
    requires Shape(m) && Shape(m') && Accounting(m) && m'.counts == m.counts && m'.free == m.free
    requires forall k, f :: InRange(k) ==> Names(m', k, f) == Names(m, k, f)
    ensures Accounting(m')
  {
    forall g | UserFrame(m', g)
      ensures m'.counts[g] == |Refs(m', g)|
    {
      forall k ensures k in Refs(m', g) <==> k in Refs(m, g) {
        PlacesAreInRange(k);
      }
      assert Refs(m', g) == Refs(m, g);
    }
  }

  /** A frame nobody counts is not a page table and is not mapped. */
  lemma FreeFrameIsUnnamed(m: Mem, f: nat)
    requires Inv(m) && UserFrame(m, f) && m.counts[f] == 0
    ensures forall p, d :: HasTable(m, p, d) ==> TableFrame(m, p, d) != f
    ensures forall l :: Mapped(m, l) ==> EntryAt(m, l).index != f
  {
    forall l | Mapped(m, l)
      ensures EntryAt(m, l).index != f
    {
      if EntryAt(m, l).index == f {
        NamedIsCounted(m, l, f);
      }
    }
  }

  /** Two directory entries never name the same table, and a mapped page is not a table. */
  lemma TablesAreDistinct(m: Mem)
    requires Inv(m)
    ensures forall p, d, p', d' :: HasTable(m, p, d) && HasTable(m, p', d') && TableFrame(m, p, d) == TableFrame(m, p', d')
                                  ==> p == p' && d == d'
    ensures forall l, p, d :: Mapped(m, l) && HasTable(m, p, d) ==> EntryAt(m, l).index != TableFrame(m, p, d)
  {
    forall p, d, p', d' | HasTable(m, p, d) && HasTable(m, p', d') && TableFrame(m, p, d) == TableFrame(m, p', d')
      ensures p == p' && d == d'
    {
      TableFrameIsPrivate(m, p, d, Pde(p', d'));
    }
    forall l, p, d | Mapped(m, l) && HasTable(m, p, d)
      ensures EntryAt(m, l).index != TableFrame(m, p, d)
    {
      if EntryAt(m, l).index == TableFrame(m, p, d) {
        TableFrameIsPrivate(m, p, d, l);
      }
    }
  }

  // ------------------------------- the elementary steps keep the invariant

  /** The same tables, holding the same entries everywhere but at `l`. */
  ghost predicate SameExceptAt(m: Mem, m': Mem, l: Place)
    requires Shape(m)
  {
    && Shape(m') && |m'.counts| == |m.counts|
    && (forall p, d :: HasTable(m', p, d) == HasTable(m, p, d))
    && (forall p, d :: HasTable(m, p, d) ==> TableFrame(m', p, d) == TableFrame(m, p, d))
    && (forall k :: k != l ==> Mapped(m', k) == Mapped(m, k))
    && (forall k :: k != l && Mapped(m, k) ==> EntryAt(m', k) == EntryAt(m, k))
  }

  /** Setting one entry, and rewriting one frame that is no table, touches nothing else. */
  lemma SetEntryTouchesOnly(m: Mem, m': Mem, l: Place, w: Word, f: nat, pg: Page)
    requires Inv(m) && l.Pte? && HasTable(m, l.p, l.d) && l.t < ENTRIES && f < |m.frames|
    requires forall p, d :: HasTable(m, p, d) ==> TableFrame(m, p, d) != f
    requires m'.dirs == m.dirs && |m'.counts| == |m.counts| && m'.counts[0] > 0
    requires m'.frames == m.frames[f := pg][TableFrame(m, l.p, l.d) := TableAt(m, l.p, l.d)[l.t := w]]
    ensures SameExceptAt(m, m', l)
    ensures EntryAt(m', l) == w
  {
    hide Accounting, EntriesOk, SharersAgree;
    assert forall p, d :: HasTable(m', p, d) == HasTable(m, p, d);
    TablesAreDistinct(m);
    forall p, d | HasTable(m, p, d) && Pde(p, d) != Pde(l.p, l.d)
      ensures TableAt(m', p, d) == TableAt(m, p, d)
    {}
    forall k | k != l && k.Pte? && HasTable(m, k.p, k.d) && k.t < ENTRIES
      ensures EntryAt(m', k) == EntryAt(m, k)
    {}
  }

  /** The same entries everywhere; tables may have come or gone. */
  ghost predicate SameEntries(m: Mem, m': Mem)
    requires Shape(m)
  {
    && Shape(m') && |m'.counts| == |m.counts|
    && (forall k :: Mapped(m', k) == Mapped(m, k))
    && (forall k :: Mapped(m, k) ==> EntryAt(m', k) == EntryAt(m, k))
  }

  lemma SameEntriesStayOk(m: Mem, m': Mem, f: nat)
    requires Inv(m) && SameEntries(m, m') && f < |m.counts|
    requires forall g :: 0 <= g < |m.counts| && g != f ==> m'.counts[g] == m.counts[g]
    requires forall k :: Mapped(m, k) ==> EntryAt(m, k).index != f
    ensures EntriesOk(m') && SharersAgree(m')
  {}

  lemma AddTableStructure(m: Mem, p: nat, d: nat, f: nat)
    requires Inv(m) && UserFrame(m, f) && m.counts[f] == 0
    requires p < TASK_NR && m.dirs[p].Some? && d < USER_DIRS && !HasTable(m, p, d)
    ensures SameEntries(m, AddTable(m, p, d, f))
    ensures forall q, e :: HasTable(AddTable(m, p, d, f), q, e) <==> HasTable(m, q, e) || (q == p && e == d)
    ensures forall q, e :: HasTable(m, q, e) ==> TableFrame(AddTable(m, p, d, f), q, e) == TableFrame(m, q, e) != f
    ensures TableFrame(AddTable(m, p, d, f), p, d) == f
  {
    hide Accounting, EntriesOk, SharersAgree;
    var m' := AddTable(m, p, d, f);
    FreeFrameIsUnnamed(m, f);
    assert forall q, e :: HasTable(m', q, e) <==> HasTable(m, q, e) || (q == p && e == d);
    assert forall q, e :: HasTable(m, q, e) ==> TableFrame(m', q, e) == TableFrame(m, q, e) != f;
    assert Shape(m');
    assert forall q, e :: HasTable(m, q, e) ==> TableAt(m', q, e) == TableAt(m, q, e);
    forall k ensures Mapped(m', k) <==> Mapped(m, k) {}
  }

  lemma AddTableKeepsInv(m: Mem, p: nat, d: nat, f: nat)
    requires Inv(m) && UserFrame(m, f) && m.counts[f] == 0
    requires p < TASK_NR && m.dirs[p].Some? && d < USER_DIRS && !HasTable(m, p, d)
    ensures Inv(AddTable(m, p, d, f))
  {
    var m' := AddTable(m, p, d, f);
    AddTableStructure(m, p, d, f);
    FreeFrameIsUnnamed(m, f);
    GainKeepsAccounting(m, m', Pde(p, d), f);
    SameEntriesStayOk(m, m', f);
  }

  lemma AddPageEntries(m: Mem, m': Mem, l: Place, f: nat)
    requires Inv(m) && UserFrame(m, f) && m.counts[f] == 0 && l.Pte? && HasTable(m, l.p, l.d) && l.t < ENTRIES
    requires SameExceptAt(m, m', l) && Mapped(m', l) && EntryAt(m', l) == UserEntry(f) && m'.counts == m.counts[f := 1]
    ensures EntriesOk(m') && SharersAgree(m') && TablesUnshared(m')
  {
    FreeFrameIsUnnamed(m, f);
    hide Accounting;
    forall k | Mapped(m', k)
      ensures EntryOk(m', EntryAt(m', k))
    {
      if k != l {
        EntryIsOk(m, k);
      }
    }
  }

  lemma AddPageKeepsInv(m: Mem, l: Place, f: nat, pg: Page)
    requires Inv(m) && UserFrame(m, f) && m.counts[f] == 0
    requires l.Pte? && HasTable(m, l.p, l.d) && l.t < ENTRIES && !Mapped(m, l)
    ensures Inv(AddPage(m, l.p, l.d, l.t, f, pg))
    ensures SameExceptAt(m, AddPage(m, l.p, l.d, l.t, f, pg), l)
  {
    hide EntriesOk, SharersAgree, TablesUnshared;
    var m' := AddPage(m, l.p, l.d, l.t, f, pg);
    FreeFrameIsUnnamed(m, f);
    SetEntryTouchesOnly(m, m', l, UserEntry(f), f, pg);
    AddPageEntries(m, m', l, f);
    GainKeepsAccounting(m, m', l, f);
  }

  lemma RemovePageStructure(m: Mem, l: Place)
    requires Inv(m) && Mapped(m, l)
    ensures EntryAt(m, l).index < |m.counts| && m.counts[EntryAt(m, l).index] >= 1
    ensures SameExceptAt(m, RemovePage(m, l.p, l.d, l.t), l) && !Mapped(RemovePage(m, l.p, l.d, l.t), l)
  {
    var f := EntryAt(m, l).index;
    NamedIsCounted(m, l, f);
    TablesAreDistinct(m);
    SetEntryTouchesOnly(m, RemovePage(m, l.p, l.d, l.t), l, EntryAt(m, l).(present := false), f, m.frames[f]);
  }

  lemma RemovePageEntries(m: Mem, m': Mem, l: Place)
    requires Inv(m) && Mapped(m, l) && SameExceptAt(m, m', l) && !Mapped(m', l)
    requires var f := EntryAt(m, l).index; f < |m.counts| && m.counts[f] >= 1 && m'.counts == m.counts[f := m.counts[f] - 1]
    ensures EntriesOk(m') && SharersAgree(m') && TablesUnshared(m')
  {
    var f := EntryAt(m, l).index;
    TablesAreDistinct(m);
    forall k | Mapped(m', k)
      ensures EntryOk(m', EntryAt(m', k))
    {
      EntryIsOk(m, k);
      if EntryAt(m, k).index == f {
        TwoNamesCountTwo(m, l, k, f);
      }
    }
  }

  lemma RemovePageKeepsInv(m: Mem, l: Place)
    requires Inv(m) && Mapped(m, l)
    ensures EntryAt(m, l).index < |m.counts| && m.counts[EntryAt(m, l).index] >= 1
    ensures Inv(RemovePage(m, l.p, l.d, l.t))
    ensures SameExceptAt(m, RemovePage(m, l.p, l.d, l.t), l)
    ensures !Mapped(RemovePage(m, l.p, l.d, l.t), l)
  {
    EntryIsOk(m, l);
    hide EntriesOk, SharersAgree, TablesUnshared;
    var f := EntryAt(m, l).index;
    RemovePageStructure(m, l);
    var m' := RemovePage(m, l.p, l.d, l.t);
    RemovePageEntries(m, m', l);
    LossKeepsAccounting(m, m', l, f);
  }

  lemma RemoveTableStructure(m: Mem, m': Mem, p: nat, d: nat, w: Word)
    requires Inv(m) && HasTable(m, p, d) && (forall t :: !Mapped(m, Pte(p, d, t)))
    requires m'.dirs == m.dirs[p := Some(m.dirs[p].value[d := w])] && !w.present
    requires m'.frames == m.frames && |m'.counts| == |m.counts| && m'.counts[0] > 0
    ensures SameEntries(m, m')
    ensures forall q, e :: HasTable(m', q, e) <==> HasTable(m, q, e) && !(q == p && e == d)
    ensures forall q, e :: HasTable(m', q, e) ==> TableFrame(m', q, e) == TableFrame(m, q, e)
  {
    hide Accounting, EntriesOk, SharersAgree;
    assert forall q, e :: HasTable(m', q, e) <==> HasTable(m, q, e) && !(q == p && e == d);
    assert forall q, e :: HasTable(m', q, e) ==> TableFrame(m', q, e) == TableFrame(m, q, e);
    assert Shape(m');
    forall k ensures Mapped(m', k) <==> Mapped(m, k) {
      if Mapped(m, k) {
        assert !Mapped(m, Pte(p, d, k.t));
      }
    }
  }

  lemma RemoveTableKeepsInv(m: Mem, p: nat, d: nat)
    requires Inv(m) && HasTable(m, p, d) && (forall t :: !Mapped(m, Pte(p, d, t)))
    ensures Inv(RemoveTable(m, p, d))
  {
    var f := TableFrame(m, p, d);
    RemoveTableStructure(m, RemoveTable(m, p, d), p, d, m.dirs[p].value[d].(present := false));
    TablesAreDistinct(m);
    LossKeepsAccounting(m, RemoveTable(m, p, d), Pde(p, d), f);
    SameEntriesStayOk(m, RemoveTable(m, p, d), f);
  }

  lemma SetFlagsStructure(m: Mem, m': Mem, l: Place, w: Word)
    requires Inv(m) && Mapped(m, l) && w.present && w.index == EntryAt(m, l).index && w.index < |m.frames|
    requires m'.dirs == m.dirs && m'.counts == m.counts && m'.free == m.free
    requires m'.frames == m.frames[TableFrame(m, l.p, l.d) := TableAt(m, l.p, l.d)[l.t := w]]
    ensures SameExceptAt(m, m', l) && Mapped(m', l) && EntryAt(m', l) == w && Accounting(m')
  {
    TablesAreDistinct(m);
    SetEntryTouchesOnly(m, m', l, w, w.index, m.frames[w.index]);
    forall k, f | InRange(k) ensures Names(m', k, f) == Names(m, k, f) {}
    SameNamesKeepAccounting(m, m');
  }

  lemma SetFlagsSharing(m: Mem, m': Mem, l: Place, w: Word)
    requires Inv(m) && Mapped(m, l) && SameExceptAt(m, m', l) && Mapped(m', l) && EntryAt(m', l) == w
    requires w.index == EntryAt(m, l).index && UserFrame(m, w.index)
    requires w.shared == EntryAt(m, l).shared || m.counts[w.index] == 1
    ensures SharersAgree(m')
  {
    forall k | k != l && Mapped(m, k) && EntryAt(m, k).index == w.index
      ensures EntryAt(m, k).shared == w.shared && k.d == l.d && k.t == l.t
    {
      if m.counts[w.index] == 1 {
        TwoNamesCountTwo(m, l, k, w.index);
      }
    }
  }

  /** Changing the flag bits of a present entry. */
  lemma SetFlagsKeepsInv(m: Mem, l: Place, w: Word)
    requires Inv(m) && Mapped(m, l)
    requires w.present && w.index == EntryAt(m, l).index && EntryOk(m, w)
    requires w.shared == EntryAt(m, l).shared || m.counts[w.index] == 1
    ensures Inv(SetEntry(m, l.p, l.d, l.t, w))
    ensures SameExceptAt(m, SetEntry(m, l.p, l.d, l.t, w), l)
  {
    var m' := SetEntry(m, l.p, l.d, l.t, w);
    SetFlagsStructure(m, m', l, w);
    SetFlagsSharing(m, m', l, w);
  }

  /** Writing user data: the target frame is no page table. */
  lemma WriteFrameStructure(m: Mem, l: Place, pg: Page)
    requires Inv(m) && Mapped(m, l)
    ensures SameEntries(m, WriteFrame(m, EntryAt(m, l).index, pg))
    ensures forall q, e :: HasTable(WriteFrame(m, EntryAt(m, l).index, pg), q, e) == HasTable(m, q, e)
    ensures forall q, e :: HasTable(m, q, e) ==> TableFrame(WriteFrame(m, EntryAt(m, l).index, pg), q, e) == TableFrame(m, q, e)
  {
    hide Accounting, SharersAgree;
    var m' := WriteFrame(m, EntryAt(m, l).index, pg);
    TablesAreDistinct(m);
    assert forall q, e :: HasTable(m', q, e) == HasTable(m, q, e);
    assert Shape(m');
    assert forall q, e :: HasTable(m, q, e) ==> TableAt(m', q, e) == TableAt(m, q, e);
    forall k ensures Mapped(m', k) <==> Mapped(m, k) {}
  }

  lemma WriteFrameKeepsInv(m: Mem, l: Place, pg: Page)
    requires Inv(m) && Mapped(m, l)
    ensures Inv(WriteFrame(m, EntryAt(m, l).index, pg))
  {
    var m' := WriteFrame(m, EntryAt(m, l).index, pg);
    WriteFrameStructure(m, l, pg);
    forall k, f | InRange(k)
      ensures Names(m', k, f) == Names(m, k, f)
    {}
    SameNamesKeepAccounting(m, m');
    assert TablesUnshared(m') && EntriesOk(m') && SharersAgree(m');
  }
}
