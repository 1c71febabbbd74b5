/** `copy_pte`: duplicating an address space by sharing its frames. */
module Fork {
  import opened Basics
  import opened Paging

  function ProtectedWord(w: Word): Word {
    if w.present && !w.shared then w.(write := false) else w
  }

  /** A table after the pass that takes the write permission away. */
  function Protected(t: Page): Page {
    seq(ENTRIES, j requires 0 <= j < ENTRIES => ProtectedWord(t[j]))
  }

  /** Where the first `n` entries of a table name frame `f`. */
  ghost function Occurrences(t: Page, n: nat, f: int): set<nat>
    requires n <= ENTRIES
  {
    set j: nat | j < n && t[j].present && t[j].index == f
  }

  /** One more reference for every entry among the first `n`. */
  ghost function Bumped(counts: seq<nat>, t: Page, n: nat): seq<nat>
    requires n <= ENTRIES
  {
    seq(|counts|, f requires 0 <= f < |counts| => counts[f] + |Occurrences(t, n, f)|)
  }

  lemma OccurrencesStep(t: Page, j: nat, f: int)
    requires j < ENTRIES
    ensures |Occurrences(t, j + 1, f)| == |Occurrences(t, j, f)| + if t[j].present && t[j].index == f then 1 else 0
  {
    var before, after := Occurrences(t, j, f), Occurrences(t, j + 1, f);
    assert forall k: nat :: k in before ==> k < j;
    assert forall k: nat :: k in after <==> k in before || (k == j && t[j].present && t[j].index == f);
    if t[j].present && t[j].index == f {
      assert after == before + {j};
    } else {
      assert after == before;
    }
  }

  lemma OccurrencesMonotone(t: Page, j: nat, k: nat, f: int)
    requires j <= k <= ENTRIES
    ensures |Occurrences(t, j, f)| <= |Occurrences(t, k, f)|
  {
    SubsetCardinality(Occurrences(t, j, f), Occurrences(t, k, f));
  }

  /** The copy of page table `d` of `p` goes to `c`, in frame `f`. */
  ghost function ForkTable(m: Mem, p: nat, c: nat, d: nat, f: nat): Mem
    requires Shape(m) && HasTable(m, p, d) && f < |m.counts| && c < TASK_NR && m.dirs[c].Some?
  {
    var table := TableAt(m, p, d);
    SetDir(m, c, d, UserEntry(f)).(
      counts := Bumped(m.counts[f := 1], table, ENTRIES),
      free := m.free - 1,
      frames := m.frames[TableFrame(m, p, d) := Protected(table)][f := Protected(table)])
  }

  ghost predicate CanForkTable(m: Mem, p: nat, c: nat, d: nat, f: nat) {
    && Inv(m) && HasTable(m, p, d) && c < TASK_NR && c != p && m.dirs[c].Some? && !HasTable(m, c, d)
    && UserFrame(m, f) && m.counts[f] == 0
  }

  // ------------------------------------------------------------- structure

  ghost predicate ForkStructure(m: Mem, m': Mem, p: nat, c: nat, d: nat, f: nat)
    requires Shape(m) && HasTable(m, p, d)
  {
    && Shape(m') && |m'.counts| == |m.counts|
    && (forall q, e :: HasTable(m', q, e) <==> HasTable(m, q, e) || (q == c && e == d))
    && (forall q, e :: HasTable(m, q, e) ==> TableFrame(m', q, e) == TableFrame(m, q, e))
    && TableFrame(m', c, d) == f
    && (forall k :: Mapped(m', k) <==> Mapped(m, k) || (k.Pte? && k.p == c && k.d == d && Mapped(m, Pte(p, d, k.t))))
    && (forall k :: Mapped(m, k) ==> EntryAt(m', k) == (if k.p == p && k.d == d then ProtectedWord(EntryAt(m, k)) else EntryAt(m, k)))
    && (forall t :: Mapped(m, Pte(p, d, t)) ==> EntryAt(m', Pte(c, d, t)) == ProtectedWord(EntryAt(m, Pte(p, d, t))))
  }

  lemma ForkTableDirectories(m: Mem, m': Mem, p: nat, c: nat, d: nat, f: nat)
    requires CanForkTable(m, p, c, d, f)
    requires m'.dirs == m.dirs[c := Some(m.dirs[c].value[d := UserEntry(f)])] && |m'.counts| == |m.counts| && m'.counts[0] > 0
    requires m'.frames == m.frames[TableFrame(m, p, d) := Protected(TableAt(m, p, d))][f := Protected(TableAt(m, p, d))]
    ensures Shape(m')
    ensures forall q, e :: HasTable(m', q, e) <==> HasTable(m, q, e) || (q == c && e == d)
    ensures forall q, e :: HasTable(m, q, e) ==> TableFrame(m', q, e) == TableFrame(m, q, e)
    ensures TableFrame(m', c, d) == f
    ensures forall q, e :: HasTable(m, q, e) && !(q == p && e == d) ==> TableAt(m', q, e) == TableAt(m, q, e)
    ensures TableAt(m', p, d) == TableAt(m', c, d) == Protected(TableAt(m, p, d))
  {
    hide Accounting, EntriesOk, SharersAgree;
    FreeFrameIsUnnamed(m, f);
    TablesAreDistinct(m);
    assert forall q, e :: HasTable(m', q, e) <==> HasTable(m, q, e) || (q == c && e == d);
    assert forall q, e :: HasTable(m, q, e) ==> TableFrame(m', q, e) == TableFrame(m, q, e) != f;
    assert Shape(m');
  }

  lemma ForkTableStructure(m: Mem, m': Mem, p: nat, c: nat, d: nat, f: nat)
    requires CanForkTable(m, p, c, d, f)
    requires m'.dirs == m.dirs[c := Some(m.dirs[c].value[d := UserEntry(f)])] && |m'.counts| == |m.counts| && m'.counts[0] > 0
    requires m'.frames == m.frames[TableFrame(m, p, d) := Protected(TableAt(m, p, d))][f := Protected(TableAt(m, p, d))]
    ensures ForkStructure(m, m', p, c, d, f)
  {
    hide Accounting, EntriesOk, SharersAgree;
    ForkTableDirectories(m, m', p, c, d, f);
    forall k
      ensures Mapped(m', k) <==> Mapped(m, k) || (k.Pte? && k.p == c && k.d == d && Mapped(m, Pte(p, d, k.t)))
    {
      if k.Pte? && k.t < ENTRIES && HasTable(m', k.p, k.d) {
        if k.p == c && k.d == d {
        } else if k.p == p && k.d == d {
        } else {
          assert TableAt(m', k.p, k.d) == TableAt(m, k.p, k.d);
        }
      }
    }
  }

  // ------------------------------------------------------------ accounting

  lemma ForkTableNames(m: Mem, m': Mem, p: nat, c: nat, d: nat, f: nat, g: nat, k: Place)
    requires CanForkTable(m, p, c, d, f) && ForkStructure(m, m', p, c, d, f) && UserFrame(m, g) && InRange(k)
    ensures Names(m', k, g) <==>
              || Names(m, k, g)
              || (k.Pte? && k.p == c && k.d == d && k.t in Occurrences(TableAt(m, p, d), ENTRIES, g))
              || (g == f && k == Pde(c, d))
  {
    if k.Pte? && k.p == c && k.d == d {
      assert !Mapped(m, k);
      assert Mapped(m, Pte(p, d, k.t)) <==> TableAt(m, p, d)[k.t].present;
    }
  }

  /** A frame in use gains one name for each of its occurrences in the copied table. */
  lemma ForkTableRefsOld(m: Mem, m': Mem, p: nat, c: nat, d: nat, f: nat, g: nat)
    requires CanForkTable(m, p, c, d, f) && ForkStructure(m, m', p, c, d, f) && UserFrame(m, g) && g != f
    ensures |Refs(m', g)| == |Refs(m, g)| + |Occurrences(TableAt(m, p, d), ENTRIES, g)|
  {
    hide Accounting, EntriesOk, SharersAgree, TablesUnshared;
    var occ := Occurrences(TableAt(m, p, d), ENTRIES, g);
    var added := set j | j in occ :: Pte(c, d, j);
    BijectionCardinality(occ, added, j => Pte(c, d, j));
    ForkTableAdds(m, m', p, c, d, f, g, added);
  }

  lemma ForkTableAdds(m: Mem, m': Mem, p: nat, c: nat, d: nat, f: nat, g: nat, added: set<Place>)
    requires CanForkTable(m, p, c, d, f) && ForkStructure(m, m', p, c, d, f) && UserFrame(m, g) && g != f
    requires added == set j | j in Occurrences(TableAt(m, p, d), ENTRIES, g) :: Pte(c, d, j)
    ensures Refs(m', g) == Refs(m, g) + added && Refs(m, g) !! added
  {
    hide Accounting, EntriesOk, SharersAgree, TablesUnshared;
    forall k
      ensures k in Refs(m', g) <==> k in Refs(m, g) || k in added
    {
      PlacesAreInRange(k);
      if InRange(k) {
        ForkTableNames(m, m', p, c, d, f, g, k);
      }
    }
    forall k | k in added ensures k !in Refs(m, g) {
      assert !Mapped(m, k);
    }
  }

  /** The frame of the new table is named by its directory entry alone. */
  lemma ForkTableRefsNew(m: Mem, m': Mem, p: nat, c: nat, d: nat, f: nat)
    requires CanForkTable(m, p, c, d, f) && ForkStructure(m, m', p, c, d, f)
    ensures Refs(m', f) == {Pde(c, d)} && Occurrences(TableAt(m, p, d), ENTRIES, f) == {}
  {
    NamedByNobody(m, f);
    UnnamedHasNoOccurrence(m, p, d, f);
    hide Accounting, EntriesOk, SharersAgree, TablesUnshared;
    forall k
      ensures k in Refs(m', f) <==> k == Pde(c, d)
    {
      PlacesAreInRange(k);
      assert k !in Refs(m, f);
      if InRange(k) {
        ForkTableNames(m, m', p, c, d, f, f, k);
      }
    }
  }

  lemma NamedByNobody(m: Mem, f: nat)
    requires Inv(m) && UserFrame(m, f) && m.counts[f] == 0
    ensures Refs(m, f) == {}
  {}

  lemma ForkTableZeros(m: Mem, p: nat, c: nat, d: nat, f: nat)
    requires CanForkTable(m, p, c, d, f)
    ensures Zeros(ForkTable(m, p, c, d, f).counts) == Zeros(m.counts) - {f} && f in Zeros(m.counts)
  {
    var m' := ForkTable(m, p, c, d, f);
    forall g: nat | g < |m.counts| && g != f
      ensures m'.counts[g] == 0 <==> m.counts[g] == 0
    {
      if m.counts[g] == 0 {
        UnnamedHasNoOccurrence(m, p, d, g);
      }
    }
  }

  lemma ForkTableKeepsAccounting(m: Mem, p: nat, c: nat, d: nat, f: nat)
    requires CanForkTable(m, p, c, d, f)
    requires ForkStructure(m, ForkTable(m, p, c, d, f), p, c, d, f)
    ensures Accounting(ForkTable(m, p, c, d, f))
  {
    hide EntriesOk, SharersAgree, TablesUnshared;
    var m' := ForkTable(m, p, c, d, f);
    forall g | UserFrame(m', g)
      ensures m'.counts[g] == |Refs(m', g)|
    {
      if g == f {
        ForkTableRefsNew(m, m', p, c, d, f);
      } else {
        ForkTableRefsOld(m, m', p, c, d, f, g);
      }
    }
    ForkTableZeros(m, p, c, d, f);
  }

  lemma UnnamedHasNoOccurrence(m: Mem, p: nat, d: nat, g: nat)
    requires Inv(m) && HasTable(m, p, d) && g < |m.counts| && m.counts[g] == 0
    ensures Occurrences(TableAt(m, p, d), ENTRIES, g) == {}
  {
    if j :| j in Occurrences(TableAt(m, p, d), ENTRIES, g) {
      assert Mapped(m, Pte(p, d, j));
      NamedIsCounted(m, Pte(p, d, j), g);
    }
  }

  /** Kernel frames are never named by user tables, so `copy_pte` leaves their counts. */
  lemma KernelCountsStay(m: Mem, p: nat, d: nat, g: nat)
    requires Inv(m) && HasTable(m, p, d) && g < FIRST_USER_FRAME
    ensures Occurrences(TableAt(m, p, d), ENTRIES, g) == {}
  {
    if j :| j in Occurrences(TableAt(m, p, d), ENTRIES, g) {
      assert Mapped(m, Pte(p, d, j));
    }
  }

  // -------------------------------------------------------------- invariant

  lemma ForkTableKeepsInv(m: Mem, p: nat, c: nat, d: nat, f: nat)
    requires CanForkTable(m, p, c, d, f)
    ensures Inv(ForkTable(m, p, c, d, f))
    ensures ForkStructure(m, ForkTable(m, p, c, d, f), p, c, d, f)
  {
    var m' := ForkTable(m, p, c, d, f);
    ForkTableStructure(m, m', p, c, d, f);
    ForkTableKeepsAccounting(m, p, c, d, f);
    ForkTableTables(m, p, c, d, f);
    ForkTableEntries(m, p, c, d, f);
    ForkTableSharing(m, m', p, c, d, f);
  }

  lemma ForkTableTables(m: Mem, p: nat, c: nat, d: nat, f: nat)
    requires CanForkTable(m, p, c, d, f)
    requires ForkStructure(m, ForkTable(m, p, c, d, f), p, c, d, f)
    ensures TablesUnshared(ForkTable(m, p, c, d, f))
  {
    var m' := ForkTable(m, p, c, d, f);
    var table := TableAt(m, p, d);
    FreeFrameIsUnnamed(m, f);
    TablesAreDistinct(m);
    forall q, e | HasTable(m', q, e)
      ensures m'.counts[TableFrame(m', q, e)] == 1
    {
      var g := TableFrame(m', q, e);
      assert Occurrences(table, ENTRIES, g) == {} by {
        if j :| j in Occurrences(table, ENTRIES, g) {
          assert Mapped(m, Pte(p, d, j));
        }
      }
    }
  }

  lemma ForkTableEntries(m: Mem, p: nat, c: nat, d: nat, f: nat)
    requires CanForkTable(m, p, c, d, f)
    requires ForkStructure(m, ForkTable(m, p, c, d, f), p, c, d, f)
    ensures EntriesOk(ForkTable(m, p, c, d, f))
  {
    var m' := ForkTable(m, p, c, d, f);
    var table := TableAt(m, p, d);
    FreeFrameIsUnnamed(m, f);
    forall k | Mapped(m', k)
      ensures EntryOk(m', EntryAt(m', k))
    {
      if Mapped(m, k) && !(k.p == p && k.d == d) {
        var w := EntryAt(m, k);
        if w.write && !w.shared {
          assert Occurrences(table, ENTRIES, w.index) == {} by {
            if j :| j in Occurrences(table, ENTRIES, w.index) {
              assert Mapped(m, Pte(p, d, j));
              TwoNamesCountTwo(m, k, Pte(p, d, j), w.index);
            }
          }
        }
      } else {
        assert Mapped(m, Pte(p, d, k.t));
      }
    }
  }

  /** The assertion on the counts in `copy_pte` holds. */
  lemma ForkTableCountsFit(m: Mem, p: nat, c: nat, d: nat, f: nat, g: nat)
    requires CanForkTable(m, p, c, d, f) && UserFrame(m, g)
    ensures ForkTable(m, p, c, d, f).counts[g] < MAX_COUNT
  {
    ForkTableKeepsInv(m, p, c, d, f);
    CountAtMostTasks(ForkTable(m, p, c, d, f), g);
  }

  /** The entry of `m` that an entry of the forked memory stems from. */
  ghost function Origin(m: Mem, p: nat, d: nat, k: Place): Place
    requires Shape(m)
  {
    if Mapped(m, k) || k.Pde? then k else Pte(p, d, k.t)
  }

  lemma ForkTableSharing(m: Mem, m': Mem, p: nat, c: nat, d: nat, f: nat)
    requires CanForkTable(m, p, c, d, f) && ForkStructure(m, m', p, c, d, f)
    ensures SharersAgree(m')
  {
    forall k | Mapped(m', k)
      ensures Mapped(m, Origin(m, p, d, k))
      ensures EntryAt(m', k).index == EntryAt(m, Origin(m, p, d, k)).index
      ensures EntryAt(m', k).shared == EntryAt(m, Origin(m, p, d, k)).shared
      ensures k.d == Origin(m, p, d, k).d && k.t == Origin(m, p, d, k).t
    {
      if !Mapped(m, k) {
        assert Mapped(m, Pte(p, d, k.t));
      }
    }
    forall l, k | Mapped(m', l) && Mapped(m', k) && EntryAt(m', l).index == EntryAt(m', k).index
      ensures EntryAt(m', l).shared == EntryAt(m', k).shared && l.d == k.d && l.t == k.t
    {
      assert Mapped(m, Origin(m, p, d, l)) && Mapped(m, Origin(m, p, d, k));
    }
  }
}
