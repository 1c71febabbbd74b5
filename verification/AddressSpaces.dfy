/** The memory manager itself: tables and counts updated in place, each routine
    held to its function in `CopyOnWrite`. */
module AddressSpaces {
  import opened Basics
  import opened Paging
  import opened Fork
  import opened CopyOnWrite
  import opened VmRuns

  datatype Fault = Served | Dead | Stopped

  /** `dirs` are the directories of `n`, save that the child's entries from `d` up
      are still those of the parent, present or not. */
  ghost predicate MaskedFrom(n: Mem, dirs: seq<Option<Directory>>, p: nat, c: nat, d: nat) {
    && |dirs| == |n.dirs| == TASK_NR && p < TASK_NR && c < TASK_NR && p != c
    && dirs[p].Some? && dirs[c].Some? && n.dirs[c].Some?
    && (forall q :: 0 <= q < TASK_NR && q != c ==> dirs[q] == n.dirs[q])
    && (forall e :: 0 <= e < USER_DIRS && e < d ==> n.dirs[c].value[e] == dirs[c].value[e])
    && (forall e :: 0 <= e < USER_DIRS && d <= e ==>
          dirs[c].value[e] == dirs[p].value[e] && n.dirs[c].value[e] == dirs[p].value[e].(present := false))
  }

  lemma MaskedStart(m: Mem, dirs: seq<Option<Directory>>, p: nat, c: nat)
    requires |m.dirs| == TASK_NR && p < TASK_NR && Live(m, p) && c < TASK_NR && !Live(m, c)
    requires dirs == m.dirs[c := m.dirs[p]]
    ensures MaskedFrom(NewSpace(m, p, c), dirs, p, c, 0)
  {}

  /** What the directories tell about the tables that `copy_pte` looks at next. */
  lemma MaskedHas(n: Mem, dirs: seq<Option<Directory>>, p: nat, c: nat, d: nat)
    requires MaskedFrom(n, dirs, p, c, d) && d < USER_DIRS
    ensures |dirs| == |n.dirs| == TASK_NR && p < TASK_NR && c < TASK_NR && p != c && dirs[p].Some? && dirs[c].Some?
    ensures Live(n, p) && Live(n, c) && dirs[p] == n.dirs[p]
    ensures HasTable(n, p, d) == dirs[p].value[d].present && !HasTable(n, c, d)
  {}

  lemma MaskedFork(n: Mem, dirs: seq<Option<Directory>>, dirs': seq<Option<Directory>>, p: nat, c: nat, d: nat, f: nat)
    requires Shape(n) && MaskedFrom(n, dirs, p, c, d) && HasTable(n, p, d) && f < |n.counts|
    requires dirs' == dirs[c := Some(dirs[c].value[d := UserEntry(f)])]
    ensures MaskedFrom(ForkTable(n, p, c, d, f), dirs', p, c, d + 1)
  {
    assert ForkTable(n, p, c, d, f).dirs == n.dirs[c := Some(n.dirs[c].value[d := UserEntry(f)])];
  }

  lemma MaskedSkip(n: Mem, dirs: seq<Option<Directory>>, p: nat, c: nat, d: nat)
    requires MaskedFrom(n, dirs, p, c, d) && d < USER_DIRS && !HasTable(n, p, d)
    ensures MaskedFrom(n, dirs, p, c, d + 1)
  {
    assert dirs[p] == n.dirs[p];
  }

  lemma MaskedDone(n: Mem, dirs: seq<Option<Directory>>, p: nat, c: nat)
    requires MaskedFrom(n, dirs, p, c, USER_DIRS)
    ensures n.dirs == dirs
  {
    assert n.dirs[c].value == dirs[c].value;
  }

  class Memory {
    const memMap: array<nat>
    const frames: array<Page>
    const dirs: array<Option<Directory>>
    var freePages: int

    ghost function Snap(): Mem
      reads this, memMap, frames, dirs
    {
      Mem(memMap[..], freePages, frames[..], dirs[..])
    }

    ghost predicate Valid()
      reads this, memMap, frames, dirs
    {
      Inv(Snap())
    }

    /** `memory_map_init`: the first megabyte and the table itself are taken. */
    constructor (total: nat)
      requires FIRST_USER_FRAME <= total <= 0x10_0000
      ensures fresh(memMap) && fresh(frames) && fresh(dirs)
      ensures Booted(Snap()) && |Snap().counts| == total && Valid()
    {
      memMap := new nat[total];
      frames := new Page[total];
      dirs := new Option<Directory>[TASK_NR](_ => None);
      freePages := total - 256 - (total + 4095) / 4096;
      new;
      var i := 0;
      while i < total
        invariant i <= total
        invariant freePages == total - 256 - (total + 4095) / 4096
        invariant forall q :: 0 <= q < TASK_NR ==> dirs[q] == None
        invariant forall k :: 0 <= k < i ==> memMap[k] == 0
      {
        memMap[i] := 0;
        i := i + 1;
      }
      var start := 256 + (total + 4095) / 4096;
      i := 0;
      while i < start
        invariant i <= start
        invariant freePages == total - 256 - (total + 4095) / 4096
        invariant forall q :: 0 <= q < TASK_NR ==> dirs[q] == None
        invariant forall k :: 0 <= k < total ==> memMap[k] == if k < i then RESERVED else 0
      {
        memMap[i] := RESERVED;
        i := i + 1;
      }
      BootedInv(Snap());
    }

    /** First fit over the user frames; panics (returns None) when memory is out. */
    method GetUserPage() returns (r: Option<nat>)
      requires FIRST_USER_FRAME <= memMap.Length
      modifies this`freePages, memMap
      ensures r == LowestFree(old(Snap()))
      ensures r.Some? ==> Snap() == Take(old(Snap()), r.value)
      ensures r.None? ==> Snap() == old(Snap())
    {
      var i := FIRST_USER_FRAME;
      while i < memMap.Length
        invariant FIRST_USER_FRAME <= i <= memMap.Length
        invariant LowestFree(Snap()) == LowestFreeFrom(memMap[..], i)
        invariant Snap() == old(Snap())
      {
        if memMap[i] == 0 {
          memMap[i] := 1;
          freePages := freePages - 1;
          return Some(i);
        }
        i := i + 1;
      }
      return None;
    }

    /** Gives one reference back. The source asserts that the number of free pages
        ends strictly between zero and the total. */
    method PutUserPage(f: nat)
      requires Shape(Snap()) && UserFrame(Snap(), f) && memMap[f] >= 1
      requires 0 < (if memMap[f] == 1 then freePages + 1 else freePages) < memMap.Length
      modifies this`freePages, memMap
      ensures Snap() == Drop(old(Snap()), f)
    {
      memMap[f] := memMap[f] - 1;
      if memMap[f] == 0 {
        freePages := freePages + 1;
      }
      assert 0 < freePages < memMap.Length;
    }

    /** Finds the entry for place `(p, d, t)`, creating its page table when missing. */
    method GetPte(p: nat, d: nat) returns (table: Option<nat>)
      requires Valid() && p < TASK_NR && Live(Snap(), p) && d < USER_DIRS
      modifies this`freePages, memMap, frames, dirs
      ensures table.Some? <==> EnsureTable(old(Snap()), p, d).Some?
      ensures table.Some? ==> Snap() == EnsureTable(old(Snap()), p, d).value && Valid()
      ensures table.Some? ==> HasTable(Snap(), p, d) && TableFrame(Snap(), p, d) == table.value
    {
      ghost var m := Snap();
      if dirs[p].value[d].present {
        assert HasTable(m, p, d);
        return Some(dirs[p].value[d].index);
      }
      assert !HasTable(m, p, d);
      var f := GetUserPage();
      if f.None? {
        return None;
      }
      AddTableKeepsInv(m, p, d, f.value);
      dirs[p] := Some(dirs[p].value[d := UserEntry(f.value)]);
      frames[f.value] := seq(ENTRIES, _ => ZERO);
      assert Snap() == AddTable(m, p, d, f.value);
      return f;
    }

    method LinkUserPage(p: nat, a: nat) returns (ok: bool)
      requires Valid() && p < TASK_NR && Live(Snap(), p) && UserAddress(a)
      modifies this`freePages, memMap, frames, dirs
      ensures (AddressParts(a); ok <==> LinkPage(old(Snap()), PlaceOf(p, a)).Some?)
      ensures (AddressParts(a); ok ==> Valid() && Snap() == LinkPage(old(Snap()), PlaceOf(p, a)).value)
    {
      hide Accounting, SharersAgree, EntriesOk, TablesUnshared;
      AddressParts(a);
      ghost var m := Snap();
      ghost var l := PlaceOf(p, a);
      var d, t := DirOf(a), EntryOf(a);
      EnsureTableOk(m, p, d);
      LinkPageMaps(m, l);
      var table := GetPte(p, d);
      if table.None? {
        return false;
      }
      ghost var m1 := Snap();
      if frames[table.value][t].present {
        return true;
      }
      var f := GetUserPage();
      if f.None? {
        return false;
      }
      FreeFrameIsUnnamed(m1, f.value);
      frames[table.value] := frames[table.value][t := UserEntry(f.value)];
      assert Snap() == AddPage(m1, p, d, t, f.value, m1.frames[f.value]);
      return true;
    }

    method UnlinkUserPage(p: nat, a: nat) returns (ok: bool)
      requires Valid() && p < TASK_NR && Live(Snap(), p) && UserAddress(a)
      modifies this`freePages, memMap, frames, dirs
      ensures (AddressParts(a); ok <==> UnlinkPage(old(Snap()), PlaceOf(p, a)).Some?)
      ensures (AddressParts(a); ok ==> Valid() && Snap() == UnlinkPage(old(Snap()), PlaceOf(p, a)).value)
    {
      AddressParts(a);
      ghost var m := Snap();
      ghost var l := PlaceOf(p, a);
      var d, t := DirOf(a), EntryOf(a);
      EnsureTableOk(m, p, d);
      var table := GetPte(p, d);
      if table.None? {
        return false;
      }
      ghost var m1 := Snap();
      var w := frames[table.value][t];
      if !w.present {
        return true;
      }
      RemovePageKeepsInv(m1, l);
      if memMap[w.index] > 1 && freePages == 0 {
        return false;  // the assertion in put_user_page fails
      }
      frames[table.value] := frames[table.value][t := w.(present := false)];
      FreeBounds(m1, w.index);
      PutUserPage(w.index);
      assert Snap() == RemovePage(m1, p, d, t);
      return true;
    }

    /** The permission bits that `sys_mmap` gives an entry. */
    method Permit(entry: Word, writable: bool, share: bool, priv: bool) returns (w: Word)
      ensures w == MmapWord(entry, writable, share, priv)
    {
      w := entry.(user := true, write := writable, readonly := !writable);
      if share {
        w := w.(shared := true);
      } else if priv {
        w := w.(privat := true);
      }
    }

    /** One page of `sys_mmap`: link it, then set its permissions. */
    method MmapUserPage(p: nat, a: nat, writable: bool, share: bool, priv: bool) returns (ok: bool)
      requires Valid() && p < TASK_NR && Live(Snap(), p) && UserAddress(a)
      modifies this`freePages, memMap, frames, dirs
      ensures (AddressParts(a); ok <==> MmapPage(old(Snap()), PlaceOf(p, a), writable, share, priv).Some?)
      ensures (AddressParts(a); ok ==> Snap() == MmapPage(old(Snap()), PlaceOf(p, a), writable, share, priv).value)
    {
      hide Accounting, SharersAgree, EntriesOk, TablesUnshared, LinkPage;
      AddressParts(a);
      LinkPageMaps(Snap(), PlaceOf(p, a));
      ok := LinkUserPage(p, a);
      if ok {
        var table := dirs[p].value[DirOf(a)].index;
        var w := Permit(frames[table][EntryOf(a)], writable, share, priv);
        frames[table] := frames[table][EntryOf(a) := w];
      }
    }

    /** Frees the pages and tables of `p`, then its directory. `ok` is false where an
        assertion of `put_user_page` stops the kernel. */
    method SysExit(p: nat) returns (ok: bool)
      requires Valid() && p < TASK_NR && Live(Snap(), p)
      modifies this`freePages, memMap, frames, dirs
      ensures ok <==> Kill(old(Snap()), p).Killed?
      ensures ok ==> Valid() && Snap() == Exit(old(Snap()), p)
    {
      if p < 2 {
        return false;
      }
      ghost var m := Snap();
      ok := FreePte(p);
      if ok {
        dirs[p] := None;
        ExitOk(m, p);
      }
    }

    method FreePte(p: nat) returns (ok: bool)
      requires Valid() && p < TASK_NR && Live(Snap(), p)
      modifies this`freePages, memMap, frames, dirs
      ensures ok <==> FreeFits(old(Snap()), p, 0, 0)
      ensures ok ==> Valid() && Live(Snap(), p) && Snap() == FreeFrom(old(Snap()), p, 0, 0)
    {
      hide Accounting, SharersAgree, EntriesOk, TablesUnshared;
      var d := 0;
      while d < USER_DIRS
        invariant d <= USER_DIRS && Valid() && Live(Snap(), p)
        invariant FreeFrom(old(Snap()), p, 0, 0) == FreeFrom(Snap(), p, d, 0)
        invariant FreeFits(old(Snap()), p, 0, 0) == FreeFits(Snap(), p, d, 0)
      {
        if dirs[p].value[d].present {
          assert HasTable(Snap(), p, d);
          ok := FreeTable(p, d);
          if !ok {
            return;
          }
        } else {
          assert !HasTable(Snap(), p, d);
        }
        d := d + 1;
      }
      ok := true;
    }

    /** One iteration of the inner loop of `free_pte`. */
    method FreeEntry(p: nat, d: nat, t: nat) returns (ok: bool)
      requires Valid() && p < TASK_NR && Live(Snap(), p) && HasTable(Snap(), p, d) && t < ENTRIES
      requires Mapped(Snap(), Pte(p, d, t)) && EntryOk(Snap(), EntryAt(Snap(), Pte(p, d, t)))
      requires memMap[EntryAt(Snap(), Pte(p, d, t)).index] >= 1
      modifies this`freePages, memMap, frames
      ensures ok <==> RemovePage(old(Snap()), p, d, t).free > 0
      ensures ok ==> Snap() == RemovePage(old(Snap()), p, d, t)
    {
      hide Inv;
      ghost var m := Snap();
      InvShape(m);
      var table := dirs[p].value[d].index;
      var w := frames[table][t];
      FreeBounds(m, w.index);
      if memMap[w.index] > 1 && freePages == 0 {
        return false;  // the assertion in put_user_page fails
      }
      PutUserPage(w.index);
      frames[table] := frames[table][t := w.(present := false)];
      ok := true;
    }

    method FreeTableFrame(p: nat, d: nat)
      requires Valid() && p < TASK_NR && Live(Snap(), p) && HasTable(Snap(), p, d)
      modifies this`freePages, memMap, dirs
      ensures TableFrame(old(Snap()), p, d) < |old(Snap()).counts| && old(Snap()).counts[TableFrame(old(Snap()), p, d)] >= 1
      ensures Snap() == RemoveTable(old(Snap()), p, d) && Snap().free > 0
    {
      var table := dirs[p].value[d].index;
      FreeBounds(Snap(), table);
      hide Accounting, SharersAgree, EntriesOk;
      PutUserPage(table);
      dirs[p] := Some(dirs[p].value[d := dirs[p].value[d].(present := false)]);
    }

    /** The inner loop of `free_pte`, and the release of the emptied table. */
    method FreeTable(p: nat, d: nat) returns (ok: bool)
      requires Valid() && p < TASK_NR && Live(Snap(), p) && d < USER_DIRS && HasTable(Snap(), p, d)
      modifies this`freePages, memMap, frames, dirs
      ensures !ok ==> !FreeFits(old(Snap()), p, d, 0)
      ensures ok ==> Valid() && Live(Snap(), p)
      ensures ok ==> FreeFrom(old(Snap()), p, d, 0) == FreeFrom(Snap(), p, d + 1, 0)
      ensures ok ==> FreeFits(old(Snap()), p, d, 0) == FreeFits(Snap(), p, d + 1, 0)
    {
      hide Accounting, SharersAgree, EntriesOk, TablesUnshared;
      var table := dirs[p].value[d].index;
      var t := 0;
      while t < ENTRIES
        invariant t <= ENTRIES && Valid() && Live(Snap(), p) && HasTable(Snap(), p, d) && dirs[p] == old(dirs[p])
        invariant Cleared(Snap(), p, d, t)
        invariant FreeFrom(old(Snap()), p, d, 0) == FreeFrom(Snap(), p, d, t)
        invariant FreeFits(old(Snap()), p, d, 0) == FreeFits(Snap(), p, d, t)
      {
        if frames[table][t].present {
          EntryIsOk(Snap(), Pte(p, d, t));
          ClearPage(Snap(), p, d, t);
          ok := FreeEntry(p, d, t);
          if !ok {
            return;
          }
        } else {
          assert !Mapped(Snap(), Pte(p, d, t));
        }
        t := t + 1;
      }
      ClearTable(Snap(), p, d);
      FreeTableFrame(p, d);
      ok := true;
    }

    // ---------------------------------------------------------------- fork

    /** One page table of `copy_pte`. The child's directory starts as a copy of the
        parent's, so its entries from `d` up still name the parent's tables; `n` is
        the memory with those entries not yet present. */
    method CopyTable(p: nat, c: nat, d: nat, ghost n: Mem) returns (ok: bool)
      requires Inv(n) && p < TASK_NR && HasTable(n, p, d) && c < TASK_NR && c != p && Live(n, c) && !HasTable(n, c, d)
      requires n.counts == memMap[..] && n.free == freePages && n.frames == frames[..]
      requires dirs.Length == TASK_NR && dirs[c].Some? && dirs[p] == n.dirs[p]
      modifies this`freePages, memMap, frames, dirs
      ensures ok <==> LowestFree(n).Some?
      ensures ok ==> var n' := ForkTable(n, p, c, d, LowestFree(n).value);
                     && n'.counts == memMap[..] && n'.free == freePages && n'.frames == frames[..]
                     && dirs[..] == old(dirs[..])[c := Some(old(dirs[c]).value[d := UserEntry(LowestFree(n).value)])]
    {
      var table := dirs[p].value[d].index;
      ghost var orig := n.frames[table];
      var f := GetUserPage();
      if f.None? {
        return false;
      }
      FreeFrameIsUnnamed(n, f.value);
      EntriesInRange(n, p, d);
      assert orig == TableAt(n, p, d);
      forall g: nat | UserFrame(n, g) ensures ForkTable(n, p, c, d, f.value).counts[g] < MAX_COUNT {
        ForkTableCountsFit(n, p, c, d, f.value, g);
      }
      hide SharersAgree, TablesUnshared;
      dirs[c] := Some(dirs[c].value[d := UserEntry(f.value)]);
      ProtectAndCount(table, orig, n.counts[f.value := 1]);
      frames[f.value] := frames[table];
      ok := true;
    }

    /** The inner loop of `copy_pte`. */
    method ProtectAndCount(table: nat, ghost orig: Page, ghost counts: seq<nat>)
      requires table < frames.Length && frames[table] == orig && memMap[..] == counts
      requires forall j :: 0 <= j < ENTRIES && orig[j].present ==> FIRST_USER_FRAME <= orig[j].index < memMap.Length
      requires forall g :: FIRST_USER_FRAME <= g < |counts| ==> Bumped(counts, orig, ENTRIES)[g] < MAX_COUNT
      modifies memMap, frames
      ensures memMap[..] == Bumped(counts, orig, ENTRIES)
      ensures frames[..] == old(frames[..])[table := Protected(orig)]
    {
      assert forall g :: 0 <= g < |counts| ==> Occurrences(orig, 0, g) == {};
      var j := 0;
      while j < ENTRIES
        invariant j <= ENTRIES
        invariant forall g :: 0 <= g < |counts| ==> memMap[g] == counts[g] + |Occurrences(orig, j, g)|
        invariant forall x :: 0 <= x < frames.Length && x != table ==> frames[x] == old(frames[x])
        invariant forall k :: 0 <= k < ENTRIES ==> frames[table][k] == if k < j then ProtectedWord(orig[k]) else orig[k]
      {
        var w := frames[table][j];
        forall g | 0 <= g < |counts|
          ensures |Occurrences(orig, j + 1, g)| == |Occurrences(orig, j, g)| + if w.present && w.index == g then 1 else 0
        {
          OccurrencesStep(orig, j, g);
        }
        if w.present {
          if !w.shared {
            frames[table] := frames[table][j := w.(write := false)];
          }
          memMap[w.index] := memMap[w.index] + 1;
          OccurrencesMonotone(orig, j + 1, ENTRIES, w.index);
          assert memMap[w.index] <= Bumped(counts, orig, ENTRIES)[w.index] < MAX_COUNT;
        }
        j := j + 1;
      }
      assert frames[table] == Protected(orig);
    }

    /** `copy_pde` and the outer loop of `copy_pte`. */
    method CopyPte(p: nat, c: nat) returns (ok: bool)
      requires Valid() && p < TASK_NR && Live(Snap(), p) && c < TASK_NR && !Live(Snap(), c)
      modifies this`freePages, memMap, frames, dirs
      ensures ok <==> ForkUpTo(old(Snap()), p, c, USER_DIRS).Some?
      ensures ok ==> Valid() && Snap() == ForkUpTo(old(Snap()), p, c, USER_DIRS).value
    {
      ghost var m := Snap();
      hide Accounting, SharersAgree, TablesUnshared, EntriesOk, ForkTable, MaskedFrom, Forking;
      dirs[c] := dirs[p];
      ghost var n := NewSpace(m, p, c);
      NewSpaceOk(m, p, c);
      MaskedStart(m, dirs[..], p, c);
      var d := 0;
      while d < USER_DIRS
        invariant d <= USER_DIRS && dirs.Length == TASK_NR
        invariant ForkUpTo(m, p, c, d) == Some(n) && Inv(n)
        invariant MaskedFrom(n, dirs[..], p, c, d)
        invariant n.counts == memMap[..] && n.free == freePages && n.frames == frames[..]
      {
        MaskedHas(n, dirs[..], p, c, d);
        if dirs[p].value[d].present {
          ghost var f := LowestFree(n);
          ghost var before := dirs[..];
          ok := CopyTable(p, c, d, n);
          if !ok {
            ForkUpToStuck(m, p, c, d + 1, USER_DIRS);
            return;
          }
          MaskedFork(n, before, dirs[..], p, c, d, f.value);
          ForkTableKeepsInv(n, p, c, d, f.value);
          n := ForkTable(n, p, c, d, f.value);
        } else {
          MaskedSkip(n, dirs[..], p, c, d);
        }
        d := d + 1;
      }
      MaskedDone(n, dirs[..], p, c);
      assert Snap() == n;
      ok := true;
    }

    // ------------------------------------------------- faults and accesses

    /** `page_fault`, for a write or a read by user code at `a`. */
    method PageFaultAt(p: nat, a: nat, writing: bool) returns (r: Fault)
      requires Valid() && p < TASK_NR && Live(Snap(), p)
      requires !(UserAddress(a) && Accessible(Snap(), PlaceOf(p, a), writing))
      modifies this`freePages, memMap, frames, dirs
      ensures match PageFault(old(Snap()), p, a, writing)
              case Panic => r == Stopped
              case Killed(m1) => r == Dead && Valid() && Snap() == m1
              case Done(m1, _) => r == Served && Valid() && Snap() == m1
    {
      AddressParts(a);
      ghost var m := Snap();
      ghost var l := PlaceOf(p, a);
      PageFaultServes(m, p, a, writing);
      hide Accounting, SharersAgree, TablesUnshared, LinkPage, CopyPage;
      if a > USER_STACK_TOP {
        r := Segfault(p);
        return;
      }
      var d, t := DirOf(a), EntryOf(a);
      if dirs[p].value[d].present && frames[dirs[p].value[d].index][t].present {
        assert Mapped(m, l);
        EntryIsOk(m, l);
        if !writing {
          return Stopped;  // assert(code->write)
        }
        var w := frames[dirs[p].value[d].index][t];
        if w.shared {
          return Stopped;  // assert(!pte_entry->shared)
        }
        if w.readonly {
          r := Segfault(p);
        } else {
          r := ResolveCopy(p, d, t);
        }
      } else {
        assert !Mapped(m, l);
        if USER_STACK_BOTTOM < a <= USER_STACK_TOP {
          LinkPageMaps(m, l);
          var ok := LinkUserPage(p, a);
          r := if ok then Served else Stopped;
        } else {
          r := Segfault(p);
        }
      }
    }

    method Segfault(p: nat) returns (r: Fault)
      requires Valid() && p < TASK_NR && Live(Snap(), p)
      modifies this`freePages, memMap, frames, dirs
      ensures match Kill(old(Snap()), p)
              case Panic => r == Stopped
              case Killed(m1) => r == Dead && Valid() && Snap() == m1
              case Done(_, _) => false
    {
      var ok := SysExit(p);
      r := if ok then Dead else Stopped;
    }

    /** A write to a private page that waits to be copied. */
    method ResolveCopy(p: nat, d: nat, t: nat) returns (r: Fault)
      requires Valid() && p < TASK_NR && Live(Snap(), p) && Mapped(Snap(), Pte(p, d, t))
      requires EntryOk(Snap(), EntryAt(Snap(), Pte(p, d, t)))
      modifies this`freePages, memMap, frames
      ensures var m := old(Snap()); var l := Pte(p, d, t); var w := EntryAt(m, l);
              if m.counts[w.index] == 1 then r == Served && Snap() == SetEntry(m, p, d, t, w.(write := true))
              else if m.counts[w.index] != 2 || CopyPage(m, l).None? then r == Stopped
              else r == Served && Snap() == CopyPage(m, l).value
    {
      hide Accounting, SharersAgree, TablesUnshared, EntriesOk, CopyPage;
      var table := dirs[p].value[d].index;
      var w := frames[table][t];
      if memMap[w.index] == 1 {
        frames[table] := frames[table][t := w.(write := true)];
        r := Served;
      } else if memMap[w.index] != 2 {
        r := Stopped;  // assert(mem_map[index] == 2)
      } else {
        var ok := CopyOut(p, d, t);
        r := if ok then Served else Stopped;
      }
    }

    /** The page gets a frame of its own, a copy of the one it shared. */
    method CopyOut(p: nat, d: nat, t: nat) returns (ok: bool)
      requires Valid() && p < TASK_NR && Live(Snap(), p) && Mapped(Snap(), Pte(p, d, t))
      requires EntryOk(Snap(), EntryAt(Snap(), Pte(p, d, t))) && memMap[EntryAt(Snap(), Pte(p, d, t)).index] == 2
      modifies this`freePages, memMap, frames
      ensures ok <==> CopyPage(old(Snap()), Pte(p, d, t)).Some?
      ensures ok ==> Snap() == CopyPage(old(Snap()), Pte(p, d, t)).value
    {
      ghost var m := Snap();
      var table := dirs[p].value[d].index;
      var w := frames[table][t];
      ghost var m1 := RemovePage(m, p, d, t);
      assert m.counts[table] == 1;
      hide Accounting, SharersAgree, TablesUnshared, EntriesOk;
      memMap[w.index] := memMap[w.index] - 1;
      assert Snap() == m1.(frames := m.frames);
      var f := GetUserPage();
      if f.None? {
        return false;
      }
      assert f.value != table && f.value != w.index;
      frames[f.value] := frames[w.index];
      frames[table] := frames[table][t := UserEntry(f.value)];
      CopyWritesOnce(m.frames, table, t, w.(present := false), f.value, m.frames[w.index]);
      ok := true;
    }

    /** A user store: the fault, if any, is served and the store done again. */
    method UserStore(p: nat, a: nat, w: Word) returns (r: Fault)
      requires Valid() && p < TASK_NR && Live(Snap(), p)
      modifies this`freePages, memMap, frames, dirs
      ensures match Store(old(Snap()), p, a, w)
              case Panic => r == Stopped
              case Killed(m1) => r == Dead && Valid() && Snap() == m1
              case Done(m1, _) => r == Served && Snap() == m1
    {
      AddressParts(a);
      ghost var m := Snap();
      var through := Reaches(p, a, true);
      r := Served;
      if !through {
        PageFaultServes(m, p, a, true);
        hide PageFault, Accounting, SharersAgree, TablesUnshared;
        r := PageFaultAt(p, a, true);
      }
      if r == Served {
        EntryIsOk(Snap(), PlaceOf(p, a));
        var f := frames[dirs[p].value[DirOf(a)].index][EntryOf(a)].index;
        frames[f] := frames[f][WordOf(a) := w];
      }
    }

    /** A user load. */
    method UserLoad(p: nat, a: nat) returns (r: Fault, seen: Option<Word>)
      requires Valid() && p < TASK_NR && Live(Snap(), p)
      modifies this`freePages, memMap, frames, dirs
      ensures match Load(old(Snap()), p, a)
              case Panic => r == Stopped
              case Killed(m1) => r == Dead && Valid() && Snap() == m1
              case Done(m1, word) => r == Served && Snap() == m1 && seen == word
    {
      AddressParts(a);
      ghost var m := Snap();
      seen := None;
      var through := Reaches(p, a, false);
      r := Served;
      if !through {
        PageFaultServes(m, p, a, false);
        hide PageFault, Accounting, SharersAgree, TablesUnshared;
        r := PageFaultAt(p, a, false);
      }
      if r == Served {
        EntryIsOk(Snap(), PlaceOf(p, a));
        var f := frames[dirs[p].value[DirOf(a)].index][EntryOf(a)].index;
        seen := Some(frames[f][WordOf(a)]);
      }
    }

    /** The processor's walk of the two tables. */
    method Reaches(p: nat, a: nat, writing: bool) returns (through: bool)
      requires Valid() && p < TASK_NR && Live(Snap(), p)
      ensures through <==> UserAddress(a) && Accessible(Snap(), PlaceOf(p, a), writing)
    {
      AddressParts(a);
      if a > USER_STACK_TOP || !dirs[p].value[DirOf(a)].present {
        return false;
      }
      assert HasTable(Snap(), p, DirOf(a));
      var w := frames[dirs[p].value[DirOf(a)].index][EntryOf(a)];
      through := w.present && w.user && (writing ==> w.write);
    }
  }

  /** Once the copy has stopped, it stays stopped. */
  lemma {:induction false} ForkUpToStuck(m: Mem, p: nat, c: nat, i: nat, j: nat)
    requires Inv(m) && Live(m, p) && c < TASK_NR && !Live(m, c) && i <= j <= USER_DIRS
    requires ForkUpTo(m, p, c, i).None?
    ensures ForkUpTo(m, p, c, j).None?
  {
    if i < j {
      ForkUpToStuck(m, p, c, i, j - 1);
    }
  }

  lemma EntriesInRange(m: Mem, p: nat, d: nat)
    requires Inv(m) && HasTable(m, p, d)
    ensures forall j :: 0 <= j < ENTRIES && TableAt(m, p, d)[j].present
                        ==> FIRST_USER_FRAME <= TableAt(m, p, d)[j].index < |m.counts|
  {
    forall j: nat | j < ENTRIES && TableAt(m, p, d)[j].present
      ensures FIRST_USER_FRAME <= TableAt(m, p, d)[j].index < |m.counts|
    {
      EntryIsOk(m, Pte(p, d, j));
    }
  }

  /** Clearing an entry and setting it again is setting it once. */
  lemma CopyWritesOnce(frames: seq<Page>, table: nat, t: nat, gone: Word, f: nat, pg: Page)
    requires table < |frames| && f < |frames| && f != table && t < ENTRIES
    ensures var cleared := frames[table := frames[table][t := gone]];
            var copied := cleared[f := pg];
            copied[table := copied[table][t := UserEntry(f)]] == frames[f := pg][table := frames[table][t := UserEntry(f)]]
  {
    assert frames[table][t := gone][t := UserEntry(f)] == frames[table][t := UserEntry(f)];
  }

  /** The bound that `put_user_page` asserts: some frame stays in use. */
  lemma FreeBounds(m: Mem, f: nat)
    requires Inv(m) && UserFrame(m, f) && m.counts[f] >= 1
    ensures 0 <= m.free && (if m.counts[f] == 1 then m.free + 1 else m.free) < |m.counts|
  {
    var zeros := Zeros(m.counts);
    assert 0 !in zeros && f !in zeros && f != 0;
    assert zeros + {0, f} <= AllFrames(m.counts);
    SubsetCardinality(zeros + {0, f}, AllFrames(m.counts));
    AllFramesCardinality(m.counts);
    assert |zeros + {0, f}| == |zeros| + 2;
  }

  ghost function AllFrames(counts: seq<nat>): set<nat> { set i: nat | i < |counts| && counts[i] >= 0 }

  lemma {:induction false} AllFramesCardinality(counts: seq<nat>)
    ensures |AllFrames(counts)| == |counts|
  {
    if counts == [] {
      assert AllFrames(counts) == {};
    } else {
      var last := |counts| - 1;
      AllFramesCardinality(counts[..last]);
      assert AllFrames(counts) == AllFrames(counts[..last]) + {last};
    }
  }
}
