/** What creating blocks takes from the zone bitmap, and what it asks of the zones that
    become index blocks. */
module ZoneSupply {
  import opened Basics
  import opened BlockMap

  /** The bitmap after the `k` lowest free zones have been taken. */
  function Taken(used: seq<bool>, k: nat): (r: seq<bool>)
    ensures |r| == |used|
    ensures forall z :: 0 <= z < |used| && used[z] ==> r[z]
    decreases k
  {
    if k == 0 || LowestClear(used, 0) >= |used| then used else Taken(used[LowestClear(used, 0) := true], k - 1)
  }

  /** The free zones, handed out lowest first, do for the slots `wanted`: there is one for
      each, and those that become index blocks read as zeros. */
  ghost predicate Supplies(used: seq<bool>, blocks: seq<Block>, wanted: seq<Slot>)
    requires |blocks| == |used|
    decreases |wanted|
  {
    wanted == [] ||
    var z := LowestClear(used, 0);
    && z < |used|
    && (IsIndex(wanted[0]) ==> ZeroBlock(blocks[z]))
    && Supplies(used[z := true], blocks, wanted[1..])
  }

  /** Only the contents of free zones matter. */
  lemma {:induction false} SuppliesSame(used: seq<bool>, blocks: seq<Block>, blocks': seq<Block>, wanted: seq<Slot>)
    requires |blocks| == |used| == |blocks'|
    requires forall z :: 0 <= z < |used| && !used[z] ==> blocks'[z] == blocks[z]
    ensures Supplies(used, blocks', wanted) == Supplies(used, blocks, wanted)
    decreases |wanted|
  {
    if wanted != [] && LowestClear(used, 0) < |used| {
      SuppliesSame(used[LowestClear(used, 0) := true], blocks, blocks', wanted[1..]);
    }
  }

  lemma {:induction false} SuppliesAppend(used: seq<bool>, blocks: seq<Block>, a: seq<Slot>, b: seq<Slot>)
    requires |blocks| == |used|
    ensures Supplies(used, blocks, a + b) <==> Supplies(used, blocks, a) && Supplies(Taken(used, |a|), blocks, b)
    decreases |a|
  {
    if a == [] {
      assert a + b == b;
    } else {
      assert (a + b)[1..] == a[1..] + b;
      if LowestClear(used, 0) < |used| {
        SuppliesAppend(used[LowestClear(used, 0) := true], blocks, a[1..], b);
      }
    }
  }

  // ---------------------------------------------------------- one block

  /** The slots of a path that have no zone yet and are not among `gone`. */
  ghost function Blank(fs: Fs, path: seq<Slot>, gone: set<Slot>): (r: seq<Slot>)
    requires OnDisk(fs, path)
    ensures |r| <= |path|
    decreases |path|
  {
    if path == [] then []
    else if Val(fs, path[0]) == 0 && path[0] !in gone then [path[0]] + Blank(fs, path[1..], gone)
    else Blank(fs, path[1..], gone)
  }

  lemma {:induction false} BlankSame(fs: Fs, fs': Fs, path: seq<Slot>, gone: set<Slot>, gone': set<Slot>)
    requires OnDisk(fs, path) && OnDisk(fs', path)
    requires forall k :: 0 <= k < |path| ==>
               (Val(fs', path[k]) == 0 && path[k] !in gone' <==> Val(fs, path[k]) == 0 && path[k] !in gone)
    ensures Blank(fs', path, gone') == Blank(fs, path, gone)
    decreases |path|
  {
    if path != [] {
      var tail := path[1..];
      assert forall k :: 0 <= k < |tail| ==> tail[k] == path[k + 1];
      BlankSame(fs, fs', tail, gone, gone');
    }
  }

  /** The creating walk goes through, over clean index blocks only. */
  ghost predicate Goes(fs: Fs, path: seq<Slot>)
    requires path != []
  {
    Walk(fs, path, true).Some? && CleanWalk(fs, path)
  }

  /** Whether the walk gets past its first slot, and that the rest decides then. */
  lemma GoesStep(fs: Fs, path: seq<Slot>)
    requires Inv(fs) && Chain(path) && OnDisk(fs, path) && Reachable(fs, path[0])
    ensures Val(fs, path[0]) == 0 && !(NextZone(fs) < |fs.used| && Clean(fs, path[0])) ==> !Goes(fs, path)
    ensures Val(fs, path[0]) != 0 || (NextZone(fs) < |fs.used| && Clean(fs, path[0])) ==>
              var fs1 := Ensure(fs, path[0]);
              && Grown(fs, fs1, path[0])
              && (|path| == 1 ==> Goes(fs, path) && Walk(fs, path, true).value.0 == fs1)
              && (|path| > 1 ==> (Goes(fs, path) <==> Goes(fs1, path[1..])) && Walk(fs, path, true) == Walk(fs1, path[1..], true))
  {
    if Val(fs, path[0]) != 0 || (NextZone(fs) < |fs.used| && Clean(fs, path[0])) {
      EnsureGrows(fs, path[0]);
    }
  }

  /** The rest of the path can be walked from the state its head has left. */
  lemma RestReady(fs: Fs, fs1: Fs, path: seq<Slot>)
    requires |path| > 1 && Chain(path) && OnDisk(fs, path) && Grown(fs, fs1, path[0])
    ensures Inv(fs1) && Chain(path[1..]) && OnDisk(fs1, path[1..]) && Reachable(fs1, path[1..][0])
  {
    var tail := path[1..];
    assert forall k :: 0 <= k < |tail| ==> tail[k] == path[k + 1];
    assert Parent(tail[0]) == path[0];
    assert Names(fs1, path[0], Val(fs1, path[0]));
  }

  /** `bmap` makes a block exactly when the free zones do for the empty slots on its path;
      it takes that many, lowest first. */
  lemma {:induction false} GoesIff(fs: Fs, path: seq<Slot>)
    requires Inv(fs) && Chain(path) && OnDisk(fs, path) && Reachable(fs, path[0])
    ensures |fs.blocks| == |fs.used|
    ensures Goes(fs, path) <==> Supplies(fs.used, fs.blocks, Blank(fs, path, {}))
    ensures Goes(fs, path) ==> Walk(fs, path, true).value.0.used == Taken(fs.used, |Blank(fs, path, {})|)
    decreases |path|
  {
    hide Walk, CleanWalk, Goes, Val;
    GoesStep(fs, path);
    if Val(fs, path[0]) != 0 {
      if |path| > 1 {
        RestReady(fs, fs, path);
        hide Inv, Grown, Chain;
        GoesIff(fs, path[1..]);
      }
    } else if NextZone(fs) < |fs.used| && Clean(fs, path[0]) {
      var fs1 := Ensure(fs, path[0]);
      LinkKeepsInv(fs, path[0]);
      if |path| > 1 {
        RestReady(fs, fs1, path);
        RestBlank(fs, fs1, path);
        hide Inv, Grown, Chain;
        GoesIff(fs1, path[1..]);
      }
    }
  }

  /** A step at the head of the path leaves the rest of it, and the free zones, as they are. */
  lemma RestBlank(fs: Fs, fs1: Fs, path: seq<Slot>)
    requires |path| > 1 && Chain(path) && OnDisk(fs, path) && Grown(fs, fs1, path[0]) && Val(fs, path[0]) == 0
    ensures OnDisk(fs1, path[1..]) && Blank(fs1, path[1..], {}) == Blank(fs, path[1..], {})
    ensures |fs1.blocks| == |fs1.used| == |fs.blocks| == |fs.used|
    ensures Supplies(fs1.used, fs1.blocks, Blank(fs, path[1..], {})) == Supplies(fs1.used, fs.blocks, Blank(fs, path[1..], {}))
  {
    var tail := path[1..];
    forall k | 0 <= k < |tail| ensures IsSlot(fs1, tail[k]) && IsSlot(fs, tail[k]) && Val(fs1, tail[k]) == Val(fs, tail[k]) {
      ChainRanks(path, k + 1);
      assert tail[k] == path[k + 1];
    }
    BlankSame(fs, fs1, tail, {}, {});
    if !path[0].Top? {
      assert Names(fs, Parent(path[0]), Val(fs, Parent(path[0])));
    }
    SuppliesSame(fs1.used, fs.blocks, fs1.blocks, Blank(fs, tail, {}));
  }

  // ----------------------------------------------------------- many blocks

  ghost function SlotsOf(path: seq<Slot>): set<Slot> { set s | s in path }

  lemma SlotsOfPath(path: seq<Slot>)
    ensures forall s :: s in SlotsOf(path) <==> s in path
  {}

  /** The empty slots that blocks `b` to `e` of file `n` meet, each where it is met first. */
  ghost function Wanted(fs: Fs, n: nat, b: nat, e: nat, gone: set<Slot>): (r: seq<Slot>)
    requires n < |fs.inodes| && b <= e <= TOTAL_BLOCKS
    ensures |r| <= 3 * (e - b)
    decreases e - b
  {
    if b == e then []
    else Blank(fs, Path(n, b), gone) + Wanted(fs, n, b + 1, e, gone + SlotsOf(Path(n, b)))
  }

  lemma PathOnDisk(fs: Fs, n: nat, b: nat)
    requires n < |fs.inodes| && b < TOTAL_BLOCKS
    ensures OnDisk(fs, Path(n, b)) && Path(n, b) != []
  {}

  lemma WantedUnfolds(fs: Fs, n: nat, b: nat, e: nat)
    requires n < |fs.inodes| && b < e <= TOTAL_BLOCKS
    ensures OnDisk(fs, Path(n, b))
    ensures Wanted(fs, n, b, e, {}) == Blank(fs, Path(n, b), {}) + Wanted(fs, n, b + 1, e, SlotsOf(Path(n, b)))
  {
    assert {} + SlotsOf(Path(n, b)) == SlotsOf(Path(n, b));
  }

  lemma {:induction false} WantedSame(fs: Fs, fs': Fs, n: nat, b: nat, e: nat, gone: set<Slot>, gone': set<Slot>)
    requires n < |fs.inodes| == |fs'.inodes| && b <= e <= TOTAL_BLOCKS
    requires forall s :: IsSlot(fs, s) ==> (Val(fs', s) == 0 && s !in gone' <==> Val(fs, s) == 0 && s !in gone)
    ensures Wanted(fs', n, b, e, gone') == Wanted(fs, n, b, e, gone)
    decreases e - b
  {
    hide Val, Blank, Path, SlotsOf;
    if b < e {
      PathOnDisk(fs, n, b);
      PathOnDisk(fs', n, b);
      SlotsOfPath(Path(n, b));
      BlankSame(fs, fs', Path(n, b), gone, gone');
      WantedSame(fs, fs', n, b + 1, e, gone + SlotsOf(Path(n, b)), gone' + SlotsOf(Path(n, b)));
    }
  }

  /** There are zones for all the blocks `b` to `e` of file `n`, clean where they have to be. */
  ghost predicate Room(fs: Fs, n: nat, b: nat, e: nat) {
    Inv(fs) && n < |fs.inodes| && b <= e <= TOTAL_BLOCKS && Supplies(fs.used, fs.blocks, Wanted(fs, n, b, e, {}))
  }

  /** What making block `b` of file `n` and writing to it does to bitmap, free zones and slots. */
  ghost predicate Grew(fs: Fs, fs': Fs, n: nat, b: nat)
    requires n < |fs.inodes| && b < TOTAL_BLOCKS
  {
    && |fs'.inodes| == |fs.inodes| && |fs'.blocks| == |fs.blocks| == |fs.used|
    && fs'.used == Taken(fs.used, |Blank(fs, Path(n, b), {})|)
    && (forall z :: 0 <= z < |fs'.used| && !fs'.used[z] ==> fs'.blocks[z] == fs.blocks[z])
    && (forall s :: IsSlot(fs, s) ==> (Val(fs', s) == 0 <==> Val(fs, s) == 0 && s !in Path(n, b)))
  }

  /** There is room for the blocks from `b` on exactly when `b` can be made and then there is
      room for the others. */
  lemma RoomIff(fs: Fs, fs': Fs, n: nat, b: nat, e: nat)
    requires Inv(fs) && Inv(fs') && n < |fs.inodes| && b < e <= TOTAL_BLOCKS && Grew(fs, fs', n, b)
    ensures Room(fs, n, b, e) <==> Goes(fs, Path(n, b)) && Room(fs', n, b + 1, e)
  {
    hide Inv, Goes, Blank, Taken, Wanted, Supplies;
    RoomGoes(fs, n, b, e);
    var path := Path(n, b);
    var rest := Wanted(fs, n, b + 1, e, SlotsOf(path));
    WantedSame(fs, fs', n, b + 1, e, SlotsOf(path), {});
    SuppliesSame(fs'.used, fs.blocks, fs'.blocks, rest);
  }

  /** The supply for all blocks is that for the first and then that for the others. */
  lemma RoomGoes(fs: Fs, n: nat, b: nat, e: nat)
    requires Inv(fs) && n < |fs.inodes| && b < e <= TOTAL_BLOCKS
    ensures |fs.blocks| == |fs.used| && OnDisk(fs, Path(n, b)) && Path(n, b) != []
    ensures Supplies(fs.used, fs.blocks, Wanted(fs, n, b, e, {})) <==>
              && Goes(fs, Path(n, b))
              && Supplies(Taken(fs.used, |Blank(fs, Path(n, b), {})|), fs.blocks, Wanted(fs, n, b + 1, e, SlotsOf(Path(n, b))))
  {
    PathIsChain(fs, n, b);
    WantedUnfolds(fs, n, b, e);
    hide Path, Wanted, Blank, Taken, Val, Supplies, Goes, IsIndex, ZeroBlock;
    GoesIff(fs, Path(n, b));
    hide Inv, Chain, Reachable;
    SuppliesAppend(fs.used, fs.blocks, Blank(fs, Path(n, b), {}), Wanted(fs, n, b + 1, e, SlotsOf(Path(n, b))));
  }

  lemma LinkedGrows(fs: Fs, fs1: Fs, path: seq<Slot>)
    requires path != [] && path[0].Top? && Linked(fs, fs1, path)
    ensures |fs1.inodes| == |fs.inodes| && |fs1.blocks| == |fs.blocks| == |fs.used| == |fs1.used|
    ensures forall z :: 0 <= z < |fs1.used| && !fs1.used[z] ==> fs1.blocks[z] == fs.blocks[z]
    ensures forall s :: IsSlot(fs, s) ==> (Val(fs1, s) == 0 <==> Val(fs, s) == 0 && s !in path)
  {
    hide NewAt;
    forall s | IsSlot(fs, s) ensures Val(fs1, s) == 0 <==> Val(fs, s) == 0 && s !in path {
      if s in path {
        var k :| 0 <= k < |path| && path[k] == s;
      }
    }
    forall x | 0 <= x < |fs1.used| && !fs1.used[x] ensures fs1.blocks[x] == fs.blocks[x] {
      assert !IndexAt(fs1, path, x);
    }
  }

  /** A walk that goes through grows its file. */
  lemma GoesGrows(fs: Fs, fs1: Fs, z: nat, n: nat, b: nat)
    requires Inv(fs) && n < |fs.inodes| && b < TOTAL_BLOCKS
    requires Goes(fs, Path(n, b)) && Walk(fs, Path(n, b), true) == Some((fs1, z))
    ensures Inv(fs1) && Grew(fs, fs1, n, b)
  {
    PathIsChain(fs, n, b);
    WalkGrows(fs, fs1, z, n, b, Path(n, b));
  }

  lemma WalkGrows(fs: Fs, fs1: Fs, z: nat, n: nat, b: nat, path: seq<Slot>)
    requires Inv(fs) && n < |fs.inodes| && b < TOTAL_BLOCKS && path == Path(n, b) && path != [] && path[0].Top?
    requires Chain(path) && OnDisk(fs, path) && Reachable(fs, path[0])
    requires Goes(fs, path) && Walk(fs, path, true) == Some((fs1, z))
    ensures Inv(fs1) && Grew(fs, fs1, n, b)
  {
    hide Walk, CleanWalk, Inv, Path, Blank, Taken, Supplies, Chain, NewAt, IndexAt;
    GoesIff(fs, path);
    WalkLinks(fs, path);
    LinkedGrows(fs, fs1, path);
  }

  // ------------------------------------------------------- what suffices

  ghost function FreeZones(used: seq<bool>): set<nat> {
    set z: nat | z < |used| && !used[z]
  }

  /** Every free zone reads as zeros: `balloc` does not clear what it hands out. */
  ghost predicate FreeIsZero(fs: Fs) {
    |fs.blocks| == |fs.used| && forall z: nat :: z < |fs.used| && !fs.used[z] ==> ZeroBlock(fs.blocks[z])
  }

  lemma {:induction false} EnoughSupplies(used: seq<bool>, blocks: seq<Block>, wanted: seq<Slot>)
    requires |blocks| == |used| && |wanted| <= |FreeZones(used)|
    requires || (forall z :: 0 <= z < |used| && !used[z] ==> ZeroBlock(blocks[z]))
             || (forall k :: 0 <= k < |wanted| ==> !IsIndex(wanted[k]))
    ensures Supplies(used, blocks, wanted)
    decreases |wanted|
  {
    if wanted != [] {
      var x :| x in FreeZones(used);
      var z := LowestClear(used, 0);
      assert FreeZones(used[z := true]) == FreeZones(used) - {z};
      EnoughSupplies(used[z := true], blocks, wanted[1..]);
    }
  }

  /** There is room when there are as many free zones as empty slots, and the zones are
      zero-filled or no index block is missing. */
  lemma EnoughIsRoom(fs: Fs, n: nat, b: nat, e: nat)
    requires Inv(fs) && n < |fs.inodes| && b <= e <= TOTAL_BLOCKS
    requires |Wanted(fs, n, b, e, {})| <= |FreeZones(fs.used)|
    requires FreeIsZero(fs) || forall k :: 0 <= k < |Wanted(fs, n, b, e, {})| ==> !IsIndex(Wanted(fs, n, b, e, {})[k])
    ensures Room(fs, n, b, e)
  {
    EnoughSupplies(fs.used, fs.blocks, Wanted(fs, n, b, e, {}));
  }

  /** Blocks that are there already want nothing: they can be written on a full disk. */
  lemma FilledIsRoom(fs: Fs, n: nat, b: nat, e: nat)
    requires Inv(fs) && n < |fs.inodes| && b <= e <= TOTAL_BLOCKS
    requires forall c :: b <= c < e ==> Lookup(fs, n, c) != 0
    ensures Room(fs, n, b, e)
  {
    FilledWantsNothing(fs, n, b, e, {});
  }

  lemma {:induction false} FilledWantsNothing(fs: Fs, n: nat, b: nat, e: nat, gone: set<Slot>)
    requires Inv(fs) && n < |fs.inodes| && b <= e <= TOTAL_BLOCKS
    requires forall c :: b <= c < e ==> Lookup(fs, n, c) != 0
    ensures Wanted(fs, n, b, e, gone) == []
    decreases e - b
  {
    hide Inv, Blank, Path, Val, SlotsOf;
    if b < e {
      FilledPath(fs, n, b, gone);
      FilledWantsNothing(fs, n, b + 1, e, gone + SlotsOf(Path(n, b)));
    }
  }

  lemma FilledPath(fs: Fs, n: nat, b: nat, gone: set<Slot>)
    requires Inv(fs) && n < |fs.inodes| && b < TOTAL_BLOCKS && Lookup(fs, n, b) != 0
    ensures Blank(fs, Path(n, b), gone) == []
  {
    var path := Path(n, b);
    PathIsChain(fs, n, b);
    forall k | 0 <= k < |path| ensures Val(fs, path[k]) != 0 {
      if Val(fs, path[k]) == 0 {
        ZeroBelow(fs, path, k, |path| - 1);
      }
    }
    NoneBlank(fs, path, gone);
  }

  lemma {:induction false} NoneBlank(fs: Fs, path: seq<Slot>, gone: set<Slot>)
    requires OnDisk(fs, path) && forall k :: 0 <= k < |path| ==> Val(fs, path[k]) != 0
    ensures Blank(fs, path, gone) == []
    decreases |path|
  {
    if path != [] {
      assert forall k :: 0 <= k < |path[1..]| ==> path[1..][k] == path[k + 1];
      NoneBlank(fs, path[1..], gone);
    }
  }

  lemma DirectBlank(fs: Fs, n: nat, b: nat, gone: set<Slot>)
    requires n < |fs.inodes| && b < DIRECT
    ensures OnDisk(fs, Path(n, b)) && |Blank(fs, Path(n, b), gone)| <= 1
    ensures forall k :: 0 <= k < |Blank(fs, Path(n, b), gone)| ==> !IsIndex(Blank(fs, Path(n, b), gone)[k])
  {
    assert Path(n, b)[1..] == [];
  }

  lemma {:induction false} DirectWants(fs: Fs, n: nat, b: nat, e: nat, gone: set<Slot>)
    requires n < |fs.inodes| && b <= e <= DIRECT
    ensures |Wanted(fs, n, b, e, gone)| <= e - b
    ensures forall k :: 0 <= k < |Wanted(fs, n, b, e, gone)| ==> !IsIndex(Wanted(fs, n, b, e, gone)[k])
    decreases e - b
  {
    hide Blank, Path, Val, SlotsOf, IsIndex;
    if b < e {
      DirectBlank(fs, n, b, gone);
      DirectWants(fs, n, b + 1, e, gone + SlotsOf(Path(n, b)));
    }
  }

  /** Direct blocks need no index block, so any free zones do for them: also those that
      another file has given back with its contents in them. */
  lemma DirectIsRoom(fs: Fs, n: nat, b: nat, e: nat)
    requires Inv(fs) && n < |fs.inodes| && b <= e <= DIRECT && e - b <= |FreeZones(fs.used)|
    ensures Room(fs, n, b, e)
  {
    DirectWants(fs, n, b, e, {});
    EnoughIsRoom(fs, n, b, e);
  }
}
