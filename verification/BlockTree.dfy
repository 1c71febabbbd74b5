/** The block tree as the file system keeps it: inodes, device blocks and the zone
    bitmap, all updated in place. */
module BlockTree {
  import opened Basics
  import opened BlockMap

  /** What recursion below slot `s` frees: the zones in the subtrees of entries below `k`. */
  ghost predicate UnderFirst(fs: Fs, s: Slot, k: nat, z: nat)
    requires IsIndex(s)
  {
    exists i: nat :: i < k && IsSlot(fs, Child(s, i)) && Under(fs, Child(s, i), z)
  }

  /** File `n` has zone `z` under one of its first `k` top slots. */
  ghost predicate UnderTops(fs: Fs, n: nat, k: nat, z: nat) {
    exists i: nat :: i < k && IsSlot(fs, Top(n, i)) && Under(fs, Top(n, i), z)
  }

  lemma ChildIsSlot(fs: Fs, s: Slot, i: nat)
    requires IsSlot(fs, s) && IsIndex(s) && i < INDEXES
    ensures IsSlot(fs, Child(s, i)) && Parent(Child(s, i)) == s && Index(Child(s, i)) == i
    ensures Level(Child(s, i)) == Level(s) - 1
  {}

  /** Different entries of one index block share no zone, and neither holds the block itself. */
  lemma ChildrenDisjoint(fs: Fs, s: Slot, i: nat, k: nat, z: nat)
    requires Inv(fs) && IsSlot(fs, s) && IsIndex(s) && i < k <= INDEXES
    ensures k < INDEXES ==> !(Under(fs, Child(s, i), z) && Under(fs, Child(s, k), z))
    ensures Val(fs, s) != 0 && Under(fs, Child(s, i), z) ==> z != Val(fs, s)
  {
    if k < INDEXES {
      SubtreesDisjoint(fs, Child(s, i), Child(s, k), z);
    }
    if Val(fs, s) != 0 && Under(fs, Child(s, i), z) && z == Val(fs, s) {
      var t := UnderHasSlot(fs, Child(s, i), z);
      SameZoneSameSlot(fs, s, t);
    }
  }

  lemma TopsDisjoint(fs: Fs, n: nat, i: nat, k: nat, z: nat)
    requires Inv(fs) && n < |fs.inodes| && i < k < DIRECT + 2
    ensures !(Under(fs, Top(n, i), z) && Under(fs, Top(n, k), z))
  {
    SubtreesDisjoint(fs, Top(n, i), Top(n, k), z);
  }

  lemma UnderIsUsed(fs: Fs, s: Slot, z: nat)
    requires Inv(fs) && IsSlot(fs, s) && Under(fs, s, z)
    ensures fs.first <= z < |fs.used| && fs.used[z]
  {
    var t := UnderHasSlot(fs, s, z);
  }

  /** Nothing is below an empty slot; below a full one are its zone and what its entries hold. */
  lemma UnderUnfolds(fs: Fs, s: Slot, z: nat)
    requires IsSlot(fs, s)
    ensures Val(fs, s) == 0 ==> !Under(fs, s, z)
    ensures Val(fs, s) != 0 && !IsIndex(s) ==> (Under(fs, s, z) <==> z == Val(fs, s))
    ensures Val(fs, s) != 0 && IsIndex(s) ==> (Under(fs, s, z) <==> z == Val(fs, s) || UnderFirst(fs, s, INDEXES, z))
  {}

  lemma UnderFirstStep(fs: Fs, s: Slot, k: nat, z: nat)
    requires IsSlot(fs, s) && IsIndex(s) && k < INDEXES
    ensures UnderFirst(fs, s, k + 1, z) <==> UnderFirst(fs, s, k, z) || Under(fs, Child(s, k), z)
  {
    if UnderFirst(fs, s, k + 1, z) {
      var i: nat :| i < k + 1 && IsSlot(fs, Child(s, i)) && Under(fs, Child(s, i), z);
    }
  }

  lemma UnderTopsStep(fs: Fs, n: nat, k: nat, z: nat)
    requires n < |fs.inodes| && k < DIRECT + 2
    ensures UnderTops(fs, n, k + 1, z) <==> UnderTops(fs, n, k, z) || Under(fs, Top(n, k), z)
  {
    if UnderTops(fs, n, k + 1, z) {
      var i: nat :| i < k + 1 && IsSlot(fs, Top(n, i)) && Under(fs, Top(n, i), z);
    }
  }

  /** The walk can go on from state `fs` along the rest of its path. */
  ghost predicate Ready(fs: Fs, rest: seq<Slot>, create: bool) {
    && Chain(rest) && Shape(fs) && Inv(fs) && Reachable(fs, rest[0]) && (forall k :: 0 <= k < |rest| ==> IsSlot(fs, rest[k]))
    && (create ==> CleanWalk(fs, rest) && Walk(fs, rest, true).Some?)
  }

  /** The loop variables of `bmap` lead along the slots `rest`. */
  predicate Aimed(rest: seq<Slot>, index: nat, block: nat, level: nat, divider: nat) {
    && level <= 2 && |rest| == level + 1 && index == Index(rest[0])
    && (level == 1 ==> divider == 1 && block == Index(rest[1]))
    && (level == 2 ==> divider == INDEXES && block / INDEXES == Index(rest[1]) && block % INDEXES == Index(rest[2]))
  }

  /** One turn of the loop of `bmap`. */
  lemma WalkStep(fs: Fs, rest: seq<Slot>, create: bool)
    requires Ready(fs, rest, create)
    ensures create && Val(fs, rest[0]) == 0 ==> NextZone(fs) < |fs.used|
    ensures var fs1 := if create then Ensure(fs, rest[0]) else fs;
            && Shape(fs1) && |fs1.inodes| == |fs.inodes| && |fs1.blocks| == |fs.blocks| && IsSlot(fs1, rest[0])
            && Val(fs1, rest[0]) < |fs1.blocks|
            && (!rest[0].Top? ==> Val(fs1, Parent(rest[0])) == Val(fs, Parent(rest[0])))
            && if |rest| == 1 || Val(fs1, rest[0]) == 0 then Walk(fs, rest, create) == Some((fs1, Val(fs1, rest[0])))
               else Ready(fs1, rest[1..], create) && Walk(fs, rest, create) == Walk(fs1, rest[1..], create)
                    && Parent(rest[1]) == rest[0] && !rest[1].Top?
  {
    if create {
      EnsureGrows(fs, rest[0]);
    }
    var fs1 := if create then Ensure(fs, rest[0]) else fs;
    assert Names(fs1, rest[0], Val(fs1, rest[0]));
    var tail := rest[1..];
    assert forall k :: 0 <= k < |tail| ==> tail[k] == rest[k + 1];
  }

  class FileSystem {
    const inodes: array<Inode>
    const blocks: array<Block>
    const used: array<bool>
    const first: nat

    ghost function Snap(): Fs
      reads inodes, blocks, used
    {
      Fs(inodes[..], blocks[..], used[..], first)
    }

    /** `balloc`: takes the lowest free zone. */
    method Balloc() returns (z: nat)
      modifies used
      ensures z == LowestClear(old(used[..]), 0)
      ensures used[..] == if z < used.Length then old(used[..])[z := true] else old(used[..])
    {
      z := 0;
      while z < used.Length && used[z]
        invariant z <= used.Length
        invariant LowestClear(used[..], 0) == LowestClear(used[..], z)
      {
        z := z + 1;
      }
      if z < used.Length {
        used[z] := true;
      }
    }

    /** `bfree`; the bit must be set. */
    method Bfree(z: nat)
      requires z < used.Length && used[z]
      modifies used
      ensures used[..] == old(used[..])[z := false]
    {
      used[z] := false;
    }

    /** Entry `index` of an inode's own array (`array` is zero) or of index block `array`. */
    function Get(n: nat, array_: nat, index: nat): nat
      requires n < inodes.Length && array_ < blocks.Length
      requires if array_ == 0 then index < DIRECT + 2 else index < INDEXES
      reads inodes, blocks
    {
      if array_ == 0 then inodes[n].zone[index] else Entry(blocks[array_], index)
    }

    method Put(n: nat, array_: nat, index: nat, z: nat)
      requires n < inodes.Length && array_ < blocks.Length && z < MAX_ZONES
      requires if array_ == 0 then index < DIRECT + 2 else index < INDEXES
      modifies inodes, blocks
      ensures blocks[..] == if array_ == 0 then old(blocks[..])
                            else old(blocks[..])[array_ := SetEntry(old(blocks[array_]), index, z)]
      ensures inodes[..] == if array_ != 0 then old(inodes[..])
                            else old(inodes[..])[n := old(inodes[n]).(zone := old(inodes[n]).zone[index := z])]
    {
      if array_ == 0 {
        inodes[n] := inodes[n].(zone := inodes[n].zone[index := z]);
      } else {
        blocks[array_] := SetEntry(blocks[array_], index, z);
      }
    }

    /** `array_` and `index` are where slot `s` is kept. */
    ghost predicate Holds(s: Slot, n: nat, array_: nat, index: nat)
      reads inodes, blocks, used
    {
      && s.n == n && Reachable(Snap(), s) && array_ < blocks.Length
      && index == Index(s) && array_ == (if s.Top? then 0 else Val(Snap(), Parent(s)))
    }

    /** The body of the loop of `bmap`: an empty slot gets a zone. */
    method ReckonSlot(n: nat, array_: nat, index: nat, create: bool, ghost s: Slot)
      requires Shape(Snap()) && n < inodes.Length && Holds(s, n, array_, index)
      requires create && Val(Snap(), s) == 0 ==> NextZone(Snap()) < used.Length
      modifies inodes, blocks, used
      ensures Snap() == if create then Ensure(old(Snap()), s) else old(Snap())
    {
      if Get(n, array_, index) == 0 && create {
        var z := Balloc();
        Put(n, array_, index, z);
      }
    }

    /** `bmap`, from the label `reckon` on. */
    method Reckon(n: nat, start: nat, offset: nat, height: nat, span: nat, create: bool, ghost path: seq<Slot>) returns (z: nat)
      requires Ready(Snap(), path, create) && Aimed(path, start, offset, height, span) && path[0].Top? && path[0].n == n
      modifies inodes, blocks, used
      ensures Walk(old(Snap()), path, create) == Some((Snap(), z))
    {
      hide Walk, CleanWalk, Ensure, Inv, Chain, SetSlot, NextZone, Clean, SetEntry;
      ghost var rest := path;
      var array_: nat := 0;
      var index: nat, block: nat, level: nat, divider: nat := start, offset, height, span;
      while true
        invariant Ready(Snap(), rest, create) && Aimed(rest, index, block, level, divider)
        invariant Holds(rest[0], n, array_, index)
        invariant Walk(Snap(), rest, create) == Walk(old(Snap()), path, create)
        decreases level
      {
        WalkStep(Snap(), rest, create);
        ReckonSlot(n, array_, index, create, rest[0]);
        z := Get(n, array_, index);
        if level == 0 || z == 0 {
          return;
        }
        array_ := z;
        index, block := block / divider, block % divider;
        divider := divider / INDEXES;
        level := level - 1;
        rest := rest[1..];
      }
    }

    /** `bmap`. */
    method Bmap(n: nat, b: nat, create: bool) returns (z: nat)
      requires Inv(Snap()) && n < inodes.Length && b < TOTAL_BLOCKS
      requires create ==> Walk(Snap(), Path(n, b), true).Some? && CleanWalk(Snap(), Path(n, b))
      modifies inodes, blocks, used
      ensures Walk(old(Snap()), Path(n, b), create) == Some((Snap(), z))
    {
      PathIsChain(Snap(), n, b);
      if b < DIRECT {
        z := Reckon(n, b, b, 0, 1, create, Path(n, b));
      } else {
        var block := b - DIRECT;
        if block < INDEXES {
          z := Reckon(n, DIRECT, block, 1, 1, create, Path(n, b));
        } else {
          block := block - INDEXES;
          z := Reckon(n, DIRECT + 1, block, 2, INDEXES, create, Path(n, b));
        }
      }
    }

    /** `inode_bfree`: frees what hangs below slot `s`. The bitmap bit is still set for each
        zone freed. */
    method InodeBfree(n: nat, array_: nat, index: nat, level: nat, ghost fs: Fs, ghost s: Slot)
      requires Inv(fs) && IsSlot(fs, s) && blocks[..] == fs.blocks && used.Length == |fs.used|
      requires level == Level(s) && n < inodes.Length && array_ < blocks.Length
      requires if array_ == 0 then index < DIRECT + 2 else index < INDEXES
      requires Get(n, array_, index) == Val(fs, s)
      requires forall z: nat :: Under(fs, s, z) ==> z < used.Length && used[z]
      modifies used
      ensures forall z: nat :: z < used.Length ==> (used[z] <==> old(used[z]) && !Under(fs, s, z))
      decreases level
    {
      var z := Get(n, array_, index);
      forall x: nat ensures UnderUnfolded(fs, s, x) {
        UnderUnfolds(fs, s, x);
      }
      if z == 0 {
        return;
      }
      assert Under(fs, s, z);
      if level > 0 {
        for i := 0 to INDEXES
          invariant forall x: nat :: x < used.Length ==> (used[x] <==> old(used[x]) && !UnderFirst(fs, s, i, x))
          invariant used[z]
        {
          assert Names(fs, s, z);
          ChildIsSlot(fs, s, i);
          forall x: nat | Under(fs, Child(s, i), x) ensures x < used.Length && used[x] && x != z {
            UnderFirstStep(fs, s, i, x);
            ChildrenDisjoint(fs, s, i, INDEXES, x);
            if j: nat :| j < i && IsSlot(fs, Child(s, j)) && Under(fs, Child(s, j), x) {
              ChildrenDisjoint(fs, s, j, i, x);
            }
          }
          InodeBfree(n, z, i, level - 1, fs, Child(s, i));
          forall x: nat ensures UnderFirst(fs, s, i + 1, x) <==> UnderFirst(fs, s, i, x) || Under(fs, Child(s, i), x) {
            UnderFirstStep(fs, s, i, x);
          }
        }
      }
      Bfree(z);
    }

    ghost predicate UnderUnfolded(fs: Fs, s: Slot, z: nat)
      requires IsSlot(fs, s)
    {
      && (Val(fs, s) == 0 ==> !Under(fs, s, z))
      && (Val(fs, s) != 0 && !IsIndex(s) ==> (Under(fs, s, z) <==> z == Val(fs, s)))
      && (Val(fs, s) != 0 && IsIndex(s) ==> (Under(fs, s, z) <==> z == Val(fs, s) || UnderFirst(fs, s, INDEXES, z)))
    }

    /** One slot of `inode_truncate`: frees what it holds and empties it. */
    method FreeTop(n: nat, i: nat, ghost fs: Fs)
      requires Inv(fs) && n < inodes.Length == |fs.inodes| && i < DIRECT + 2
      requires blocks[..] == fs.blocks && used.Length == |fs.used| && inodes[n].zone[i] == fs.inodes[n].zone[i]
      requires forall z: nat :: z < used.Length ==> (used[z] <==> fs.used[z] && !UnderTops(fs, n, i, z))
      modifies inodes, used
      ensures inodes[..] == old(inodes[..])[n := old(inodes[n]).(zone := old(inodes[n]).zone[i := 0])]
      ensures forall z: nat :: z < used.Length ==> (used[z] <==> fs.used[z] && !UnderTops(fs, n, i + 1, z))
    {
      forall z: nat ensures UnderTops(fs, n, i + 1, z) <==> UnderTops(fs, n, i, z) || Under(fs, Top(n, i), z) {
        UnderTopsStep(fs, n, i, z);
      }
      forall z: nat | Under(fs, Top(n, i), z) ensures z < used.Length && used[z] {
        UnderIsUsed(fs, Top(n, i), z);
        if j: nat :| j < i && IsSlot(fs, Top(n, j)) && Under(fs, Top(n, j), z) {
          TopsDisjoint(fs, n, j, i, z);
        }
      }
      InodeBfree(n, 0, i, if i < DIRECT then 0 else i - DIRECT + 1, fs, Top(n, i));
      inodes[n] := inodes[n].(zone := inodes[n].zone[i := 0]);
    }

    /** `inode_truncate`, of a regular file or directory. */
    method InodeTruncate(n: nat)
      requires Inv(Snap()) && n < inodes.Length
      modifies inodes, used
      ensures Truncated(old(Snap()), Snap(), n)
    {
      ghost var fs := Snap();
      for i := 0 to DIRECT
        invariant |inodes[n].zone| == DIRECT + 2 && inodes[..] == fs.inodes[n := inodes[n]] && inodes[n].size == fs.inodes[n].size
        invariant forall j :: 0 <= j < DIRECT + 2 ==> inodes[n].zone[j] == if j < i then 0 else fs.inodes[n].zone[j]
        invariant forall z: nat :: z < used.Length ==> (used[z] <==> fs.used[z] && !UnderTops(fs, n, i, z))
      {
        FreeTop(n, i, fs);
      }
      FreeTop(n, DIRECT, fs);
      FreeTop(n, DIRECT + 1, fs);
      inodes[n] := inodes[n].(size := 0);
      assert inodes[n].zone == seq(DIRECT + 2, _ => 0);
      forall z: nat | z < used.Length ensures Owns(fs, n, z) <==> UnderTops(fs, n, DIRECT + 2, z) {
        OwnedIsUnder(fs, n, z);
      }
    }
  }
}
