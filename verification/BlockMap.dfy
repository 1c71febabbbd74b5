/** The MINIX block tree: 7 direct, one single and one double indirect slot per
    inode, 512 16-bit entries per index block, and a bitmap of used zones. */
module BlockMap {
  import opened Basics

  const DIRECT := 7
  const INDEXES := 512
  const TOTAL_BLOCKS := DIRECT + INDEXES + INDEXES * INDEXES
  const MAX_ZONES := 0x1_0000

  type Block = s: seq<byte> | |s| == BLOCK_SIZE witness seq(BLOCK_SIZE, _ => 0)
  type Zones = s: seq<nat> | |s| == DIRECT + 2 witness seq(DIRECT + 2, _ => 0)

  datatype Inode = Inode(zone: Zones, size: nat)

  /** Zones below `first` hold the metadata and are always in use. */
  datatype Fs = Fs(inodes: seq<Inode>, blocks: seq<Block>, used: seq<bool>, first: nat)

  /** Entry `i` of an index block: 16 bits, low byte first. */
  function Entry(b: Block, i: nat): (w: nat)
    requires i < INDEXES
    ensures w < MAX_ZONES
  {
    b[2 * i] as nat + 256 * (b[2 * i + 1] as nat)
  }

  function SetEntry(b: Block, i: nat, w: nat): (r: Block)
    requires i < INDEXES && w < MAX_ZONES
    ensures Entry(r, i) == w
    ensures forall j :: 0 <= j < INDEXES && j != i ==> Entry(r, j) == Entry(b, j)
  {
    b[2 * i := (w % 256) as byte][2 * i + 1 := (w / 256) as byte]
  }

  ghost predicate ZeroBlock(b: Block) { forall i :: 0 <= i < INDEXES ==> Entry(b, i) == 0 }

  // ----------------------------------------------------------------- slots

  /** The places that hold zone numbers, in inodes and in index blocks. */
  datatype Slot = Top(n: nat, i: nat) | Single(n: nat, i: nat) | Double(n: nat, i: nat) | Leaf(n: nat, i: nat, j: nat)

  predicate IsSlot(fs: Fs, s: Slot) {
    s.n < |fs.inodes| && match s
      case Top(_, i) => i < DIRECT + 2
      case Single(_, i) => i < INDEXES
      case Double(_, i) => i < INDEXES
      case Leaf(_, i, j) => i < INDEXES && j < INDEXES
  }

  /** The slot naming the index block that `s` lies in. */
  function Parent(s: Slot): Slot
    requires !s.Top?
  {
    match s
    case Single(n, _) => Top(n, DIRECT)
    case Double(n, _) => Top(n, DIRECT + 1)
    case Leaf(n, i, _) => Double(n, i)
  }

  /** How many index blocks lie above `s`. */
  function Rank(s: Slot): nat { if s.Top? then 0 else if s.Leaf? then 2 else 1 }

  function Index(s: Slot): nat { if s.Leaf? then s.j else s.i }

  predicate IsIndex(s: Slot) { s.Double? || (s.Top? && s.i >= DIRECT) }

  ghost predicate Shape(fs: Fs) {
    && |fs.blocks| == |fs.used| <= MAX_ZONES
    && 0 < fs.first <= |fs.used| && (forall z :: 0 <= z < fs.first ==> fs.used[z])
    && (forall n, i :: 0 <= n < |fs.inodes| && 0 <= i < DIRECT + 2 ==> fs.inodes[n].zone[i] < |fs.blocks|)
  }

  /** The zone number in slot `s`; zero where there is none. Numbers past the end of the
      device cannot be followed. */
  ghost function Val(fs: Fs, s: Slot): nat
    requires IsSlot(fs, s)
    decreases Rank(s)
  {
    match s
    case Top(n, i) => fs.inodes[n].zone[i]
    case Single(n, i) => EntryIn(fs, Val(fs, Top(n, DIRECT)), i)
    case Double(n, i) => EntryIn(fs, Val(fs, Top(n, DIRECT + 1)), i)
    case Leaf(n, i, j) => EntryIn(fs, Val(fs, Double(n, i)), j)
  }

  function EntryIn(fs: Fs, z: nat, i: nat): nat
    requires i < INDEXES
  {
    if z == 0 || z >= |fs.blocks| then 0 else Entry(fs.blocks[z], i)
  }

  /** A zone is named by one slot at most, and a named zone is a used data zone. */
  ghost predicate Inv(fs: Fs) {
    && Shape(fs)
    && (forall s :: IsSlot(fs, s) && Val(fs, s) != 0 ==> fs.first <= Val(fs, s) < |fs.used| && fs.used[Val(fs, s)])
    && (forall s, t, z :: Names(fs, s, z) && Names(fs, t, z) && z != 0 ==> s == t)
  }

  ghost predicate Names(fs: Fs, s: Slot, z: nat) { IsSlot(fs, s) && Val(fs, s) == z }

  // ------------------------------------------------------- logical blocks

  /** The slots that `bmap` goes through for block `b` of file `n`. */
  function Path(n: nat, b: nat): (p: seq<Slot>)
    requires b < TOTAL_BLOCKS
    ensures 1 <= |p| <= 3 && p[0].Top?
    ensures forall k :: 0 < k < |p| ==> !p[k].Top? && Parent(p[k]) == p[k - 1]
    ensures forall k :: 0 <= k < |p| ==> (IsIndex(p[k]) <==> k < |p| - 1)
  {
    if b < DIRECT then [Top(n, b)]
    else if b - DIRECT < INDEXES then [Top(n, DIRECT), Single(n, b - DIRECT)]
    else
      var r := b - DIRECT - INDEXES;
      [Top(n, DIRECT + 1), Double(n, r / INDEXES), Leaf(n, r / INDEXES, r % INDEXES)]
  }

  function DataSlot(n: nat, b: nat): Slot
    requires b < TOTAL_BLOCKS
  {
    Path(n, b)[|Path(n, b)| - 1]
  }

  /** The zone of block `b` of file `n`, or zero. */
  ghost function Lookup(fs: Fs, n: nat, b: nat): nat
    requires n < |fs.inodes| && b < TOTAL_BLOCKS
  {
    Val(fs, DataSlot(n, b))
  }

  /** Different blocks live in different slots. */
  lemma DataSlotInjective(n: nat, b: nat, n': nat, b': nat)
    requires b < TOTAL_BLOCKS && b' < TOTAL_BLOCKS && DataSlot(n, b) == DataSlot(n', b')
    ensures n == n' && b == b'
  {}

  /** The 16-bit word at byte `2 * i` of block `z`, low byte first; zero where there is no
      such block. */
  function DiskWord(fs: Fs, z: nat, i: nat): nat
    requires i < INDEXES
  {
    if 0 < z < |fs.blocks| then fs.blocks[z][2 * i] as nat + 256 * (fs.blocks[z][2 * i + 1] as nat) else 0
  }

  /** The layout on the disk: the first seven zone words of the inode name blocks 0 to 6, the
      next names a block with the words of blocks 7 to 518, and the last a block whose words
      name blocks with 512 words each. */
  lemma LookupOnDisk(fs: Fs, n: nat, b: nat)
    requires n < |fs.inodes| && b < TOTAL_BLOCKS
    ensures b < 7 ==> Lookup(fs, n, b) == fs.inodes[n].zone[b]
    ensures 7 <= b < 519 ==> Lookup(fs, n, b) == DiskWord(fs, fs.inodes[n].zone[7], b - 7)
    ensures b >= 519 ==> (b - 519) / 512 < 512
    ensures b >= 519 ==>
              Lookup(fs, n, b) == DiskWord(fs, DiskWord(fs, fs.inodes[n].zone[8], (b - 519) / 512), (b - 519) % 512)
  {
    if 7 <= b < 519 {
      assert Val(fs, Top(n, 7)) == fs.inodes[n].zone[7];
      assert DataSlot(n, b) == Single(n, b - 7);
    } else if b >= 519 {
      var i := (b - 519) / 512;
      assert DataSlot(n, b) == Leaf(n, i, (b - 519) % 512);
      assert Val(fs, Double(n, i)) == DiskWord(fs, fs.inodes[n].zone[8], i);
    }
  }

  // ------------------------------------------------------------ operations

  /** `balloc`: the first clear bit of the zone bitmap. */
  function NextZone(fs: Fs): nat { LowestClear(fs.used, 0) }

  /** Writes `z` into slot `s`; the block it lies in must be there. */
  ghost function SetSlot(fs: Fs, s: Slot, z: nat): Fs
    requires IsSlot(fs, s) && z < MAX_ZONES && (!s.Top? ==> 0 < Val(fs, Parent(s)) < |fs.blocks|)
  {
    if s.Top? then fs.(inodes := fs.inodes[s.n := fs.inodes[s.n].(zone := fs.inodes[s.n].zone[s.i := z])])
    else
      var p := Val(fs, Parent(s));
      fs.(blocks := fs.blocks[p := SetEntry(fs.blocks[p], Index(s), z)])
  }

  ghost predicate Reachable(fs: Fs, s: Slot) {
    IsSlot(fs, s) && (!s.Top? ==> 0 < Val(fs, Parent(s)) < |fs.blocks|)
  }

  /** An empty slot gets the next free zone. */
  ghost function Ensure(fs: Fs, s: Slot): Fs
    requires Shape(fs) && Reachable(fs, s) && (Val(fs, s) == 0 ==> NextZone(fs) < |fs.used|)
  {
    if Val(fs, s) != 0 then fs
    else SetSlot(fs, s, NextZone(fs)).(used := fs.used[NextZone(fs) := true])
  }

  // -------------------------------------------------- linking one more zone

  ghost predicate OnlyAt(fs: Fs, fs': Fs, s: Slot) {
    |fs'.inodes| == |fs.inodes| && forall t :: IsSlot(fs, t) && t != s ==> Val(fs', t) == Val(fs, t)
  }

  /** Exactly when the zone handed out for an index block is zero-filled does
      linking it leave every other slot alone. */
  ghost predicate Clean(fs: Fs, s: Slot) {
    IsIndex(s) && NextZone(fs) < |fs.blocks| ==> ZeroBlock(fs.blocks[NextZone(fs)])
  }

  /** A slot above or beside the changed one. */
  lemma SetSlotSame(fs: Fs, s: Slot, z: nat, t: Slot)
    requires Inv(fs) && Reachable(fs, s) && Val(fs, s) == 0 && fs.first <= z < |fs.blocks| && !fs.used[z]
    requires IsSlot(fs, t) && t != s && (!t.Top? ==> Parent(t) != s) && (t.Leaf? ==> Parent(Parent(t)) != s)
    ensures Val(SetSlot(fs, s, z), t) == Val(fs, t)
    decreases Rank(t)
  {
    var fs' := SetSlot(fs, s, z);
    if !t.Top? {
      var p := Parent(t);
      assert IsSlot(fs, p);
      SetSlotSame(fs, s, z, p);
      if !s.Top? && Val(fs, p) == Val(fs, Parent(s)) {
        assert Names(fs, p, Val(fs, p)) && Names(fs, Parent(s), Val(fs, p)) && p == Parent(s);
        assert Index(t) != Index(s);
      }
    }
  }

  ghost predicate CanLink(fs: Fs, s: Slot) {
    Inv(fs) && Reachable(fs, s) && Val(fs, s) == 0 && NextZone(fs) < |fs.used|
  }

  lemma NextZoneIsFree(fs: Fs)
    requires Shape(fs) && NextZone(fs) < |fs.used|
    ensures fs.first <= NextZone(fs) && !fs.used[NextZone(fs)]
  {}

  lemma LinkedHere(fs: Fs, s: Slot)
    requires CanLink(fs, s)
    ensures Val(Ensure(fs, s), s) == NextZone(fs)
    ensures Ensure(fs, s).blocks[NextZone(fs)] == fs.blocks[NextZone(fs)]
    ensures !s.Top? ==> Val(Ensure(fs, s), Parent(s)) == Val(fs, Parent(s))
  {
    NextZoneIsFree(fs);
    var fs' := Ensure(fs, s);
    var set_ := SetSlot(fs, s, NextZone(fs));
    if !s.Top? {
      SetSlotSame(fs, s, NextZone(fs), Parent(s));
      SameTreeSameVal(set_, fs', Parent(s));
    }
  }

  lemma SameTreeSameVal(fs: Fs, fs': Fs, t: Slot)
    requires IsSlot(fs, t) && fs'.inodes == fs.inodes && fs'.blocks == fs.blocks
    ensures Val(fs', t) == Val(fs, t)
    decreases Rank(t)
  {
    if !t.Top? {
      SameTreeSameVal(fs, fs', Parent(t));
    }
  }

  lemma LinkedElsewhere(fs: Fs, s: Slot, t: Slot)
    requires CanLink(fs, s) && IsSlot(fs, t) && t != s
    decreases Rank(t)
    ensures (t.Top? || Parent(t) != s) && (!t.Leaf? || Parent(Parent(t)) != s) ==> Val(Ensure(fs, s), t) == Val(fs, t)
    ensures !t.Top? && Parent(t) == s ==> Val(fs, t) == 0 && Val(Ensure(fs, s), t) == Entry(fs.blocks[NextZone(fs)], Index(t))
    ensures t.Leaf? && Parent(Parent(t)) == s && Clean(fs, s) ==> Val(Ensure(fs, s), t) == Val(fs, t) == 0
  {
    NextZoneIsFree(fs);
    LinkedHere(fs, s);
    if (t.Top? || Parent(t) != s) && (!t.Leaf? || Parent(Parent(t)) != s) {
      SetSlotSame(fs, s, NextZone(fs), t);
      SameTreeSameVal(SetSlot(fs, s, NextZone(fs)), Ensure(fs, s), t);
    } else if t.Leaf? && Parent(Parent(t)) == s && Clean(fs, s) {
      LinkedElsewhere(fs, s, Parent(t));
    }
  }

  /** Linking one zone into an empty slot changes that slot alone, exactly when the
      zone reads as zeros or is not an index block. */
  lemma LinkChangesOneSlotIffClean(fs: Fs, s: Slot)
    requires CanLink(fs, s)
    ensures OnlyAt(fs, Ensure(fs, s), s) <==> Clean(fs, s)
  {
    var fs' := Ensure(fs, s);
    NextZoneIsFree(fs);
    if Clean(fs, s) {
      forall t | IsSlot(fs, t) && t != s
        ensures Val(fs', t) == Val(fs, t)
      {
        LinkedElsewhere(fs, s, t);
      }
    } else {
      var i: nat :| i < INDEXES && Entry(fs.blocks[NextZone(fs)], i) != 0;
      var child := if s.Double? then Leaf(s.n, s.i, i) else if s.i == DIRECT then Single(s.n, i) else Double(s.n, i);
      LinkedElsewhere(fs, s, child);
    }
  }

  lemma LinkKeepsRange(fs: Fs, fs': Fs, s: Slot, z: nat)
    requires Inv(fs) && IsSlot(fs, s) && OnlyAt(fs, fs', s) && Val(fs', s) == z && fs.first <= z < |fs.used|
    requires fs'.used == fs.used[z := true] && fs'.first == fs.first
    ensures forall t :: IsSlot(fs', t) && Val(fs', t) != 0 ==> fs.first <= Val(fs', t) < |fs.used| && fs'.used[Val(fs', t)]
  {
    forall t | IsSlot(fs', t) && Val(fs', t) != 0
      ensures fs.first <= Val(fs', t) < |fs.used| && fs'.used[Val(fs', t)]
    {
      if t != s {
        assert Val(fs', t) == Val(fs, t);
      }
    }
  }

  lemma LinkKeepsUnique(fs: Fs, fs': Fs, s: Slot, z: nat)
    requires Inv(fs) && IsSlot(fs, s) && OnlyAt(fs, fs', s) && Val(fs', s) == z && z < |fs.used| && !fs.used[z]
    ensures forall t, u, x :: Names(fs', t, x) && Names(fs', u, x) && x != 0 ==> t == u
  {
    assert forall t :: IsSlot(fs, t) && Val(fs, t) != 0 ==> Val(fs, t) != z;
    forall t, u, x | Names(fs', t, x) && Names(fs', u, x) && x != 0
      ensures t == u
    {
      if t != s && u != s {
        assert Names(fs, t, x) && Names(fs, u, x);
      }
    }
  }

  /** What linking keeps. */
  lemma LinkKeepsInv(fs: Fs, s: Slot)
    requires CanLink(fs, s) && Clean(fs, s)
    ensures var fs' := Ensure(fs, s);
            && Inv(fs') && OnlyAt(fs, fs', s) && Val(fs', s) == NextZone(fs) != 0
            && fs'.used == fs.used[NextZone(fs) := true] && fs'.first == fs.first
  {
    var fs' := Ensure(fs, s);
    NextZoneIsFree(fs);
    LinkChangesOneSlotIffClean(fs, s);
    LinkedHere(fs, s);
    LinkKeepsRange(fs, fs', s, NextZone(fs));
    LinkKeepsUnique(fs, fs', s, NextZone(fs));
  }

  // ------------------------------------------------------------------ bmap

  /** The walk of `bmap` down the slots of a path; None where the disk is full, a case
      the source leaves open. */
  ghost function Walk(fs: Fs, path: seq<Slot>, create: bool): (r: Option<(Fs, nat)>)
    requires path != []
    decreases |path|
  {
    if !Shape(fs) || !Reachable(fs, path[0]) || (create && Val(fs, path[0]) == 0 && NextZone(fs) >= |fs.used|) then None
    else
      var fs1 := if create then Ensure(fs, path[0]) else fs;
      if !IsSlot(fs1, path[0]) then None
      else if |path| == 1 || Val(fs1, path[0]) == 0 then Some((fs1, Val(fs1, path[0])))
      else Walk(fs1, path[1..], create)
  }

  /** Every index block that the walk takes into use is zero-filled. */
  ghost predicate CleanWalk(fs: Fs, path: seq<Slot>)
    requires path != []
    decreases |path|
  {
    Shape(fs) && Reachable(fs, path[0]) && (Val(fs, path[0]) == 0 ==> NextZone(fs) < |fs.used|) ==>
      && (Val(fs, path[0]) == 0 ==> Clean(fs, path[0]))
      && (|path| > 1 ==> CleanWalk(Ensure(fs, path[0]), path[1..]))
  }

  ghost predicate Chain(path: seq<Slot>) {
    && path != [] && (forall k :: 0 < k < |path| ==> !path[k].Top? && Parent(path[k]) == path[k - 1])
    && (forall k :: 0 <= k < |path| ==> (IsIndex(path[k]) <==> k < |path| - 1))
  }

  /** What a creating walk along `path` has done. */
  ghost predicate Linked(fs: Fs, fs': Fs, path: seq<Slot>)
    requires path != []
  {
    && Reachable(fs, path[0])
    && Inv(fs) && Inv(fs') && |fs'.inodes| == |fs.inodes| && |fs'.used| == |fs.used| && fs'.first == fs.first
    && (forall n :: 0 <= n < |fs.inodes| ==> fs'.inodes[n].size == fs.inodes[n].size)
    && (forall k :: 0 <= k < |path| ==> IsSlot(fs, path[k]) && Val(fs', path[k]) != 0)
    && (forall k :: 0 <= k < |path| && Val(fs, path[k]) != 0 ==> Val(fs', path[k]) == Val(fs, path[k]))
    && (forall t :: IsSlot(fs, t) && t !in path ==> Val(fs', t) == Val(fs, t))
    && (forall x :: 0 <= x < |fs.used| ==> (fs'.used[x] <==> fs.used[x] || NewAt(fs, fs', path, x)))
    && (forall x :: 0 <= x < |fs.used| && NewAt(fs, fs', path, x) ==> !fs.used[x])
    && (forall x :: 0 <= x < |fs.used| && (path[0].Top? || x != Val(fs, Parent(path[0]))) && !IndexAt(fs', path, x)
            ==> fs'.blocks[x] == fs.blocks[x])
  }

  /** Zone `x` is one of those the walk has newly linked. */
  ghost predicate NewAt(fs: Fs, fs': Fs, path: seq<Slot>, x: int)
    requires |fs'.inodes| == |fs.inodes|
  {
    exists k :: 0 <= k < |path| && IsSlot(fs, path[k]) && Val(fs, path[k]) == 0 && Val(fs', path[k]) == x
  }

  /** Zone `x` is an index block on the path. */
  ghost predicate IndexAt(fs: Fs, path: seq<Slot>, x: int) {
    exists k :: 0 <= k < |path| - 1 && IsSlot(fs, path[k]) && Val(fs, path[k]) == x
  }

  /** What one step of the walk has done at slot `s`. */
  ghost predicate Grown(fs: Fs, fs': Fs, s: Slot) {
    && Inv(fs) && Reachable(fs, s)
    && Inv(fs') && OnlyAt(fs, fs', s) && Val(fs', s) != 0 && |fs'.used| == |fs.used| && fs'.first == fs.first
    && (Val(fs, s) != 0 ==> fs' == fs)
    && (Val(fs, s) == 0 ==>
          Val(fs', s) < |fs.used| && !fs.used[Val(fs', s)] && fs'.used == fs.used[Val(fs', s) := true])
    && (forall n :: 0 <= n < |fs.inodes| ==> fs'.inodes[n].size == fs.inodes[n].size)
    && (forall x :: 0 <= x < |fs.used| && (s.Top? || x != Val(fs, Parent(s))) ==> fs'.blocks[x] == fs.blocks[x])
  }

  lemma EnsureGrows(fs: Fs, s: Slot)
    requires Inv(fs) && Reachable(fs, s) && (Val(fs, s) == 0 ==> NextZone(fs) < |fs.used| && Clean(fs, s))
    ensures Grown(fs, Ensure(fs, s), s)
  {
    if Val(fs, s) == 0 {
      LinkKeepsInv(fs, s);
      NextZoneIsFree(fs);
    }
  }

  lemma {:induction false} ChainRanks(path: seq<Slot>, k: nat)
    requires Chain(path) && 0 < k < |path|
    ensures Rank(path[0]) < Rank(path[k])
  {
    if k > 1 {
      ChainRanks(path, k - 1);
    }
  }

  /** A step at the slot of a one-slot path is the whole walk. */
  lemma LinkedOne(fs: Fs, fs': Fs, path: seq<Slot>)
    requires |path| == 1 && Chain(path) && Grown(fs, fs', path[0])
    ensures Linked(fs, fs', path)
  {
    forall x | 0 <= x < |fs.used|
      ensures NewAt(fs, fs', path, x) <==> Val(fs, path[0]) == 0 && x == Val(fs', path[0])
    {
      if Val(fs, path[0]) == 0 && x == Val(fs', path[0]) {
        assert IsSlot(fs, path[0]) && Val(fs, path[0]) == 0 && Val(fs', path[0]) == x;
      }
    }
  }

  /** One step of the walk, then the rest of it. */
  lemma LinkedCons(fs: Fs, fs1: Fs, fs': Fs, path: seq<Slot>)
    requires |path| > 1 && Chain(path) && Grown(fs, fs1, path[0]) && Linked(fs1, fs', path[1..])
    ensures Linked(fs, fs', path)
  {
    LinkedConsSlots(fs, fs1, fs', path);
    LinkedConsUsed(fs, fs1, fs', path);
    LinkedConsBlocks(fs, fs1, fs', path);
  }

  ghost predicate TailSame(fs: Fs, fs1: Fs, path: seq<Slot>) {
    |fs1.inodes| == |fs.inodes| && forall k :: 0 < k < |path| ==> path[k] != path[0] && IsSlot(fs, path[k]) && Val(fs1, path[k]) == Val(fs, path[k])
  }

  lemma TailKept(fs: Fs, fs1: Fs, fs': Fs, path: seq<Slot>)
    requires |path| > 1 && Chain(path) && Grown(fs, fs1, path[0]) && Linked(fs1, fs', path[1..])
    ensures TailSame(fs, fs1, path) && path[0] !in path[1..]
  {
    var tail := path[1..];
    forall k | 0 < k < |path| ensures path[k] != path[0] && IsSlot(fs, path[k]) {
      ChainRanks(path, k);
      assert tail[k - 1] == path[k];
    }
  }

  lemma LinkedConsSlots(fs: Fs, fs1: Fs, fs': Fs, path: seq<Slot>)
    requires |path| > 1 && Chain(path) && Grown(fs, fs1, path[0]) && Linked(fs1, fs', path[1..])
    ensures TailSame(fs, fs1, path) && |fs'.inodes| == |fs.inodes| && Val(fs', path[0]) == Val(fs1, path[0])
    ensures forall k :: 0 <= k < |path| ==> IsSlot(fs, path[k]) && Val(fs', path[k]) != 0
    ensures forall k :: 0 <= k < |path| && Val(fs, path[k]) != 0 ==> Val(fs', path[k]) == Val(fs, path[k])
    ensures forall t :: IsSlot(fs, t) && t !in path ==> Val(fs', t) == Val(fs, t)
  {
    var tail := path[1..];
    TailKept(fs, fs1, fs', path);
    hide Inv, IndexAt, NewAt, Chain;
    forall k | 0 <= k < |path|
      ensures IsSlot(fs, path[k]) && Val(fs', path[k]) != 0
      ensures Val(fs, path[k]) != 0 ==> Val(fs', path[k]) == Val(fs, path[k])
    {
      if k > 0 {
        assert tail[k - 1] == path[k];
      }
    }
    forall t | IsSlot(fs, t) && t !in path ensures Val(fs', t) == Val(fs, t) {
      assert t !in tail;
      assert t != path[0];
    }
  }

  lemma LinkedConsUsed(fs: Fs, fs1: Fs, fs': Fs, path: seq<Slot>)
    requires |path| > 1 && Grown(fs, fs1, path[0]) && Linked(fs1, fs', path[1..])
    requires TailSame(fs, fs1, path) && Val(fs', path[0]) == Val(fs1, path[0])
    ensures |fs'.inodes| == |fs.inodes|
    ensures forall x :: 0 <= x < |fs.used| ==> (fs'.used[x] <==> fs.used[x] || NewAt(fs, fs', path, x))
    ensures forall x :: 0 <= x < |fs.used| && NewAt(fs, fs', path, x) ==> !fs.used[x]
  {
    hide Inv, IndexAt;
    forall x | 0 <= x < |fs.used|
      ensures NewAt(fs, fs', path, x) <==> NewAt(fs1, fs', path[1..], x) || (Val(fs, path[0]) == 0 && x == Val(fs', path[0]))
    {
      NewAtCons(fs, fs1, fs', path, x);
    }
    hide NewAt;
  }

  lemma NewAtCons(fs: Fs, fs1: Fs, fs': Fs, path: seq<Slot>, x: int)
    requires |path| > 1 && |fs1.inodes| == |fs'.inodes| == |fs.inodes| && IsSlot(fs, path[0])
    requires TailSame(fs, fs1, path)
    ensures NewAt(fs, fs', path, x) <==> NewAt(fs1, fs', path[1..], x) || (Val(fs, path[0]) == 0 && Val(fs', path[0]) == x)
  {
    var tail := path[1..];
    if NewAt(fs1, fs', tail, x) {
      var k :| 0 <= k < |tail| && IsSlot(fs1, tail[k]) && Val(fs1, tail[k]) == 0 && Val(fs', tail[k]) == x;
      assert tail[k] == path[k + 1];
    }
    if NewAt(fs, fs', path, x) {
      var k :| 0 <= k < |path| && IsSlot(fs, path[k]) && Val(fs, path[k]) == 0 && Val(fs', path[k]) == x;
      if k > 0 {
        assert tail[k - 1] == path[k];
      }
    }
  }

  lemma LinkedConsBlocks(fs: Fs, fs1: Fs, fs': Fs, path: seq<Slot>)
    requires |path| > 1 && Chain(path) && Grown(fs, fs1, path[0]) && Linked(fs1, fs', path[1..])
    requires Val(fs', path[0]) == Val(fs1, path[0]) && |fs'.inodes| == |fs.inodes|
    ensures |fs'.used| == |fs.used|
    ensures forall x :: 0 <= x < |fs.used| && (path[0].Top? || x != Val(fs, Parent(path[0]))) && !IndexAt(fs', path, x)
                   ==> fs'.blocks[x] == fs.blocks[x]
  {
    assert |fs.blocks| == |fs1.blocks| == |fs'.blocks| == |fs.used|;
    hide Inv, NewAt;
    var tail := path[1..];
    forall x | 0 <= x < |fs.used| && (path[0].Top? || x != Val(fs, Parent(path[0]))) && !IndexAt(fs', path, x)
      ensures fs'.blocks[x] == fs.blocks[x]
    {
      IndexAtCons(fs', path, x);
      assert Parent(path[1]) == path[0] && tail[0] == path[1];
    }
  }

  lemma IndexAtCons(fs: Fs, path: seq<Slot>, x: int)
    requires |path| > 1 && IsSlot(fs, path[0])
    ensures IndexAt(fs, path, x) <==> IndexAt(fs, path[1..], x) || Val(fs, path[0]) == x
  {
    var tail := path[1..];
    if IndexAt(fs, tail, x) {
      var k :| 0 <= k < |tail| - 1 && IsSlot(fs, tail[k]) && Val(fs, tail[k]) == x;
      assert path[k + 1] == tail[k];
    }
    if IndexAt(fs, path, x) {
      var k :| 0 <= k < |path| - 1 && IsSlot(fs, path[k]) && Val(fs, path[k]) == x;
      if k > 0 {
        assert tail[k - 1] == path[k];
      }
    }
    if Val(fs, path[0]) == x {
      assert IsSlot(fs, path[0]) && Val(fs, path[0]) == x;
    }
  }

  /** The creating walk, whole. */
  lemma {:induction false} WalkLinks(fs: Fs, path: seq<Slot>)
    requires Chain(path) && Inv(fs) && Reachable(fs, path[0]) && (forall k :: 0 <= k < |path| ==> IsSlot(fs, path[k]))
    requires Walk(fs, path, true).Some? && CleanWalk(fs, path)
    ensures Linked(fs, Walk(fs, path, true).value.0, path)
    ensures Walk(fs, path, true).value.1 == Val(Walk(fs, path, true).value.0, path[|path| - 1])
    decreases |path|
  {
    hide Linked, NewAt, IndexAt, SetSlot, NextZone;
    var fs1 := Ensure(fs, path[0]);
    EnsureGrows(fs, path[0]);
    if |path| == 1 {
      LinkedOne(fs, fs1, path);
    } else {
      var tail := path[1..];
      assert forall k :: 0 <= k < |tail| ==> tail[k] == path[k + 1];
      assert Names(fs1, path[0], Val(fs1, path[0]));
      assert Parent(tail[0]) == path[0];
      WalkLinks(fs1, tail);
      LinkedCons(fs, fs1, Walk(fs1, tail, true).value.0, path);
    }
  }

  // ----------------------------------------------------- bmap, as promised

  lemma PathIsChain(fs: Fs, n: nat, b: nat)
    requires Shape(fs) && n < |fs.inodes| && b < TOTAL_BLOCKS
    ensures Chain(Path(n, b)) && Reachable(fs, Path(n, b)[0])
    ensures forall k :: 0 <= k < |Path(n, b)| ==> IsSlot(fs, Path(n, b)[k]) && Path(n, b)[k].n == n
  {}

  /** Every block but block `b` of file `n` keeps its zone. */
  ghost predicate OthersMapped(fs: Fs, fs': Fs, n: nat, b: nat)
    requires |fs'.inodes| == |fs.inodes|
  {
    forall n', b' :: 0 <= n' < |fs.inodes| && 0 <= b' < TOTAL_BLOCKS && (n' != n || b' != b) ==>
      Lookup(fs', n', b') == Lookup(fs, n', b')
  }

  /** Every zone that holds file contents keeps them. */
  ghost predicate DataKept(fs: Fs, fs': Fs)
    requires |fs'.inodes| == |fs.inodes|
  {
    |fs'.blocks| == |fs.blocks| && forall n', b' :: 0 <= n' < |fs.inodes| && 0 <= b' < TOTAL_BLOCKS ==>
      Lookup(fs', n', b') != 0 ==> Lookup(fs', n', b') < |fs.blocks| && fs'.blocks[Lookup(fs', n', b')] == fs.blocks[Lookup(fs', n', b')]
  }

  /** `bmap` with create links one zone to block `b` of file `n` and no other: later
      lookups return that zone, every other block of every file keeps its mapping
      and its contents, and the one to three zones newly named are the ones newly used. */
  lemma BmapCreate(fs: Fs, n: nat, b: nat, fs': Fs, z: nat)
    requires Inv(fs) && n < |fs.inodes| && b < TOTAL_BLOCKS
    requires Walk(fs, Path(n, b), true) == Some((fs', z)) && CleanWalk(fs, Path(n, b))
    ensures Linked(fs, fs', Path(n, b)) && |Path(n, b)| <= 3 && z == Lookup(fs', n, b) != 0
    ensures Lookup(fs, n, b) != 0 ==> z == Lookup(fs, n, b)
    ensures OthersMapped(fs, fs', n, b) && DataKept(fs, fs')
  {
    PathIsChain(fs, n, b);
    WalkLinks(fs, Path(n, b));
    forall n', b' | 0 <= n' < |fs.inodes| && 0 <= b' < TOTAL_BLOCKS && (n' != n || b' != b)
      ensures Lookup(fs', n', b') == Lookup(fs, n', b')
    {
      DataSlotOffPath(n, b, n', b');
    }
    LinkedKeepsData(fs, fs', n, b);
  }

  lemma LinkedKeepsData(fs: Fs, fs': Fs, n: nat, b: nat)
    requires n < |fs.inodes| && b < TOTAL_BLOCKS && Linked(fs, fs', Path(n, b))
    ensures DataKept(fs, fs')
  {
    PathIsChain(fs, n, b);
    forall n', b' | 0 <= n' < |fs.inodes| && 0 <= b' < TOTAL_BLOCKS && Lookup(fs', n', b') != 0
      ensures Lookup(fs', n', b') < |fs.blocks| == |fs'.blocks|
              && fs'.blocks[Lookup(fs', n', b')] == fs.blocks[Lookup(fs', n', b')]
    {
      DataIsNoIndex(fs', n', b', Path(n, b));
    }
  }

  lemma DataSlotOffPath(n: nat, b: nat, n': nat, b': nat)
    requires b < TOTAL_BLOCKS && b' < TOTAL_BLOCKS && (n' != n || b' != b)
    ensures DataSlot(n', b') !in Path(n, b)
  {
    var p := Path(n, b);
    forall k | 0 <= k < |p| ensures p[k] != DataSlot(n', b') {
      if k == |p| - 1 && p[k] == DataSlot(n', b') {
        DataSlotInjective(n, b, n', b');
      }
      assert !IsIndex(DataSlot(n', b'));
    }
  }

  /** A data block is no index block. */
  lemma DataIsNoIndex(fs: Fs, n: nat, b: nat, path: seq<Slot>)
    requires Inv(fs) && n < |fs.inodes| && b < TOTAL_BLOCKS && Lookup(fs, n, b) != 0 && Chain(path)
    ensures !IndexAt(fs, path, Lookup(fs, n, b)) && Lookup(fs, n, b) < |fs.blocks|
  {
    PathIsChain(fs, n, b);
    assert Names(fs, DataSlot(n, b), Lookup(fs, n, b));
    forall k | 0 <= k < |path| - 1 && IsSlot(fs, path[k])
      ensures Val(fs, path[k]) != Lookup(fs, n, b)
    {
      if Val(fs, path[k]) == Lookup(fs, n, b) {
        SameZoneSameSlot(fs, path[k], DataSlot(n, b));
      }
    }
  }

  lemma SameZoneSameSlot(fs: Fs, s: Slot, t: Slot)
    requires Inv(fs) && IsSlot(fs, s) && IsSlot(fs, t) && Val(fs, s) == Val(fs, t) != 0
    ensures s == t
  {
    assert Names(fs, s, Val(fs, s)) && Names(fs, t, Val(fs, s));
  }

  /** `bmap` without create only looks. */
  lemma {:induction false} BmapLooks(fs: Fs, path: seq<Slot>)
    requires Chain(path) && Inv(fs) && Reachable(fs, path[0]) && (forall k :: 0 <= k < |path| ==> IsSlot(fs, path[k]))
    ensures Walk(fs, path, false) == Some((fs, Val(fs, path[|path| - 1])))
    decreases |path|
  {
    if |path| > 1 {
      var tail := path[1..];
      assert forall k :: 0 <= k < |tail| ==> tail[k] == path[k + 1];
      assert Parent(tail[0]) == path[0];
      if Val(fs, path[0]) == 0 {
        ZeroBelow(fs, path, 0, |path| - 1);
      } else {
        assert Names(fs, path[0], Val(fs, path[0]));
        BmapLooks(fs, tail);
      }
    }
  }

  lemma {:induction false} ZeroBelow(fs: Fs, path: seq<Slot>, j: nat, k: nat)
    requires Chain(path) && j <= k < |path| && OnDisk(fs, path) && Val(fs, path[j]) == 0
    ensures Val(fs, path[k]) == 0
  {
    if j < k {
      ZeroBelow(fs, path, j, k - 1);
      assert Parent(path[k]) == path[k - 1];
    }
  }

  ghost predicate OnDisk(fs: Fs, path: seq<Slot>) { forall k :: 0 <= k < |path| ==> IsSlot(fs, path[k]) }

  // -------------------------------------------------------------- truncate

  /** File `n` uses zone `z`, for data or as an index block. */
  ghost predicate Owns(fs: Fs, n: nat, z: nat) { z != 0 && exists s :: Names(fs, s, z) && s.n == n }

  function Child(s: Slot, i: nat): Slot
    requires IsIndex(s)
  {
    if s.Double? then Leaf(s.n, s.i, i) else if s.i == DIRECT then Single(s.n, i) else Double(s.n, i)
  }

  /** How many levels of index blocks hang below `s`. */
  function Level(s: Slot): nat { if !IsIndex(s) then 0 else if s.Double? || s.i == DIRECT then 1 else 2 }

  /** Zone `z` is in slot `s` or below it. */
  ghost predicate Under(fs: Fs, s: Slot, z: nat)
    requires IsSlot(fs, s)
    decreases Level(s)
  {
    Val(fs, s) != 0 && (Val(fs, s) == z || (IsIndex(s) && exists i: nat :: i < INDEXES && IsSlot(fs, Child(s, i)) && Under(fs, Child(s, i), z)))
  }

  /** The inode top slot above `s`. */
  function Root(s: Slot): Slot {
    match s
    case Top(_, _) => s
    case Single(n, _) => Top(n, DIRECT)
    case Double(n, _) => Top(n, DIRECT + 1)
    case Leaf(n, _, _) => Top(n, DIRECT + 1)
  }

  /** A zone below `s` is in a slot that hangs off `s`. */
  lemma UnderHasSlot(fs: Fs, s: Slot, z: nat) returns (t: Slot)
    requires Inv(fs) && IsSlot(fs, s) && Under(fs, s, z)
    ensures z != 0 && Names(fs, t, z) && t.n == s.n && Hangs(t, s)
    decreases Level(s)
  {
    if Val(fs, s) == z {
      t := s;
    } else {
      var i: nat :| i < INDEXES && IsSlot(fs, Child(s, i)) && Under(fs, Child(s, i), z);
      t := UnderHasSlot(fs, Child(s, i), z);
    }
  }

  /** `t` is `s` or lies in the tree below it. */
  predicate Hangs(t: Slot, s: Slot) {
    t == s || (!t.Top? && (Parent(t) == s || (t.Leaf? && Parent(Parent(t)) == s)))
  }

  lemma OwnedIsUnder(fs: Fs, n: nat, z: nat)
    requires Inv(fs) && n < |fs.inodes|
    ensures Owns(fs, n, z) <==> exists i: nat :: i < DIRECT + 2 && Under(fs, Top(n, i), z)
  {
    if Owns(fs, n, z) {
      var s :| Names(fs, s, z) && s.n == n;
      SlotIsUnderRoot(fs, s);
      assert Root(s).i < DIRECT + 2 && Root(s) == Top(n, Root(s).i);
    }
    if i: nat :| i < DIRECT + 2 && Under(fs, Top(n, i), z) {
      var t := UnderHasSlot(fs, Top(n, i), z);
    }
  }

  lemma SlotIsUnderRoot(fs: Fs, s: Slot)
    requires Inv(fs) && IsSlot(fs, s) && Val(fs, s) != 0
    ensures IsSlot(fs, Root(s)) && Under(fs, Root(s), Val(fs, s))
  {
    var z := Val(fs, s);
    assert Under(fs, s, z);
    if !s.Top? {
      var p := Parent(s);
      assert Child(p, Index(s)) == s;
      assert Under(fs, p, z);
      if !p.Top? {
        assert Child(Parent(p), Index(p)) == p;
        assert Under(fs, Parent(p), z);
      }
    }
  }

  /** Two sibling subtrees share no zone. */
  lemma SubtreesDisjoint(fs: Fs, s: Slot, t: Slot, z: nat)
    requires Inv(fs) && IsSlot(fs, s) && IsSlot(fs, t) && s != t && !Hangs(s, t) && !Hangs(t, s)
    ensures !(Under(fs, s, z) && Under(fs, t, z))
  {
    if Under(fs, s, z) && Under(fs, t, z) {
      var a := UnderHasSlot(fs, s, z);
      var b := UnderHasSlot(fs, t, z);
      SameZoneSameSlot(fs, a, b);
    }
  }

  /** What `inode_truncate` leaves. */
  ghost predicate Truncated(fs: Fs, fs': Fs, n: nat) {
    && n < |fs.inodes| == |fs'.inodes| && fs'.blocks == fs.blocks && fs'.first == fs.first && |fs'.used| == |fs.used|
    && fs'.inodes == fs.inodes[n := Inode(seq(DIRECT + 2, _ => 0), 0)]
    && forall z: nat :: z < |fs.used| ==> (fs'.used[z] <==> fs.used[z] && !Owns(fs, n, z))
  }

  /** `inode_truncate` frees exactly the zones of file `n`, empties all its slots,
      and leaves every other file its slots and zones. */
  lemma TruncateOk(fs: Fs, fs': Fs, n: nat)
    requires Inv(fs) && Truncated(fs, fs', n)
    ensures Inv(fs')
    ensures forall s :: IsSlot(fs, s) ==> Val(fs', s) == if s.n == n then 0 else Val(fs, s)
    ensures forall z :: !Owns(fs', n, z)
    ensures forall m: nat, z: nat :: m != n ==> Owns(fs', m, z) == Owns(fs, m, z)
  {
    forall s | IsSlot(fs, s)
      ensures Val(fs', s) == if s.n == n then 0 else Val(fs, s)
    {
      TruncatedVal(fs, fs', n, s);
    }
    forall s | IsSlot(fs', s) && Val(fs', s) != 0
      ensures fs'.first <= Val(fs', s) < |fs'.used| && fs'.used[Val(fs', s)]
    {
      if Owns(fs, n, Val(fs, s)) {
        var t :| Names(fs, t, Val(fs, s)) && t.n == n;
        SameZoneSameSlot(fs, s, t);
      }
    }
    TruncateKeepsUnique(fs, fs', n);
    hide Truncated;
    forall m: nat, z: nat | m != n ensures Owns(fs', m, z) == Owns(fs, m, z) {
      if Owns(fs', m, z) {
        var s :| Names(fs', s, z) && s.n == m;
        assert Names(fs, s, z);
      }
      if Owns(fs, m, z) {
        var s :| Names(fs, s, z) && s.n == m;
        assert Names(fs', s, z);
      }
    }
  }

  lemma TruncateKeepsUnique(fs: Fs, fs': Fs, n: nat)
    requires Inv(fs) && |fs'.inodes| == |fs.inodes|
    requires forall s :: IsSlot(fs, s) ==> Val(fs', s) == if s.n == n then 0 else Val(fs, s)
    ensures forall s, t, z :: Names(fs', s, z) && Names(fs', t, z) && z != 0 ==> s == t
  {
    forall s, t, z | Names(fs', s, z) && Names(fs', t, z) && z != 0 ensures s == t {
      assert Names(fs, s, z) && Names(fs, t, z);
    }
  }

  lemma TruncatedVal(fs: Fs, fs': Fs, n: nat, s: Slot)
    requires Inv(fs) && Truncated(fs, fs', n) && IsSlot(fs, s)
    ensures Val(fs', s) == if s.n == n then 0 else Val(fs, s)
    decreases Rank(s)
  {
    if !s.Top? {
      TruncatedVal(fs, fs', n, Parent(s));
    }
  }

  // ------------------------------------------ truncate undoes allocations

  /** `fs'` arises from `fs` by creating the blocks `bs` of file `n`, one after the other. */
  ghost predicate Creates(fs: Fs, n: nat, bs: seq<nat>, fs': Fs)
    decreases |bs|
  {
    if bs == [] then fs' == fs
    else
      && Inv(fs) && n < |fs.inodes| && bs[0] < TOTAL_BLOCKS
      && Walk(fs, Path(n, bs[0]), true).Some? && CleanWalk(fs, Path(n, bs[0]))
      && Creates(Walk(fs, Path(n, bs[0]), true).value.0, n, bs[1..], fs')
  }

  lemma OwnedAfterLink(fs: Fs, fs': Fs, n: nat, path: seq<Slot>, x: nat)
    requires path != [] && Linked(fs, fs', path) && (forall k :: 0 <= k < |path| ==> path[k].n == n)
    ensures Owns(fs', n, x) <==> Owns(fs, n, x) || NewAt(fs, fs', path, x)
  {
    if Owns(fs', n, x) {
      var s :| Names(fs', s, x) && s.n == n;
      if s in path {
        var k :| 0 <= k < |path| && path[k] == s;
        assert Val(fs, path[k]) != 0 ==> Names(fs, s, x);
      } else {
        assert Names(fs, s, x);
      }
    }
    if Owns(fs, n, x) {
      var s :| Names(fs, s, x) && s.n == n;
      if s in path {
        var k :| 0 <= k < |path| && path[k] == s;
      }
      assert Names(fs', s, x);
    }
    if NewAt(fs, fs', path, x) {
      var k :| 0 <= k < |path| && IsSlot(fs, path[k]) && Val(fs, path[k]) == 0 && Val(fs', path[k]) == x;
      assert Names(fs', path[k], x);
    }
  }

  /** Along any run of allocations, the zones in use are the old ones and those of the file. */
  lemma {:induction false} CreatesUsed(fs: Fs, n: nat, bs: seq<nat>, fs': Fs, used0: seq<bool>)
    requires Inv(fs) && n < |fs.inodes| && Creates(fs, n, bs, fs') && |used0| == |fs.used|
    requires forall z: nat :: z < |used0| ==> (fs.used[z] <==> used0[z] || Owns(fs, n, z))
    requires forall z: nat :: z < |used0| && Owns(fs, n, z) ==> !used0[z]
    ensures Inv(fs') && n < |fs'.inodes| && |fs'.used| == |used0|
    ensures forall z: nat :: z < |used0| ==> (fs'.used[z] <==> used0[z] || Owns(fs', n, z))
    ensures forall z: nat :: z < |used0| && Owns(fs', n, z) ==> !used0[z]
    decreases |bs|
  {
    if bs != [] {
      var path := Path(n, bs[0]);
      PathIsChain(fs, n, bs[0]);
      var (fs1, z) := Walk(fs, path, true).value;
      BmapCreate(fs, n, bs[0], fs1, z);
      forall z: nat | z < |used0|
        ensures Owns(fs1, n, z) <==> Owns(fs, n, z) || NewAt(fs, fs1, path, z)
      {
        OwnedAfterLink(fs, fs1, n, path, z);
      }
      CreatesUsed(fs1, n, bs[1..], fs', used0);
    }
  }

  /** Truncating an initially empty file after any sequence of `bmap` allocations
      brings the zone bitmap back. */
  lemma TruncateUndoesBmap(fs: Fs, n: nat, bs: seq<nat>, fs': Fs, fs'': Fs)
    requires Inv(fs) && n < |fs.inodes| && (forall z :: !Owns(fs, n, z))
    requires Creates(fs, n, bs, fs') && Truncated(fs', fs'', n)
    ensures fs''.used == fs.used && Inv(fs'')
  {
    CreatesUsed(fs, n, bs, fs', fs.used);
    TruncateOk(fs', fs'', n);
  }
}
