/** The block buffer cache: a hash table of buffers over a free list that keeps
    the least recently released buffer last. */
module BlockCache {
  import opened Basics
  import opened Lists

  const HASH_COUNT := 101
  const NO_DEVICE: bv32 := 0xFFFF_FFFF

  type Block = seq<bv8>
  datatype Key = Key(dev: bv32, block: bv32)
  datatype Buffer = Buffer(key: Key, count: nat, dirty: bool, valid: bool, data: Block)

  function Hash(k: Key): (h: nat)
    ensures h < HASH_COUNT
  {
    ((k.dev ^ k.block) as nat) % HASH_COUNT
  }

  /** `bufs` are the buffers made so far, at most `capacity`; lists hold buffer numbers. */
  datatype State = State(bufs: seq<Buffer>, capacity: nat, free: seq<nat>, buckets: seq<seq<nat>>, disk: Key -> Block)

  predicate AllBelow(l: seq<nat>, n: nat) { forall j :: 0 <= j < |l| ==> l[j] < n }

  // ------------------------------------------------------------- invariant

  ghost predicate Hashed(s: State) {
    && |s.buckets| == HASH_COUNT
    && (forall i :: 0 <= i < |s.bufs| ==> i in s.buckets[Hash(s.bufs[i].key)])
    && (forall h: nat :: h < HASH_COUNT ==> AllBelow(s.buckets[h], |s.bufs|))
    && (forall h: nat, j: nat :: h < HASH_COUNT && j < |s.buckets[h]| ==> Hash(s.bufs[s.buckets[h][j]].key) == h)
    && (forall h: nat :: h < HASH_COUNT ==> NoDup(s.buckets[h]))
  }

  /** At most one buffer per block. */
  ghost predicate UniqueKeys(s: State) {
    forall i, j :: 0 <= i < j < |s.bufs| ==> s.bufs[i].key != s.bufs[j].key
  }

  ghost predicate FreeIsUnheld(s: State) {
    && NoDup(s.free)
    && AllBelow(s.free, |s.bufs|)
    && (forall i: nat :: i < |s.bufs| ==> (i in s.free <==> s.bufs[i].count == 0))
  }

  ghost predicate ContentsOk(s: State) {
    forall i :: 0 <= i < |s.bufs| ==>
      var b := s.bufs[i];
      (b.dirty ==> b.valid && b.count > 0) && (b.valid && !b.dirty ==> b.data == s.disk(b.key))
  }

  ghost predicate Inv(s: State) {
    |s.bufs| <= s.capacity && Hashed(s) && UniqueKeys(s) && FreeIsUnheld(s) && ContentsOk(s)
  }

  // ------------------------------------------------------------ operations

  /** The walk along one hash chain. */
  function FindIn(bufs: seq<Buffer>, chain: seq<nat>, k: Key): (r: Option<nat>)
    requires AllBelow(chain, |bufs|)
    ensures r.Some? ==> r.value in chain && r.value < |bufs| && bufs[r.value].key == k
    ensures r.None? ==> forall j :: 0 <= j < |chain| ==> bufs[chain[j]].key != k
  {
    if chain == [] then None
    else if bufs[chain[0]].key == k then Some(chain[0])
    else FindIn(bufs, chain[1..], k)
  }

  function SetBuf(s: State, i: nat, b: Buffer): State
    requires i < |s.bufs|
  {
    s.(bufs := s.bufs[i := b])
  }

  /** A buffer is handed to its first holder under a new key. */
  function Claim(s: State, i: nat, k: Key): State
    requires i < |s.bufs| && |s.buckets| == HASH_COUNT
  {
    SetBuf(s, i, s.bufs[i].(key := k, count := 1)).(buckets := s.buckets[Hash(k) := [i] + s.buckets[Hash(k)]])
  }

  /** `get_free_cache`: a new buffer while there is room, else the last of the free list. */
  function FreeCache(s: State, junk: Block): Option<(State, nat)>
    requires |s.buckets| == HASH_COUNT && AllBelow(s.free, |s.bufs|)
  {
    if |s.bufs| < s.capacity then
      Some((s.(bufs := s.bufs + [Buffer(Key(NO_DEVICE, 0), 0, false, false, junk)]), |s.bufs|))
    else if s.free != [] then
      var i := s.free[|s.free| - 1];
      var h := Hash(s.bufs[i].key);
      Some((SetBuf(s, i, s.bufs[i].(valid := false))
            .(free := s.free[..|s.free| - 1], buckets := s.buckets[h := Without(s.buckets[h], i)]), i))
    else None
  }

  /** `getblk` after the search of the hash table has failed. */
  function GetMissing(s: State, k: Key, junk: Block): Option<(State, nat)>
    requires |s.buckets| == HASH_COUNT && AllBelow(s.free, |s.bufs|)
  {
    match FreeCache(s, junk)
    case None => None
    case Some((s1, i)) => if i < |s1.bufs| && |s1.buckets| == HASH_COUNT then Some((Claim(s1, i, k), i)) else None
  }

  ghost function Getblk(s: State, k: Key, junk: Block): Option<(State, nat)>
    requires Inv(s)
  {
    match FindIn(s.bufs, s.buckets[Hash(k)], k)
    case Some(i) => Some((SetBuf(s, i, s.bufs[i].(count := s.bufs[i].count + 1)).(free := Without(s.free, i)), i))
    case None => GetMissing(s, k, junk)
  }

  function Fill(s: State, i: nat): State
    requires i < |s.bufs|
  {
    if s.bufs[i].valid then s
    else SetBuf(s, i, s.bufs[i].(data := s.disk(s.bufs[i].key), dirty := false, valid := true))
  }

  ghost function Bread(s: State, k: Key, junk: Block): Option<(State, nat)>
    requires Inv(s)
  {
    match Getblk(s, k, junk)
    case None => None
    case Some((s1, i)) => if i < |s1.bufs| then Some((Fill(s1, i), i)) else None
  }

  /** A holder changes the data and marks the buffer dirty. */
  function Modify(s: State, i: nat, data: Block): State
    requires i < |s.bufs|
  {
    SetBuf(s, i, s.bufs[i].(data := data, dirty := true))
  }

  function Bwrite(s: State, i: nat): State
    requires i < |s.bufs|
  {
    if !s.bufs[i].dirty then s
    else
      var b := s.bufs[i];
      SetBuf(s, i, b.(dirty := false, valid := true)).(disk := k => if k == b.key then b.data else s.disk(k))
  }

  function Brelse(s: State, i: nat): State
    requires i < |s.bufs| && s.bufs[i].count > 0
  {
    var s1 := SetBuf(s, i, s.bufs[i].(count := s.bufs[i].count - 1));
    if s1.bufs[i].count > 0 then s1
    else Bwrite(s1.(free := [i] + s1.free), i)
  }

  // ----------------------------------------------- the content of a block

  /** What a block holds as far as clients can tell. */
  ghost function Content(s: State, k: Key): Block
    requires Inv(s)
  {
    match FindIn(s.bufs, s.buckets[Hash(k)], k)
    case Some(i) => if s.bufs[i].valid then s.bufs[i].data else s.disk(k)
    case None => s.disk(k)
  }

  lemma FindFinds(s: State, i: nat)
    requires Inv(s) && i < |s.bufs|
    ensures FindIn(s.bufs, s.buckets[Hash(s.bufs[i].key)], s.bufs[i].key) == Some(i)
  {
    var r := FindIn(s.bufs, s.buckets[Hash(s.bufs[i].key)], s.bufs[i].key);
    assert i in s.buckets[Hash(s.bufs[i].key)];
    var j :| 0 <= j < |s.buckets[Hash(s.bufs[i].key)]| && s.buckets[Hash(s.bufs[i].key)][j] == i;
  }

  lemma FindMisses(s: State, k: Key)
    requires Inv(s) && FindIn(s.bufs, s.buckets[Hash(k)], k).None?
    ensures forall i :: 0 <= i < |s.bufs| ==> s.bufs[i].key != k
  {
    forall i | 0 <= i < |s.bufs|
      ensures s.bufs[i].key != k
    {
      if s.bufs[i].key == k {
        FindFinds(s, i);
      }
    }
  }

  /** The content read off the buffers, when the buffer of a key is known. */
  lemma ContentOf(s: State, i: nat)
    requires Inv(s) && i < |s.bufs|
    ensures Content(s, s.bufs[i].key) == if s.bufs[i].valid then s.bufs[i].data else s.disk(s.bufs[i].key)
  {
    FindFinds(s, i);
  }

  lemma ContentUncached(s: State, k: Key)
    requires Inv(s) && (forall i :: 0 <= i < |s.bufs| ==> s.bufs[i].key != k)
    ensures Content(s, k) == s.disk(k)
  {}

  ghost predicate SameContent(s: State, s': State)
    requires Inv(s) && Inv(s')
  {
    forall k :: Content(s', k) == Content(s, k)
  }

  // -------------------------------------------------- steps on one buffer

  /** `s'` differs from `s` in buffer `i`, the free list, and what the disk holds for it. */
  ghost predicate OneBuffer(s: State, s': State, i: nat) {
    && i < |s.bufs| && s'.capacity == s.capacity && s'.buckets == s.buckets
    && |s'.bufs| == |s.bufs| && s'.bufs[i].key == s.bufs[i].key
    && (forall j :: 0 <= j < |s.bufs| && j != i ==> s'.bufs[j] == s.bufs[j])
    && (forall k :: k != s.bufs[i].key ==> s'.disk(k) == s.disk(k))
  }

  ghost predicate BufferOk(s: State, b: Buffer) {
    (b.dirty ==> b.valid && b.count > 0) && (b.valid && !b.dirty ==> b.data == s.disk(b.key))
  }

  lemma OneBufferOk(s: State, s': State, i: nat)
    requires Inv(s) && OneBuffer(s, s', i) && FreeIsUnheld(s') && BufferOk(s', s'.bufs[i])
    ensures Inv(s')
    ensures forall k :: k != s.bufs[i].key ==> Content(s', k) == Content(s, k)
    ensures Content(s', s.bufs[i].key) == if s'.bufs[i].valid then s'.bufs[i].data else s'.disk(s.bufs[i].key)
  {
    forall j | 0 <= j < |s.bufs| ensures BufferOk(s', s'.bufs[j]) {
      if j != i {
        assert s.bufs[j].key != s.bufs[i].key;
        assert BufferOk(s, s.bufs[j]);
      }
    }
    assert Inv(s');
    ContentOf(s', i);
    hide Inv;
    forall k | k != s.bufs[i].key ensures Content(s', k) == Content(s, k) {
      if j: nat :| j < |s.bufs| && s.bufs[j].key == k {
        ContentOf(s, j);
        ContentOf(s', j);
      } else {
        ContentUncached(s, k);
        ContentUncached(s', k);
      }
    }
  }

  /** The same buffers for the same blocks, with as many references each. */
  predicate SameRefs(s: State, s': State) {
    |s'.bufs| == |s.bufs| && forall i :: 0 <= i < |s.bufs| ==> s'.bufs[i].key == s.bufs[i].key && s'.bufs[i].count == s.bufs[i].count
  }

  /** Filling an invalid buffer from disk shows nobody anything new. */
  lemma FillOk(s: State, i: nat)
    requires Inv(s) && i < |s.bufs|
    ensures Inv(Fill(s, i)) && SameContent(s, Fill(s, i))
    ensures Fill(s, i).bufs[i].valid && Fill(s, i).bufs[i].data == Content(s, s.bufs[i].key)
  {
    ContentOf(s, i);
    OneBufferOk(s, Fill(s, i), i);
  }

  /** A holder's change is a write to the content of its block, and to no other. */
  lemma ModifyOk(s: State, i: nat, data: Block)
    requires Inv(s) && i < |s.bufs| && s.bufs[i].count > 0 && s.bufs[i].valid
    ensures Inv(Modify(s, i, data))
    ensures forall k :: Content(Modify(s, i, data), k) == if k == s.bufs[i].key then data else Content(s, k)
  {
    OneBufferOk(s, Modify(s, i, data), i);
  }

  /** Write-back: the content stays, the disk now holds it, and the references are untouched. */
  lemma BwriteOk(s: State, i: nat)
    requires Inv(s) && i < |s.bufs|
    ensures Inv(Bwrite(s, i)) && SameContent(s, Bwrite(s, i)) && !Bwrite(s, i).bufs[i].dirty
    ensures Bwrite(s, i).disk(s.bufs[i].key) == Content(s, s.bufs[i].key)
    ensures SameRefs(s, Bwrite(s, i)) && Bwrite(s, i).free == s.free
  {
    ContentOf(s, i);
    OneBufferOk(s, Bwrite(s, i), i);
  }

  lemma BrelseOk(s: State, i: nat)
    requires Inv(s) && i < |s.bufs| && s.bufs[i].count > 0
    ensures Inv(Brelse(s, i)) && SameContent(s, Brelse(s, i))
  {
    var s' := Brelse(s, i);
    if s.bufs[i].count == 1 {
      ReleasedFreeList(s, s', i);
    }
    ContentOf(s, i);
    OneBufferOk(s, s', i);
  }

  lemma ReleasedFreeList(s: State, s': State, i: nat)
    requires Inv(s) && i < |s.bufs| == |s'.bufs| && s.bufs[i].count > 0 && s'.bufs[i].count == 0
    requires forall j :: 0 <= j < |s.bufs| && j != i ==> s'.bufs[j] == s.bufs[j]
    requires s'.free == [i] + s.free
    ensures FreeIsUnheld(s')
  {
    assert i !in s.free;
  }

  // --------------------------------------------------------------- getblk

  lemma GetblkHitOk(s: State, i: nat)
    requires Inv(s) && i < |s.bufs|
    ensures var s' := SetBuf(s, i, s.bufs[i].(count := s.bufs[i].count + 1)).(free := Without(s.free, i));
            Inv(s') && SameContent(s, s')
  {
    var s' := SetBuf(s, i, s.bufs[i].(count := s.bufs[i].count + 1)).(free := Without(s.free, i));
    WithoutMembers(s.free, i);
    forall j | 0 <= j < |s'.free| ensures s'.free[j] < |s.bufs| {
      assert s'.free[j] in s'.free;
    }
    ContentOf(s, i);
    OneBufferOk(s, s', i);
  }

  ghost predicate Absent(s: State, k: Key) { forall j :: 0 <= j < |s.bufs| ==> s.bufs[j].key != k }

  lemma NewBufferHashed(s: State, s': State, k: Key, b: Buffer)
    requires Inv(s) && s'.bufs == s.bufs + [b] && b.key == k
    requires s'.buckets == s.buckets[Hash(k) := [|s.bufs|] + s.buckets[Hash(k)]]
    ensures Hashed(s')
  {
    hide FreeIsUnheld, ContentsOk, UniqueKeys;
    var h := Hash(k);
    var i := |s.bufs|;
    forall j | 0 <= j < |s'.bufs| ensures j in s'.buckets[Hash(s'.bufs[j].key)] {
      if j < i {
        assert j in s.buckets[Hash(s.bufs[j].key)];
      } else {
        assert s'.buckets[h][0] == i;
      }
    }
  }

  lemma NewBufferFree(s: State, s': State, b: Buffer)
    requires Inv(s) && s'.bufs == s.bufs + [b] && b.count == 1 && s'.free == s.free
    ensures FreeIsUnheld(s')
  {
    hide Hashed, ContentsOk, UniqueKeys;
    forall j | 0 <= j < |s.free| ensures s.free[j] != |s.bufs| {}
  }

  lemma ContentAfterNew(s: State, s': State, b: Buffer, q: Key)
    requires Inv(s) && Inv(s') && Absent(s, b.key) && s'.bufs == s.bufs + [b] && !b.valid && s'.disk == s.disk
    ensures Content(s', q) == Content(s, q)
  {
    if j: nat :| j < |s.bufs| && s.bufs[j].key == q {
      ContentOf(s, j);
      ContentOf(s', j);
    } else {
      ContentUncached(s, q);
      if q == b.key {
        ContentOf(s', |s.bufs|);
      } else {
        ContentUncached(s', q);
      }
    }
  }

  /** A buffer taken from the store of new ones. */
  lemma NewBufferOk(s: State, k: Key, junk: Block)
    requires Inv(s) && Absent(s, k) && |s.bufs| < s.capacity
    ensures GetMissing(s, k, junk).Some?
    ensures var (s', i) := GetMissing(s, k, junk).value;
            Inv(s') && SameContent(s, s') && i == |s.bufs| && s'.bufs == s.bufs + [Buffer(k, 1, false, false, junk)]
  {
    var (s', i) := GetMissing(s, k, junk).value;
    var b := Buffer(k, 1, false, false, junk);
    assert s'.bufs == s.bufs + [b];
    NewBufferHashed(s, s', k, b);
    NewBufferFree(s, s', b);
    forall j | 0 <= j < |s'.bufs| ensures BufferOk(s', s'.bufs[j]) {
      if j < i {
        assert BufferOk(s, s.bufs[j]);
      }
    }
    assert Inv(s');
    forall q ensures Content(s', q) == Content(s, q) {
      ContentAfterNew(s, s', b, q);
    }
  }

  /** The state after the least recently released buffer has gone to block `k`. */
  lemma EvictedShape(s: State, k: Key, junk: Block)
    requires Inv(s) && |s.bufs| == s.capacity && s.free != []
    ensures GetMissing(s, k, junk).Some?
    ensures var (s', i) := GetMissing(s, k, junk).value;
            var old_h := Hash(s.bufs[i].key);
            var cut := s.buckets[old_h := Without(s.buckets[old_h], i)];
            && i == s.free[|s.free| - 1] && s.bufs[i].count == 0 && !s.bufs[i].dirty
            && s'.bufs == s.bufs[i := s.bufs[i].(key := k, count := 1, valid := false)]
            && s'.buckets == cut[Hash(k) := [i] + cut[Hash(k)]]
            && s'.free == s.free[..|s.free| - 1] && s'.disk == s.disk && s'.capacity == s.capacity
  {
    var i := s.free[|s.free| - 1];
    assert i in s.free;
    assert s.bufs[i].count == 0;
  }

  /** `hash_locate`: buffer `i` joins the chain of its key; every other buffer is chained already. */
  lemma PushedHashed(s': State, i: nat, cut: seq<seq<nat>>)
    requires |cut| == HASH_COUNT && i < |s'.bufs|
    requires s'.buckets == cut[Hash(s'.bufs[i].key) := [i] + cut[Hash(s'.bufs[i].key)]]
    requires forall h: nat :: h < HASH_COUNT ==> NoDup(cut[h])
    requires forall h: nat, j: nat :: h < HASH_COUNT && j < |cut[h]| ==>
              cut[h][j] != i && cut[h][j] < |s'.bufs| && Hash(s'.bufs[cut[h][j]].key) == h
    requires forall j: nat :: j < |s'.bufs| && j != i ==> j in cut[Hash(s'.bufs[j].key)]
    ensures Hashed(s')
  {
    var g := Hash(s'.bufs[i].key);
    assert s'.buckets[g][0] == i;
    forall j: nat | j < |cut[g]| ensures s'.buckets[g][j + 1] == cut[g][j] {}
    forall h: nat, j: nat | h < HASH_COUNT && j < |s'.buckets[h]|
      ensures s'.buckets[h][j] < |s'.bufs| && Hash(s'.bufs[s'.buckets[h][j]].key) == h
    {
      if h == g && j > 0 {
        assert s'.buckets[h][j] == cut[h][j - 1];
      }
    }
    forall h: nat | h < HASH_COUNT ensures NoDup(s'.buckets[h]) {
      if h == g {
        forall x, y | 0 <= x < y < |s'.buckets[g]| ensures s'.buckets[g][x] != s'.buckets[g][y] {
          assert s'.buckets[g][y] == cut[g][y - 1];
        }
      }
    }
  }

  /** Moving buffer `i` from its old chain to that of `k`. */
  lemma MovedHashed(s: State, s': State, i: nat, k: Key)
    requires Inv(s) && i < |s.bufs| && |s'.bufs| == |s.bufs| && s'.bufs[i].key == k
    requires forall j :: 0 <= j < |s.bufs| && j != i ==> s'.bufs[j] == s.bufs[j]
    requires var old_h := Hash(s.bufs[i].key);
             var cut := s.buckets[old_h := Without(s.buckets[old_h], i)];
             s'.buckets == cut[Hash(k) := [i] + cut[Hash(k)]]
    ensures Hashed(s')
  {
    var old_h := Hash(s.bufs[i].key);
    var cut := s.buckets[old_h := Without(s.buckets[old_h], i)];
    CutBucket(s, i, cut);
    forall j: nat | j < |s'.bufs| && j != i ensures j in cut[Hash(s'.bufs[j].key)] {
      assert j in s.buckets[Hash(s.bufs[j].key)];
    }
    hide FreeIsUnheld, ContentsOk, UniqueKeys, Inv, Hashed, NoDup;
    PushedHashed(s', i, cut);
  }

  /** The chains once `i` has left its own. */
  lemma CutBucket(s: State, i: nat, cut: seq<seq<nat>>)
    requires Inv(s) && i < |s.bufs|
    requires cut == s.buckets[Hash(s.bufs[i].key) := Without(s.buckets[Hash(s.bufs[i].key)], i)]
    ensures |cut| == HASH_COUNT && forall h: nat :: h < HASH_COUNT ==> NoDup(cut[h])
    ensures forall h: nat, j: nat :: h < HASH_COUNT && j < |cut[h]| ==>
              cut[h][j] != i && cut[h][j] < |s.bufs| && Hash(s.bufs[cut[h][j]].key) == h
    ensures forall h: nat, j: nat :: h < HASH_COUNT && j != i && j in s.buckets[h] ==> j in cut[h]
  {
    var old_h := Hash(s.bufs[i].key);
    WithoutMembers(s.buckets[old_h], i);
    forall h: nat, j: nat | h < HASH_COUNT && j < |cut[h]|
      ensures cut[h][j] != i && cut[h][j] < |s.bufs| && Hash(s.bufs[cut[h][j]].key) == h
    {
      if h == old_h {
        assert cut[h][j] in cut[h];
        var bucket := s.buckets[h];
        assert cut[h][j] in bucket;
        var x :| 0 <= x < |bucket| && bucket[x] == cut[h][j];
      }
    }
  }

  lemma EvictOk(s: State, k: Key, junk: Block)
    requires Inv(s) && Absent(s, k) && |s.bufs| == s.capacity && s.free != []
    ensures GetMissing(s, k, junk).Some?
    ensures var (s', i) := GetMissing(s, k, junk).value;
            Inv(s') && SameContent(s, s') && i < |s.bufs| && s.bufs[i].count == 0 && s'.bufs[i].key == k && s'.bufs[i].count == 1
            && (forall j :: 0 <= j < |s.bufs| && j != i ==> s'.bufs[j] == s.bufs[j])
  {
    EvictedShape(s, k, junk);
    var (s', i) := GetMissing(s, k, junk).value;
    MovedHashed(s, s', i, k);
    EvictedFree(s, s', i);
    forall j | 0 <= j < |s'.bufs| ensures BufferOk(s', s'.bufs[j]) {
      assert BufferOk(s, s.bufs[j]);
    }
    assert Inv(s');
    forall q ensures Content(s', q) == Content(s, q) {
      ContentAfterEviction(s, s', i, k, q);
    }
  }

  lemma EvictedFree(s: State, s': State, i: nat)
    requires Inv(s) && s.free != [] && i == s.free[|s.free| - 1] && i < |s.bufs| == |s'.bufs|
    requires s'.free == s.free[..|s.free| - 1] && s'.bufs[i].count == 1
    requires forall j :: 0 <= j < |s.bufs| && j != i ==> s'.bufs[j] == s.bufs[j]
    ensures FreeIsUnheld(s')
  {
    forall j: nat | j < |s.bufs| ensures j in s'.free <==> s'.bufs[j].count == 0 {
      assert s.free == s'.free + [i];
      assert j in s.free <==> j in s'.free || j == i;
    }
  }

  lemma ContentAfterEviction(s: State, s': State, i: nat, k: Key, q: Key)
    requires Inv(s) && Inv(s') && Absent(s, k) && i < |s.bufs| == |s'.bufs| && s'.disk == s.disk
    requires s.bufs[i].count == 0 && s'.bufs[i].key == k && !s'.bufs[i].valid
    requires forall j :: 0 <= j < |s.bufs| && j != i ==> s'.bufs[j] == s.bufs[j]
    ensures Content(s', q) == Content(s, q)
  {
    if q == k {
      ContentOf(s', i);
      ContentUncached(s, q);
    } else if q == s.bufs[i].key {
      ContentOf(s, i);
      assert BufferOk(s, s.bufs[i]);
      ContentUncached(s', q);
    } else if j: nat :| j < |s.bufs| && s.bufs[j].key == q {
      ContentOf(s, j);
      ContentOf(s', j);
    } else {
      ContentUncached(s, q);
      ContentUncached(s', q);
    }
  }

  /** `getblk` never takes a held buffer, and no client can tell that it ran. */
  lemma GetblkOk(s: State, k: Key, junk: Block)
    requires Inv(s)
    ensures Getblk(s, k, junk).Some? ==>
              var (s', i) := Getblk(s, k, junk).value;
              && Inv(s') && SameContent(s, s') && i < |s'.bufs| && s'.bufs[i].key == k && s'.bufs[i].count > 0
              && (forall j :: 0 <= j < |s.bufs| && s.bufs[j].count > 0 && j != i ==> s'.bufs[j] == s.bufs[j])
              && (i < |s.bufs| && s.bufs[i].count > 0 ==> s'.bufs[i] == s.bufs[i].(count := s.bufs[i].count + 1))
    ensures Getblk(s, k, junk).None? <==> Absent(s, k) && |s.bufs| == s.capacity && s.free == []
  {
    hide ContentsOk, UniqueKeys, Content;
    match FindIn(s.bufs, s.buckets[Hash(k)], k)
    case Some(i) =>
      GetblkHitOk(s, i);
    case None =>
      FindMisses(s, k);
      if |s.bufs| < s.capacity {
        NewBufferOk(s, k, junk);
      } else if s.free != [] {
        EvictOk(s, k, junk);
      }
  }

  // ------------------------------------------------------------------ runs

  /** What a client does; `k` is the block that its buffer `i` holds. */
  datatype Op = Read(k: Key, junk: Block) | Write(k: Key, i: nat, data: Block) | Flush(k: Key, i: nat) | Release(k: Key, i: nat)

  /** References come from `bread`, so a held buffer is filled. */
  ghost predicate HeldIsValid(s: State) { forall i :: 0 <= i < |s.bufs| && s.bufs[i].count > 0 ==> s.bufs[i].valid }

  ghost predicate Legal(s: State, op: Op)
    requires Inv(s)
  {
    if op.Read? then Bread(s, op.k, op.junk).Some?
    else op.i < |s.bufs| && s.bufs[op.i].key == op.k && s.bufs[op.i].count > 0
  }

  ghost function Step(s: State, op: Op): State
    requires Inv(s) && Legal(s, op)
  {
    match op
    case Read(k, junk) => Bread(s, k, junk).value.0
    case Write(_, i, data) => Modify(s, i, data)
    case Flush(_, i) => Bwrite(s, i)
    case Release(_, i) => Brelse(s, i)
  }

  /** The block that a read delivers. */
  ghost function Seen(s: State, op: Op): Option<Block>
    requires Inv(s) && Legal(s, op)
  {
    if op.Read? && Bread(s, op.k, op.junk).value.1 < |Step(s, op).bufs| then
      Some(Step(s, op).bufs[Bread(s, op.k, op.junk).value.1].data)
    else None
  }

  ghost predicate Runs(s: State, ops: seq<Op>, seen: seq<Option<Block>>, last: State)
    decreases |ops|
  {
    if ops == [] then seen == [] && last == s
    else Inv(s) && Legal(s, ops[0]) && |seen| == |ops| && seen[0] == Seen(s, ops[0]) && Runs(Step(s, ops[0]), ops[1..], seen[1..], last)
  }

  /** The machine without a cache: reads and writes go to the disk. */
  function RawStep(raw: Key -> Block, op: Op): Key -> Block {
    if op.Write? then k => if k == op.k then op.data else raw(k) else raw
  }

  function RawSeen(raw: Key -> Block, op: Op): Option<Block> { if op.Read? then Some(raw(op.k)) else None }

  ghost predicate RawRuns(raw: Key -> Block, ops: seq<Op>, seen: seq<Option<Block>>, last: Key -> Block)
    decreases |ops|
  {
    if ops == [] then seen == [] && last == raw
    else |seen| == |ops| && seen[0] == RawSeen(raw, ops[0]) && RawRuns(RawStep(raw, ops[0]), ops[1..], seen[1..], last)
  }

  /** The cache stands for the raw disk `raw`. */
  ghost predicate Represents(s: State, raw: Key -> Block)
    requires Inv(s)
  {
    forall k :: Content(s, k) == raw(k)
  }

  /** `bread` delivers the content of the block asked for, and changes no content. */
  lemma BreadOk(s: State, k: Key, junk: Block)
    requires Inv(s) && HeldIsValid(s) && Bread(s, k, junk).Some?
    ensures var (s', i) := Bread(s, k, junk).value;
            && Inv(s') && HeldIsValid(s') && SameContent(s, s') && i < |s'.bufs|
            && s'.bufs[i].key == k && s'.bufs[i].count > 0 && s'.bufs[i].data == Content(s, k)
  {
    ReadHeldValid(s, k, junk);
    GetblkOk(s, k, junk);
    hide Hashed, FreeIsUnheld, ContentsOk, UniqueKeys, Content, Getblk;
    var (s1, i) := Getblk(s, k, junk).value;
    FillOk(s1, i);
  }

  lemma StepOk(s: State, op: Op)
    requires Inv(s) && HeldIsValid(s) && Legal(s, op)
    ensures Inv(Step(s, op)) && HeldIsValid(Step(s, op))
    ensures forall k :: Content(Step(s, op), k) == if op.Write? && k == op.k then op.data else Content(s, k)
    ensures op.Read? ==> Seen(s, op) == Some(Content(s, op.k))
  {
    hide Hashed, FreeIsUnheld, ContentsOk, UniqueKeys, Content, Bread;
    match op
    case Read(k, junk) => BreadOk(s, k, junk);
    case Write(k, i, data) => ModifyOk(s, i, data);
    case Flush(k, i) => BwriteOk(s, i);
    case Release(k, i) => BrelseOk(s, i);
  }

  lemma ReadHeldValid(s: State, k: Key, junk: Block)
    requires Inv(s) && HeldIsValid(s) && Getblk(s, k, junk).Some?
    ensures var (s1, i) := Getblk(s, k, junk).value; i < |s1.bufs| && HeldIsValid(Fill(s1, i))
  {
    GetblkOk(s, k, junk);
    var (s1, i) := Getblk(s, k, junk).value;
    match FindIn(s.bufs, s.buckets[Hash(k)], k)
    case Some(_) =>
    case None =>
      FindMisses(s, k);
      if |s.bufs| < s.capacity {
        NewBufferOk(s, k, junk);
      } else {
        EvictOk(s, k, junk);
      }
  }

  /** The cache cannot be told from the raw disk: over any run, with evictions and
      reuse, a read delivers the last content written, and a block that nobody
      holds has reached the disk. */
  lemma {:induction false} CacheTransparent(s: State, raw: Key -> Block, ops: seq<Op>, seen: seq<Option<Block>>, last: State)
    returns (rawLast: Key -> Block)
    requires Inv(s) && HeldIsValid(s) && Represents(s, raw) && Runs(s, ops, seen, last)
    ensures RawRuns(raw, ops, seen, rawLast)
    ensures Inv(last) && HeldIsValid(last) && Represents(last, rawLast)
    ensures forall k :: Unheld(last, k) ==> last.disk(k) == rawLast(k)
    decreases |ops|
  {
    if ops == [] {
      rawLast := raw;
      forall k | Unheld(last, k) ensures last.disk(k) == rawLast(k) {
        UnheldIsOnDisk(last, k);
      }
    } else {
      StepOk(s, ops[0]);
      rawLast := CacheTransparent(Step(s, ops[0]), RawStep(raw, ops[0]), ops[1..], seen[1..], last);
    }
  }

  ghost predicate Unheld(s: State, k: Key) { forall i :: 0 <= i < |s.bufs| && s.bufs[i].key == k ==> s.bufs[i].count == 0 }

  lemma UnheldIsOnDisk(s: State, k: Key)
    requires Inv(s) && Unheld(s, k)
    ensures s.disk(k) == Content(s, k)
  {
    if j: nat :| j < |s.bufs| && s.bufs[j].key == k {
      ContentOf(s, j);
      assert BufferOk(s, s.bufs[j]);
    } else {
      ContentUncached(s, k);
    }
  }

  // ------------------------------------------------------------ references

  /** How many references to block `k` the clients hold after `ops`: those that `bread` gave out,
      less those given back. */
  function Outstanding(ops: seq<Op>, k: Key): int
    decreases |ops|
  {
    if ops == [] then 0 else Gives(ops[0], k) + Outstanding(ops[1..], k)
  }

  function Gives(op: Op, k: Key): int { if op.k != k then 0 else if op.Read? then 1 else if op.Release? then -1 else 0 }

  /** Each buffer counts the references to its block; to other blocks there are none. */
  ghost predicate CountsRefs(s: State, refs: Key -> int) {
    && (forall i :: 0 <= i < |s.bufs| ==> s.bufs[i].count == refs(s.bufs[i].key))
    && (forall k :: Absent(s, k) ==> refs(k) == 0)
  }

  /** `getblk` gives one reference more to the buffer of the block, or the first one to a buffer
      that nobody held, and touches no other buffer. */
  lemma GetblkCounts(s: State, k: Key, junk: Block)
    requires Inv(s) && Getblk(s, k, junk).Some?
    ensures var (s', i) := Getblk(s, k, junk).value;
            && i < |s'.bufs| && |s'.bufs| == (if i < |s.bufs| then |s.bufs| else i + 1) && i <= |s.bufs|
            && s'.bufs[i].key == k && (forall j :: 0 <= j < |s.bufs| && j != i ==> s'.bufs[j] == s.bufs[j])
            && if Absent(s, k) then s'.bufs[i].count == 1 && (i < |s.bufs| ==> s.bufs[i].count == 0)
               else i < |s.bufs| && s.bufs[i].key == k && s'.bufs[i].count == s.bufs[i].count + 1
  {
    hide ContentsOk, UniqueKeys;
    if FindIn(s.bufs, s.buckets[Hash(k)], k).None? {
      FindMisses(s, k);
      if |s.bufs| < s.capacity {
        NewBufferOk(s, k, junk);
      } else {
        EvictedShape(s, k, junk);
      }
    }
  }

  lemma ReadCounts(s: State, k: Key, junk: Block, refs: Key -> int, refs': Key -> int)
    requires Inv(s) && Bread(s, k, junk).Some? && CountsRefs(s, refs)
    requires refs'(k) == refs(k) + 1 && forall q :: q != k ==> refs'(q) == refs(q)
    ensures CountsRefs(Bread(s, k, junk).value.0, refs')
  {
    hide Getblk, Hashed, ContentsOk, FreeIsUnheld;
    GetblkCounts(s, k, junk);
    var (s1, i) := Getblk(s, k, junk).value;
    var s' := Fill(s1, i);
    forall j | 0 <= j < |s'.bufs| && j != i ensures s'.bufs[j] == s.bufs[j] && s.bufs[j].key != k {
      assert !Absent(s, k) ==> s.bufs[i].key == k;
    }
    forall q | Absent(s', q) ensures refs'(q) == 0 {
      assert s'.bufs[i].key == k;
      if !Absent(s, q) {
        var j :| 0 <= j < |s.bufs| && s.bufs[j].key == q;
        assert j == i;
      }
    }
  }

  /** Only buffer `i` has another count. */
  lemma OneCount(s: State, s': State, i: nat, d: int, refs: Key -> int, refs': Key -> int)
    requires UniqueKeys(s) && i < |s.bufs| == |s'.bufs| && CountsRefs(s, refs) && s'.bufs[i].count == s.bufs[i].count + d
    requires forall j :: 0 <= j < |s.bufs| ==> s'.bufs[j].key == s.bufs[j].key && (j != i ==> s'.bufs[j].count == s.bufs[j].count)
    requires forall k :: refs'(k) == refs(k) + if k == s.bufs[i].key then d else 0
    ensures CountsRefs(s', refs')
  {
    forall k | Absent(s', k) ensures refs'(k) == 0 {
      assert Absent(s, k) && k != s.bufs[i].key;
    }
  }

  /** A buffer in use stays the buffer of its block. */
  ghost predicate HeldStay(s: State, s': State) {
    forall i :: 0 <= i < |s.bufs| && s.bufs[i].count > 0 ==> i < |s'.bufs| && s'.bufs[i].key == s.bufs[i].key
  }

  lemma ReadStays(s: State, k: Key, junk: Block)
    requires Inv(s) && Bread(s, k, junk).Some?
    ensures HeldStay(s, Bread(s, k, junk).value.0)
  {
    hide Getblk, Hashed, ContentsOk, FreeIsUnheld;
    GetblkCounts(s, k, junk);
  }

  /** Each `bread` adds one to the buffer of its block, each `brelse` takes one off, and nothing
      else changes a count. */
  lemma StepCounts(s: State, op: Op, refs: Key -> int, refs': Key -> int)
    requires Inv(s) && Legal(s, op) && CountsRefs(s, refs) && forall k :: refs'(k) == refs(k) + Gives(op, k)
    ensures CountsRefs(Step(s, op), refs') && HeldStay(s, Step(s, op))
  {
    hide Hashed, ContentsOk, FreeIsUnheld, Bread, CountsRefs;
    match op
    case Read(k, junk) =>
      ReadCounts(s, k, junk, refs, refs');
      ReadStays(s, k, junk);
    case Write(_, i, _) => OneCount(s, Step(s, op), i, 0, refs, refs');
    case Flush(_, i) => OneCount(s, Step(s, op), i, 0, refs, refs');
    case Release(_, i) => OneCount(s, Step(s, op), i, -1, refs, refs');
  }

  /** A block with a reference outstanding has a buffer, which is not free and so not the next
      to be evicted; one without has none that is held. */
  ghost predicate HeldIfReferred(s: State, refs: Key -> int) {
    && (forall k :: refs(k) >= 0 && (refs(k) > 0 ==> !Absent(s, k)))
    && (forall i: nat :: i < |s.bufs| ==> (refs(s.bufs[i].key) > 0 <==> i !in s.free))
  }

  lemma CountsHold(s: State, refs: Key -> int)
    requires Inv(s) && CountsRefs(s, refs)
    ensures HeldIfReferred(s, refs)
  {
    hide Hashed, ContentsOk;
    forall k ensures refs(k) >= 0 {
      if i: nat :| i < |s.bufs| && s.bufs[i].key == k {
        assert s.bufs[i].count == refs(k);
      }
    }
  }

  /** Over any run each buffer counts the references that clients have been given to its block and
      have not given back, and a block is kept while there is one. */
  lemma {:induction false} CountsAreReferences(s: State, ops: seq<Op>, seen: seq<Option<Block>>, last: State, refs: Key -> int)
    requires Inv(s) && HeldIsValid(s) && CountsRefs(s, refs) && Runs(s, ops, seen, last)
    ensures CountsRefs(last, k => refs(k) + Outstanding(ops, k))
    ensures HeldIfReferred(last, k => refs(k) + Outstanding(ops, k))
    decreases |ops|
  {
    hide Inv, HeldIsValid, CountsRefs, HeldIfReferred, Step, Legal, Seen;
    if ops == [] {
      SameFunction(last, refs, k => refs(k) + Outstanding(ops, k));
      CountsHold(last, k => refs(k) + Outstanding(ops, k));
    } else {
      var next := k => refs(k) + Gives(ops[0], k);
      StepOk(s, ops[0]);
      StepCounts(s, ops[0], refs, next);
      CountsAreReferences(Step(s, ops[0]), ops[1..], seen[1..], last, next);
      SameFunction(last, k => next(k) + Outstanding(ops[1..], k), k => refs(k) + Outstanding(ops, k));
    }
  }

  lemma SameFunction(s: State, f: Key -> int, g: Key -> int)
    requires forall k :: f(k) == g(k)
    ensures CountsRefs(s, f) ==> CountsRefs(s, g)
    ensures HeldIfReferred(s, f) ==> HeldIfReferred(s, g)
  {}

  // --------------------------------------------- least recently released

  /** `stamp(i)` is when buffer `i` was last released: the free list runs from the
      latest to the earliest. */
  ghost predicate Lru(s: State, stamp: nat -> nat, now: nat) {
    && AllBelow(s.free, |s.bufs|)
    && (forall i, j :: 0 <= i < j < |s.free| ==> stamp(s.free[i]) > stamp(s.free[j]))
    && (forall i :: 0 <= i < |s.free| ==> stamp(s.free[i]) < now)
  }

  function Stamped(stamp: nat -> nat, i: nat, now: nat): nat -> nat { j => if j == i then now else stamp(j) }

  ghost function NextStamp(s: State, op: Op, stamp: nat -> nat, now: nat): nat -> nat
    requires Inv(s) && Legal(s, op)
  {
    if op.Release? && s.bufs[op.i].count == 1 then Stamped(stamp, op.i, now) else stamp
  }

  lemma BreadKeepsLru(s: State, k: Key, junk: Block, stamp: nat -> nat, now: nat)
    requires Inv(s) && Lru(s, stamp, now) && Bread(s, k, junk).Some?
    ensures Lru(Bread(s, k, junk).value.0, stamp, now)
  {
    GetblkOk(s, k, junk);
    if FindIn(s.bufs, s.buckets[Hash(k)], k).Some? {
      var i := FindIn(s.bufs, s.buckets[Hash(k)], k).value;
      GetblkHitOk(s, i);
      WithoutPairwise(s.free, i, (a: nat, b: nat) => stamp(a) > stamp(b));
      WithoutStamps(s.free, i, stamp, now);
    }
  }

  lemma BrelseKeepsLru(s: State, i: nat, stamp: nat -> nat, now: nat)
    requires Inv(s) && Lru(s, stamp, now) && i < |s.bufs| && s.bufs[i].count > 0
    ensures Lru(Brelse(s, i), if s.bufs[i].count == 1 then Stamped(stamp, i, now) else stamp, now + 1)
  {
    BrelseOk(s, i);
    forall j | 0 <= j < |s.free| ensures s.free[j] != i {
      assert s.free[j] in s.free;
    }
  }

  lemma StepKeepsLru(s: State, op: Op, stamp: nat -> nat, now: nat)
    requires Inv(s) && Legal(s, op) && Lru(s, stamp, now)
    ensures Lru(Step(s, op), NextStamp(s, op, stamp, now), now + 1)
  {
    match op
    case Read(k, junk) =>
      hide Bread, FreeIsUnheld, Hashed, UniqueKeys, ContentsOk;
      BreadKeepsLru(s, k, junk, stamp, now);
    case Write(k, i, data) =>
    case Flush(k, i) =>
    case Release(k, i) =>
      hide Brelse, FreeIsUnheld, Hashed, UniqueKeys, ContentsOk;
      BrelseKeepsLru(s, i, stamp, now);
  }

  lemma WithoutStamps(free: seq<nat>, x: nat, stamp: nat -> nat, now: nat)
    requires forall i :: 0 <= i < |free| ==> stamp(free[i]) < now
    requires forall y :: y in Without(free, x) ==> y in free
    ensures forall i :: 0 <= i < |Without(free, x)| ==> stamp(Without(free, x)[i]) < now
  {
    forall i | 0 <= i < |Without(free, x)| ensures stamp(Without(free, x)[i]) < now {
      assert Without(free, x)[i] in Without(free, x);
    }
  }

  ghost predicate AgedRuns(s: State, stamp: nat -> nat, now: nat, ops: seq<Op>, last: State, lastStamp: nat -> nat)
    decreases |ops|
  {
    if ops == [] then last == s && lastStamp == stamp
    else Inv(s) && Legal(s, ops[0]) && AgedRuns(Step(s, ops[0]), NextStamp(s, ops[0], stamp, now), now + 1, ops[1..], last, lastStamp)
  }

  /** In every reachable state, the buffer to be evicted is one nobody holds, and
      no unheld buffer was released before it. */
  lemma {:induction false} EvictsLeastRecentlyReleased(s: State, stamp: nat -> nat, now: nat, ops: seq<Op>, last: State, lastStamp: nat -> nat, j: nat)
    requires Inv(s) && HeldIsValid(s) && Lru(s, stamp, now) && AgedRuns(s, stamp, now, ops, last, lastStamp)
    requires last.free != [] && j < |last.bufs| && last.bufs[j].count == 0
    ensures var victim := last.free[|last.free| - 1];
            victim < |last.bufs| && last.bufs[victim].count == 0 && lastStamp(victim) <= lastStamp(j)
    decreases |ops|
  {
    if ops == [] {
      var x :| 0 <= x < |last.free| && last.free[x] == j;
      assert last.free[|last.free| - 1] in last.free;
    } else {
      StepOk(s, ops[0]);
      StepKeepsLru(s, ops[0], stamp, now);
      EvictsLeastRecentlyReleased(Step(s, ops[0]), NextStamp(s, ops[0], stamp, now), now + 1, ops[1..], last, lastStamp, j);
    }
  }

  // ------------------------------------------------- waking up in getblk

  /** `getblk` does not look again after it has slept for a free buffer. What it
      does then keeps one buffer per block exactly when no other buffer has come
      to hold the block meanwhile. */
  lemma WakingKeepsUniqueIff(s: State, k: Key, junk: Block)
    requires Inv(s) && GetMissing(s, k, junk).Some?
    ensures var (s', i) := GetMissing(s, k, junk).value;
            UniqueKeys(s') <==> forall j :: 0 <= j < |s.bufs| && j != i ==> s.bufs[j].key != k
  {
    var (s', i) := GetMissing(s, k, junk).value;
    if |s.bufs| < s.capacity {
      assert s'.bufs == s.bufs + [Buffer(k, 1, false, false, junk)];
    } else {
      EvictedShape(s, k, junk);
    }
    if j: nat :| j < |s.bufs| && j != i && s.bufs[j].key == k {
      assert s'.bufs[j].key == s'.bufs[i].key;
    }
  }

  /** Two tasks that slept for the same absent block both get a buffer for it. */
  lemma TwoSleepersDuplicate(s: State, k: Key, junk: Block)
    requires Inv(s) && Absent(s, k) && |s.bufs| == s.capacity && |s.free| >= 2
    ensures var (s1, _) := GetMissing(s, k, junk).value;
            Inv(s1) && GetMissing(s1, k, junk).Some? && !UniqueKeys(GetMissing(s1, k, junk).value.0)
  {
    EvictOk(s, k, junk);
    EvictedShape(s, k, junk);
    var (s1, i1) := GetMissing(s, k, junk).value;
    EvictedShape(s1, k, junk);
    WakingKeepsUniqueIff(s1, k, junk);
    var (s2, i2) := GetMissing(s1, k, junk).value;
    assert s1.free[|s1.free| - 1] in s1.free;
    assert s1.bufs[i1].count == 1 && i1 != i2;
  }
}
