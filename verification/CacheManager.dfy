/** `cache.c`: the buffers, chains and free list updated in place. */
module CacheManager {
  import opened Basics
  import opened Lists
  import opened BlockCache

  class Manager {
    const capacity: nat
    const buckets: array<seq<nat>>
    var bufs: seq<Buffer>  // those made so far
    var free: seq<nat>
    var disk: Key -> Block

    ghost function Snap(): State
      reads this, buckets
    {
      State(bufs, capacity, free, buckets[..], disk)
    }

    ghost predicate Valid()
      reads this, buckets
    {
      Inv(Snap())
    }

    /** `page_cache_init`, over room for `capacity` buffers. */
    constructor (capacity: nat, disk: Key -> Block)
      ensures fresh(buckets)
      ensures Valid() && HeldIsValid(Snap()) && Represents(Snap(), disk) && this.capacity == capacity && bufs == []
    {
      this.capacity := capacity;
      buckets := new seq<nat>[HASH_COUNT](_ => []);
      bufs, free := [], [];
      this.disk := disk;
    }

    /** Walks the chain of `k`; a buffer found leaves the free list. */
    method GetFromHashTable(k: Key) returns (r: Option<nat>)
      requires Valid()
      modifies this`free
      ensures r == FindIn(old(Snap()).bufs, old(Snap()).buckets[Hash(k)], k)
      ensures free == if r.Some? then Without(old(free), r.value) else old(free)
    {
      var chain := buckets[Hash(k)];
      var n := 0;
      r := None;
      ghost var s := Snap();
      while n < |chain|
        invariant n <= |chain| && Snap() == s
        invariant AllBelow(chain[n..], |s.bufs|)
        invariant FindIn(s.bufs, chain, k) == if r.Some? then r else FindIn(s.bufs, chain[n..], k)
        invariant r.Some? ==> r.value in chain && r.value < |bufs|
      {
        if bufs[chain[n]].key == k {
          r := Some(chain[n]);
          break;
        }
        n := n + 1;
      }
      if r.Some? {
        if r.value in free {
          free := Without(free, r.value);
        } else {
          WithoutAbsent(free, r.value);
        }
      }
    }

    /** A new buffer, else the one released longest ago; None is where the source sleeps. */
    method GetFreeCache(junk: Block) returns (r: Option<nat>)
      requires Valid()
      modifies this`bufs, this`free, buckets
      ensures r.Some? <==> FreeCache(old(Snap()), junk).Some?
      ensures r.Some? ==> FreeCache(old(Snap()), junk) == Some((Snap(), r.value))
      ensures r.None? ==> Snap() == old(Snap())
    {
      if |bufs| < capacity {
        bufs := bufs + [Buffer(Key(NO_DEVICE, 0), 0, false, false, junk)];
        return Some(|bufs| - 1);
      }
      if free != [] {
        ghost var s := Snap();
        var i := free[|free| - 1];
        assert i in free;
        free := free[..|free| - 1];
        HashRemove(i);
        bufs := bufs[i := bufs[i].(valid := false)];
        return Some(i);
      }
      return None;
    }

    method HashRemove(i: nat)
      requires i < |bufs| && buckets.Length == HASH_COUNT
      requires i in buckets[Hash(bufs[i].key)]
      modifies buckets
      ensures buckets[..] == old(buckets[..])[Hash(bufs[i].key) := Without(old(buckets[..])[Hash(bufs[i].key)], i)]
    {
      var h := Hash(bufs[i].key);
      buckets[h] := Without(buckets[h], i);
    }

    method HashLocate(i: nat)
      requires i < |bufs| && buckets.Length == HASH_COUNT
      requires i !in buckets[Hash(bufs[i].key)]
      modifies buckets
      ensures buckets[..] == old(buckets[..])[Hash(bufs[i].key) := [i] + old(buckets[..])[Hash(bufs[i].key)]]
    {
      var h := Hash(bufs[i].key);
      buckets[h] := [i] + buckets[h];
    }

    /** The second half of `getblk`. */
    method GetMissingBlock(k: Key, junk: Block) returns (r: Option<nat>)
      requires Valid() && Absent(Snap(), k)
      modifies this`bufs, this`free, buckets
      ensures r.Some? <==> GetMissing(old(Snap()), k, junk).Some?
      ensures r.Some? ==> Valid() && GetMissing(old(Snap()), k, junk) == Some((Snap(), r.value))
      ensures r.None? ==> Snap() == old(Snap())
    {
      ghost var s := Snap();
      if |s.bufs| < s.capacity {
        NewBufferOk(s, k, junk);
      } else if s.free != [] {
        EvictOk(s, k, junk);
        EvictedShape(s, k, junk);
      }
      r := GetFreeCache(junk);
      if r.Some? {
        var i := r.value;
        ghost var s1 := Snap();
        Unchained(s, k, junk);
        assert bufs[i].count == 0 && !bufs[i].dirty;
        bufs := bufs[i := bufs[i].(count := 1, key := k)];
        HashLocate(i);
        assert Snap() == Claim(s1, i, k);
      }
    }

    method Hold(i: nat)
      requires i < |bufs|
      modifies this`bufs
      ensures Snap() == SetBuf(old(Snap()), i, old(bufs[i]).(count := old(bufs[i]).count + 1))
    {
      bufs := bufs[i := bufs[i].(count := bufs[i].count + 1)];
    }

    method GetBlock(k: Key, junk: Block) returns (r: Option<nat>)
      requires Valid()
      modifies this`bufs, this`free, buckets
      ensures r.Some? <==> Getblk(old(Snap()), k, junk).Some?
      ensures r.Some? ==> Valid() && Getblk(old(Snap()), k, junk) == Some((Snap(), r.value))
      ensures r.None? ==> Snap() == old(Snap())
    {
      ghost var s := Snap();
      GetblkOk(s, k, junk);
      r := GetFromHashTable(k);
      if r.Some? {
        Hold(r.value);
        assert Getblk(s, k, junk) == Some((Snap(), r.value));
      } else {
        FindMisses(s, k);
        r := GetMissingBlock(k, junk);
      }
    }

    /** `bread`, with the device request completed. */
    method ReadBlock(k: Key, junk: Block) returns (r: Option<nat>)
      requires Valid() && HeldIsValid(Snap())
      modifies this`bufs, this`free, buckets
      ensures r.Some? <==> Bread(old(Snap()), k, junk).Some?
      ensures r.Some? ==> Valid() && HeldIsValid(Snap()) && Bread(old(Snap()), k, junk) == Some((Snap(), r.value))
      ensures r.None? ==> Snap() == old(Snap())
    {
      ghost var s := Snap();
      GetblkOk(s, k, junk);
      if Bread(s, k, junk).Some? {
        BreadOk(s, k, junk);
      }
      r := GetBlock(k, junk);
      if r.Some? && !bufs[r.value].valid {
        var b := bufs[r.value];
        bufs := bufs[r.value := b.(data := disk(b.key), dirty := false, valid := true)];
      }
    }

    method WriteBlock(i: nat)
      requires Valid() && i < |bufs|
      modifies this`disk, this`bufs
      ensures Valid() && Snap() == Bwrite(old(Snap()), i)
    {
      BwriteOk(Snap(), i);
      var b := bufs[i];
      if !b.dirty {
        return;
      }
      var was := disk;
      disk := k => if k == b.key then b.data else was(k);
      bufs := bufs[i := b.(dirty := false, valid := true)];
    }

    method ReleaseBlock(i: nat)
      requires Valid() && i < |bufs| && bufs[i].count > 0
      modifies this`disk, this`free, this`bufs
      ensures Valid() && Snap() == Brelse(old(Snap()), i)
    {
      ghost var s := Snap();
      BrelseOk(s, i);
      bufs := bufs[i := bufs[i].(count := bufs[i].count - 1)];
      if bufs[i].count > 0 {
        return;
      }
      free := [i] + free;
      if bufs[i].dirty {
        var b := bufs[i];
        var was := disk;
        disk := k => if k == b.key then b.data else was(k);
        bufs := bufs[i := b.(dirty := false, valid := true)];
      }
    }
  }

  /** `hash_locate` asserts that the buffer is not chained yet. */
  lemma Unchained(s: State, k: Key, junk: Block)
    requires Inv(s)
    ensures FreeCache(s, junk).Some? ==>
              var (s1, i) := FreeCache(s, junk).value;
              i < |s1.bufs| && |s1.buckets| == HASH_COUNT && i !in s1.buckets[Hash(k)]
              && s1.bufs[i].count == 0 && !s1.bufs[i].dirty
  {
    if FreeCache(s, junk).Some? {
      var (s1, i) := FreeCache(s, junk).value;
      if |s.bufs| == s.capacity {
        EvictedShape(s, k, junk);
        CutBucket(s, i, s1.buckets);
      }
      forall j: nat | j < |s1.buckets[Hash(k)]| ensures s1.buckets[Hash(k)][j] != i {}
    }
  }
}
