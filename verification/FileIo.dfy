/** Chunked file reads and writes over the block tree, against a flat string of bytes. */
module FileIo {
  import opened Basics
  import opened BlockMap
  import opened BlockTree
  import opened ZoneSupply

  // ------------------------------------------------------ files as strings

  /** Byte `k` of file `n`; zero where the file has no block. */
  ghost function ByteAt(fs: Fs, n: nat, k: nat): byte
    requires n < |fs.inodes|
  {
    if k / BLOCK_SIZE >= TOTAL_BLOCKS then 0
    else
      var z := Lookup(fs, n, k / BLOCK_SIZE);
      if z == 0 || z >= |fs.blocks| then 0 else fs.blocks[z][k % BLOCK_SIZE]
  }

  /** The file as a string of bytes. */
  ghost function File(fs: Fs, n: nat): (f: seq<byte>)
    requires n < |fs.inodes|
    ensures |f| == fs.inodes[n].size
  {
    seq(fs.inodes[n].size, (k: nat) => ByteAt(fs, n, k))
  }

  /** Byte `i` of block `z`; zero where there is no such block. */
  function DiskByte(fs: Fs, z: nat, i: nat): byte
    requires i < BLOCK_SIZE
  {
    if 0 < z < |fs.blocks| then fs.blocks[z][i] else 0
  }

  /** Where the bytes of a file are on the disk: in order in its blocks of 1024, the first seven
      named in the inode, the next 512 in one index block, the others over two. */
  lemma FileOnDisk(fs: Fs, n: nat, k: nat)
    requires n < |fs.inodes| && k < fs.inodes[n].size && k / 1024 < TOTAL_BLOCKS
    ensures var b, zone := k / 1024, fs.inodes[n].zone;
            && (b < 7 ==> File(fs, n)[k] == DiskByte(fs, zone[b], k % 1024))
            && (7 <= b < 519 ==> File(fs, n)[k] == DiskByte(fs, DiskWord(fs, zone[7], b - 7), k % 1024))
            && (b >= 519 ==> (b - 519) / 512 < 512)
            && (b >= 519 ==> var z := DiskWord(fs, DiskWord(fs, zone[8], (b - 519) / 512), (b - 519) % 512);
                             File(fs, n)[k] == DiskByte(fs, z, k % 1024))
  {
    hide Lookup;
    LookupOnDisk(fs, n, k / 1024);
  }

  /** Every block up to byte `hi`, from the one of byte `lo` on, is there. */
  ghost predicate Mapped(fs: Fs, n: nat, lo: nat, hi: nat)
    requires n < |fs.inodes|
  {
    hi <= TOTAL_BLOCKS * BLOCK_SIZE &&
    forall b: nat :: b < TOTAL_BLOCKS && lo / BLOCK_SIZE <= b && b * BLOCK_SIZE < hi ==> Lookup(fs, n, b) != 0
  }

  /** The file has no hole: all its bytes can be read. */
  ghost predicate Whole(fs: Fs, n: nat)
    requires n < |fs.inodes|
  {
    Mapped(fs, n, 0, fs.inodes[n].size)
  }

  function Splice(s: seq<byte>, at: nat, data: seq<byte>): (r: seq<byte>)
    requires at <= |s|
    ensures |r| == Max(|s|, at + |data|)
    ensures forall k :: 0 <= k < |r| ==> r[k] == if at <= k < at + |data| then data[k - at] else s[k]
  {
    s[..at] + data + if at + |data| <= |s| then s[at + |data|..] else []
  }

  function Min(a: nat, b: nat): nat { if a < b then a else b }

  function Max(a: nat, b: nat): nat { if a < b then b else a }

  // ------------------------------------------------------ writing one block

  /** Replaces the contents of a data block, and the size of its file. */
  ghost function StoreBlock(fs: Fs, n: nat, z: nat, data: Block, size: nat): Fs
    requires n < |fs.inodes| && z < |fs.blocks|
  {
    fs.(blocks := fs.blocks[z := data], inodes := fs.inodes[n := fs.inodes[n].(size := size)])
  }

  lemma StoreBlockVal(fs: Fs, n: nat, b: nat, data: Block, size: nat, t: Slot)
    requires Inv(fs) && n < |fs.inodes| && b < TOTAL_BLOCKS && 0 < Lookup(fs, n, b) < |fs.blocks| && IsSlot(fs, t)
    ensures Val(StoreBlock(fs, n, Lookup(fs, n, b), data, size), t) == Val(fs, t)
    decreases Rank(t)
  {
    if !t.Top? {
      StoreBlockVal(fs, n, b, data, size, Parent(t));
      PathIsChain(fs, n, b);
      if Val(fs, Parent(t)) == Lookup(fs, n, b) {
        SameZoneSameSlot(fs, Parent(t), DataSlot(n, b));
      }
    }
  }

  lemma StoreBlockOk(fs: Fs, n: nat, b: nat, data: Block, size: nat)
    requires Inv(fs) && n < |fs.inodes| && b < TOTAL_BLOCKS && 0 < Lookup(fs, n, b) < |fs.blocks|
    ensures Inv(StoreBlock(fs, n, Lookup(fs, n, b), data, size))
    ensures forall n', b' :: 0 <= n' < |fs.inodes| && 0 <= b' < TOTAL_BLOCKS ==>
              Lookup(StoreBlock(fs, n, Lookup(fs, n, b), data, size), n', b') == Lookup(fs, n', b')
  {
    var fs' := StoreBlock(fs, n, Lookup(fs, n, b), data, size);
    forall t | IsSlot(fs, t) ensures Val(fs', t) == Val(fs, t) {
      StoreBlockVal(fs, n, b, data, size, t);
    }
    forall s, t, z | Names(fs', s, z) && Names(fs', t, z) && z != 0 ensures s == t {
      assert Names(fs, s, z) && Names(fs, t, z);
    }
    forall n', b' | 0 <= n' < |fs.inodes| && 0 <= b' < TOTAL_BLOCKS ensures Lookup(fs', n', b') == Lookup(fs, n', b') {
      PathIsChain(fs, n', b');
    }
  }

  /** One turn of the loop of `inode_write`. */
  ghost predicate Chunk(fs: Fs, fs': Fs, n: nat, b: nat, start: nat, data: seq<byte>) {
    && Inv(fs) && Inv(fs') && n < |fs.inodes| == |fs'.inodes| && |fs'.blocks| == |fs.blocks|
    && b < TOTAL_BLOCKS && start + |data| <= BLOCK_SIZE
    && (forall m :: 0 <= m < |fs.inodes| && m != n ==> fs'.inodes[m].size == fs.inodes[m].size)
    && fs'.inodes[n].size == Max(fs.inodes[n].size, b * BLOCK_SIZE + start + |data|)
    && 0 < Lookup(fs', n, b) < |fs.blocks| && (Lookup(fs, n, b) != 0 ==> Lookup(fs', n, b) == Lookup(fs, n, b))
    && fs'.blocks[Lookup(fs', n, b)] == Splice(fs.blocks[Lookup(fs', n, b)], start, data)
    && KeepsOthers(fs, fs', n, b)
    && Grew(fs, fs', n, b)
  }

  /** All blocks of all files but block `b` of file `n` stay as they are. */
  ghost predicate KeepsOthers(fs: Fs, fs': Fs, n: nat, b: nat)
    requires |fs.inodes| == |fs'.inodes| && |fs'.blocks| == |fs.blocks|
  {
    forall n', b' :: 0 <= n' < |fs.inodes| && 0 <= b' < TOTAL_BLOCKS && (n' != n || b' != b) ==> KeepsBlock(fs, fs', n', b')
  }

  ghost predicate KeepsBlock(fs: Fs, fs': Fs, n: nat, b: nat)
    requires n < |fs.inodes| == |fs'.inodes| && |fs'.blocks| == |fs.blocks| && b < TOTAL_BLOCKS
  {
    && Lookup(fs', n, b) == Lookup(fs, n, b)
    && (Lookup(fs, n, b) != 0 ==> Lookup(fs, n, b) < |fs.blocks| && fs'.blocks[Lookup(fs, n, b)] == fs.blocks[Lookup(fs, n, b)])
  }

  /** What `bmap` has done, for the bytes of files. */
  lemma CreateKeepsOthers(fs: Fs, fs1: Fs, z: nat, n: nat, b: nat)
    requires Inv(fs) && n < |fs.inodes| && b < TOTAL_BLOCKS
    requires Walk(fs, Path(n, b), true) == Some((fs1, z)) && CleanWalk(fs, Path(n, b))
    ensures Linked(fs, fs1, Path(n, b)) && Inv(fs1) && |fs1.inodes| == |fs.inodes| && |fs1.blocks| == |fs.blocks| == |fs.used|
    ensures z == Lookup(fs1, n, b) && 0 < z < |fs1.blocks| && fs1.blocks[z] == fs.blocks[z]
    ensures Lookup(fs, n, b) != 0 ==> z == Lookup(fs, n, b)
    ensures KeepsOthers(fs, fs1, n, b)
    ensures forall m :: 0 <= m < |fs.inodes| ==> fs1.inodes[m].size == fs.inodes[m].size
  {
    hide Walk, CleanWalk, Linked, Inv, Path, Val, Lookup;
    BmapCreate(fs, n, b, fs1, z);
    LinkedScalars(fs, fs1, Path(n, b));
    BothKeep(fs, fs1, n, b);
    assert n < |fs.inodes| && fs1.blocks[z] == fs.blocks[z];
    hide OthersMapped, DataKept, KeepsOthers;
  }

  lemma BothKeep(fs: Fs, fs1: Fs, n: nat, b: nat)
    requires |fs1.inodes| == |fs.inodes| && OthersMapped(fs, fs1, n, b) && DataKept(fs, fs1)
    ensures KeepsOthers(fs, fs1, n, b)
  {
    hide Lookup;
  }

  lemma LinkedScalars(fs: Fs, fs1: Fs, path: seq<Slot>)
    requires path != [] && Linked(fs, fs1, path)
    ensures Inv(fs1) && |fs1.inodes| == |fs.inodes| && |fs1.blocks| == |fs.blocks| == |fs.used|
    ensures forall m :: 0 <= m < |fs.inodes| ==> fs1.inodes[m].size == fs.inodes[m].size
  {
    hide NewAt, IndexAt, Val;
  }

  lemma StoreKeepsOthers(fs: Fs, fs': Fs, n: nat, b: nat, data: Block, size: nat)
    requires Inv(fs) && n < |fs.inodes| && b < TOTAL_BLOCKS && 0 < Lookup(fs, n, b) < |fs.blocks|
    requires fs' == StoreBlock(fs, n, Lookup(fs, n, b), data, size)
    ensures Inv(fs') && KeepsOthers(fs, fs', n, b) && Lookup(fs', n, b) == Lookup(fs, n, b)
  {
    StoreBlockOk(fs, n, b, data, size);
    forall n', b' | 0 <= n' < |fs.inodes| && 0 <= b' < TOTAL_BLOCKS && (n' != n || b' != b)
      ensures KeepsBlock(fs, fs', n', b')
    {
      PathIsChain(fs, n', b');
      if Lookup(fs, n', b') == Lookup(fs, n, b) {
        PathIsChain(fs, n, b);
        SameZoneSameSlot(fs, DataSlot(n', b'), DataSlot(n, b));
        DataSlotInjective(n', b', n, b);
      }
      assert Names(fs, DataSlot(n', b'), Lookup(fs, n', b'));
    }
  }

  lemma KeepsOthersTwice(fs: Fs, fs1: Fs, fs': Fs, n: nat, b: nat)
    requires |fs.inodes| == |fs1.inodes| == |fs'.inodes| && |fs.blocks| == |fs1.blocks| == |fs'.blocks|
    requires KeepsOthers(fs, fs1, n, b) && KeepsOthers(fs1, fs', n, b)
    ensures KeepsOthers(fs, fs', n, b)
  {
    hide Lookup;
    forall n', b' | 0 <= n' < |fs.inodes| && 0 <= b' < TOTAL_BLOCKS && (n' != n || b' != b)
      ensures KeepsBlock(fs, fs', n', b')
    {
      assert KeepsBlock(fs, fs1, n', b') && KeepsBlock(fs1, fs', n', b');
    }
  }

  /** Data put into a block of a file changes no slot and no free zone. */
  lemma StoreGrew(fs: Fs, fs1: Fs, fs': Fs, n: nat, b: nat, data: Block, size: nat)
    requires n < |fs.inodes| && b < TOTAL_BLOCKS && Inv(fs1) && Grew(fs, fs1, n, b) && 0 < Lookup(fs1, n, b) < |fs1.blocks|
    requires fs' == StoreBlock(fs1, n, Lookup(fs1, n, b), data, size)
    ensures Grew(fs, fs', n, b)
  {
    hide Taken, Blank;
    forall t | IsSlot(fs1, t) ensures Val(fs', t) == Val(fs1, t) {
      StoreBlockVal(fs1, n, b, data, size, t);
    }
    PathIsChain(fs1, n, b);
    assert Names(fs1, DataSlot(n, b), Lookup(fs1, n, b));
  }

  lemma ChunkOk(fs: Fs, fs1: Fs, z: nat, n: nat, b: nat, start: nat, data: seq<byte>, size: nat)
    requires Inv(fs) && n < |fs.inodes| && b < TOTAL_BLOCKS && start + |data| <= BLOCK_SIZE
    requires Walk(fs, Path(n, b), true) == Some((fs1, z)) && CleanWalk(fs, Path(n, b))
    requires size == Max(fs.inodes[n].size, b * BLOCK_SIZE + start + |data|)
    ensures n < |fs1.inodes| && 0 < z < |fs1.blocks| && Inv(fs1)
    ensures Chunk(fs, StoreBlock(fs1, n, z, Splice(fs1.blocks[z], start, data), size), n, b, start, data)
  {
    CreateKeepsOthers(fs, fs1, z, n, b);
    GoesGrows(fs, fs1, z, n, b);
    hide Walk, CleanWalk, Linked, Path, Val, Lookup, KeepsOthers, Inv, Grew, Splice;
    var data' := Splice(fs1.blocks[z], start, data);
    var fs' := StoreBlock(fs1, n, z, data', size);
    StoreKeepsOthers(fs1, fs', n, b, data', size);
    KeepsOthersTwice(fs, fs1, fs', n, b);
    StoreGrew(fs, fs1, fs', n, b, data', size);
  }

  // ------------------------------------------------------------ whole writes

  /** Block `b` holds some byte of `lo` to `hi`. */
  predicate Touched(b: nat, lo: nat, hi: nat) {
    lo < hi && lo / BLOCK_SIZE <= b && b * BLOCK_SIZE < hi
  }

  ghost predicate BlocksMapped(fs: Fs, fs': Fs, n: nat, lo: nat, hi: nat)
    requires n < |fs.inodes| == |fs'.inodes|
  {
    forall m: nat, b: nat :: m < |fs.inodes| && b < TOTAL_BLOCKS ==>
      && (Lookup(fs, m, b) != 0 || m != n || !Touched(b, lo, hi) ==> Lookup(fs', m, b) == Lookup(fs, m, b))
      && (m == n && Touched(b, lo, hi) ==> Lookup(fs', m, b) != 0)
  }

  ghost predicate BytesWritten(fs: Fs, fs': Fs, n: nat, at: nat, data: seq<byte>)
    requires n < |fs.inodes| == |fs'.inodes|
  {
    && (forall k: nat :: at <= k < at + |data| ==> ByteAt(fs', n, k) == data[k - at])
    && (forall m: nat, k: nat :: Bystander(fs, n, at, at + |data|, m, k) ==> ByteAt(fs', m, k) == ByteAt(fs, m, k))
  }

  /** Byte `k` of file `m` has a block, and is not one of bytes `lo` to `hi` of file `n`. */
  ghost predicate Bystander(fs: Fs, n: nat, lo: nat, hi: nat, m: nat, k: nat) {
    && m < |fs.inodes| && k < TOTAL_BLOCKS * BLOCK_SIZE && !(m == n && lo <= k < hi)
    && (m != n || Lookup(fs, m, k / BLOCK_SIZE) != 0)
  }

  /** What `inode_write` does: the bytes from `at` on are `data`, all other bytes of all
      files are as before, and the file has grown just enough. */
  ghost predicate Written(fs: Fs, fs': Fs, n: nat, at: nat, data: seq<byte>) {
    && Inv(fs) && Inv(fs') && n < |fs.inodes| == |fs'.inodes| && at + |data| <= TOTAL_BLOCKS * BLOCK_SIZE
    && (forall m :: 0 <= m < |fs.inodes| && m != n ==> fs'.inodes[m].size == fs.inodes[m].size)
    && fs'.inodes[n].size == (if data == [] then fs.inodes[n].size else Max(fs.inodes[n].size, at + |data|))
    && BlocksMapped(fs, fs', n, at, at + |data|) && BytesWritten(fs, fs', n, at, data)
  }

  lemma ChunkBytes(fs: Fs, fs': Fs, n: nat, b: nat, start: nat, data: seq<byte>, m: nat, k: nat)
    requires Chunk(fs, fs', n, b, start, data) && m < |fs.inodes| && k < TOTAL_BLOCKS * BLOCK_SIZE
    ensures var at := b * BLOCK_SIZE + start;
            ByteAt(fs', m, k) == if m == n && at <= k < at + |data| then data[k - at]
                                 else if m != n || k / BLOCK_SIZE != b || Lookup(fs, n, b) != 0 then ByteAt(fs, m, k)
                                 else ByteAt(fs', m, k)
  {
    hide Inv, Lookup, Grew;
    if m != n || k / BLOCK_SIZE != b {
      assert KeepsBlock(fs, fs', m, k / BLOCK_SIZE);
    }
  }

  lemma ChunkMaps(fs: Fs, fs': Fs, n: nat, b: nat, start: nat, data: seq<byte>)
    requires Chunk(fs, fs', n, b, start, data) && data != []
    ensures BlocksMapped(fs, fs', n, b * BLOCK_SIZE + start, b * BLOCK_SIZE + start + |data|)
  {
    hide Inv, Lookup, Grew;
    forall m: nat, c: nat | m < |fs.inodes| && c < TOTAL_BLOCKS && (m != n || c != b)
      ensures Lookup(fs', m, c) == Lookup(fs, m, c)
    {
      assert KeepsBlock(fs, fs', m, c);
    }
  }

  lemma MapsOnward(fs: Fs, fs1: Fs, fs': Fs, n: nat, lo: nat, mid: nat, hi: nat)
    requires n < |fs.inodes| == |fs1.inodes| == |fs'.inodes| && lo <= mid < hi
    requires BlocksMapped(fs, fs1, n, lo, mid) && BlocksMapped(fs1, fs', n, mid, hi)
    ensures BlocksMapped(fs, fs', n, lo, hi)
  {
    hide Lookup;
    forall m: nat, b: nat | m < |fs.inodes| && b < TOTAL_BLOCKS
      ensures Lookup(fs, m, b) != 0 || m != n || !Touched(b, lo, hi) ==> Lookup(fs', m, b) == Lookup(fs, m, b)
      ensures m == n && Touched(b, lo, hi) ==> Lookup(fs', m, b) != 0
    {
      assert Touched(b, lo, hi) <==> Touched(b, lo, mid) || Touched(b, mid, hi);
    }
  }

  lemma ChunkFits(fs: Fs, fs': Fs, n: nat, b: nat, start: nat, data: seq<byte>)
    requires Chunk(fs, fs', n, b, start, data)
    ensures |fs'.inodes| == |fs.inodes| && b * BLOCK_SIZE + start + |data| <= TOTAL_BLOCKS * BLOCK_SIZE
  {}

  lemma BytesOnward(fs: Fs, fs1: Fs, fs': Fs, n: nat, at: nat, done: seq<byte>, b: nat, start: nat, data: seq<byte>)
    requires n < |fs.inodes| == |fs1.inodes| && BytesWritten(fs, fs1, n, at, done) && BlocksMapped(fs, fs1, n, at, at + |done|)
    requires Chunk(fs1, fs', n, b, start, data) && b * BLOCK_SIZE + start == at + |done|
    ensures BytesWritten(fs, fs', n, at, done + data)
  {
    ChunkFits(fs1, fs', n, b, start, data);
    hide Inv, Lookup, Grew, ByteAt, Chunk;
    forall k: nat | at <= k < at + |done + data| ensures ByteAt(fs', n, k) == (done + data)[k - at] {
      ChunkBytes(fs1, fs', n, b, start, data, n, k);
      if k < at + |done| {
        assert Touched(k / BLOCK_SIZE, at, at + |done|);
      }
    }
    forall m: nat, k: nat | Bystander(fs, n, at, at + |done + data|, m, k)
      ensures ByteAt(fs', m, k) == ByteAt(fs, m, k)
    {
      ChunkBytes(fs1, fs', n, b, start, data, m, k);
    }
  }

  lemma WrittenOnward(fs: Fs, fs1: Fs, fs': Fs, n: nat, at: nat, done: seq<byte>, b: nat, start: nat, data: seq<byte>)
    requires Written(fs, fs1, n, at, done) && Chunk(fs1, fs', n, b, start, data) && data != []
    requires b * BLOCK_SIZE + start == at + |done|
    ensures Written(fs, fs', n, at, done + data)
  {
    ChunkMaps(fs1, fs', n, b, start, data);
    MapsOnward(fs, fs1, fs', n, at, at + |done|, at + |done + data|);
    BytesOnward(fs, fs1, fs', n, at, done, b, start, data);
    hide Inv, BlocksMapped, BytesWritten, Lookup, KeepsOthers;
  }

  // ----------------------------------------------- the promises, for any file

  /** Written at or before its end, a file without holes is the same string with `data`
      put in place; every other file stays the same string. */
  lemma WriteRefinesSplice(fs: Fs, fs': Fs, n: nat, at: nat, data: seq<byte>)
    requires Written(fs, fs', n, at, data) && Whole(fs, n) && at <= fs.inodes[n].size
    ensures Whole(fs', n) && File(fs', n) == Splice(File(fs, n), at, data)
  {
    hide Inv, Lookup, ByteAt;
    var f := Splice(File(fs, n), at, data);
    assert |File(fs', n)| == |f|;
    forall k | 0 <= k < |f| ensures File(fs', n)[k] == f[k] {
      if !(at <= k < at + |data|) {
        assert Lookup(fs, n, k / BLOCK_SIZE) != 0;
      }
    }
    forall b: nat | b < TOTAL_BLOCKS && b * BLOCK_SIZE < fs'.inodes[n].size ensures Lookup(fs', n, b) != 0 {
      if b * BLOCK_SIZE >= fs.inodes[n].size {
        assert Touched(b, at, at + |data|);
      }
    }
  }

  lemma WriteKeepsOtherFiles(fs: Fs, fs': Fs, n: nat, at: nat, data: seq<byte>, m: nat)
    requires Written(fs, fs', n, at, data) && m < |fs.inodes| && m != n && fs.inodes[m].size <= TOTAL_BLOCKS * BLOCK_SIZE
    ensures File(fs', m) == File(fs, m) && (Whole(fs', m) <==> Whole(fs, m))
  {
    hide Inv, Lookup, ByteAt;
    assert forall k :: 0 <= k < |File(fs, m)| ==> File(fs', m)[k] == File(fs, m)[k];
    assert forall b: nat :: b < TOTAL_BLOCKS ==> Lookup(fs', m, b) == Lookup(fs, m, b);
  }

  /** What was written is read back, wherever it was written. */
  lemma WriteThenRead(fs: Fs, fs': Fs, n: nat, at: nat, data: seq<byte>)
    requires Written(fs, fs', n, at, data) && data != []
    ensures at + |data| <= |File(fs', n)| && File(fs', n)[at..at + |data|] == data
    ensures Mapped(fs', n, at, at + |data|)
  {
    hide Inv, Lookup, ByteAt;
    forall b: nat | b < TOTAL_BLOCKS && at / BLOCK_SIZE <= b && b * BLOCK_SIZE < at + |data| ensures Lookup(fs', n, b) != 0 {
      assert Touched(b, at, at + |data|);
    }
  }

  /** Past its end, a write leaves the file readable exactly when no whole block is skipped. */
  lemma SeekWriteWholeIff(fs: Fs, fs': Fs, n: nat, at: nat, data: seq<byte>)
    requires Written(fs, fs', n, at, data) && Whole(fs, n) && at > fs.inodes[n].size && data != []
    ensures Whole(fs', n) <==> forall b: nat :: b < at / BLOCK_SIZE ==> Lookup(fs, n, b) != 0
  {
    hide Inv, ByteAt, BytesWritten;
    forall b: nat | b < TOTAL_BLOCKS && b * BLOCK_SIZE < at + |data|
      ensures Lookup(fs', n, b) != 0 <==> b >= at / BLOCK_SIZE || Lookup(fs, n, b) != 0
    {
      assert Touched(b, at, at + |data|) <==> b >= at / BLOCK_SIZE;
    }
  }

  /** The size check of `inode_write`, in 32-bit arithmetic. */
  predicate Refused(len: nat, offset: nat, limit: nat) { (len + offset) % WORD >= limit }

  /** The comparison turns away exactly the writes that reach the limit, unless the sum wraps
      round to below it. */
  lemma RefusedIffTooLong(len: nat, offset: nat, limit: nat)
    requires len < WORD && offset < WORD && limit < WORD
    ensures (Refused(len, offset, limit) <==> len + offset >= limit) <==> (len + offset < WORD || len + offset - WORD >= limit)
  {
    if len + offset >= WORD {
      assert (len + offset) % WORD == len + offset - WORD;
    }
  }

  /** A write of nearly four gigabytes at byte 1 is not refused. */
  lemma HugeWritePasses(limit: nat)
    requires 0 < limit < WORD
    ensures !Refused(WORD - 1, 1, limit) && WORD - 1 + 1 >= limit
  {
    assert (WORD - 1 + 1) % WORD == 0;
  }

  // ----------------------------------------------------------- the operations

  /** How many blocks a transfer goes through. */
  function BlocksOf(offset: nat, left: nat): nat {
    if left == 0 then 0 else (offset + left - 1) / BLOCK_SIZE - offset / BLOCK_SIZE + 1
  }

  /** `bmap` of a block that is there. */
  method FindBlock(d: FileSystem, n: nat, b: nat) returns (z: nat)
    requires Inv(d.Snap()) && n < d.inodes.Length && b < TOTAL_BLOCKS && Lookup(d.Snap(), n, b) != 0
    modifies d.inodes, d.blocks, d.used
    ensures d.Snap() == old(d.Snap()) && z == Lookup(d.Snap(), n, b) && 0 < z < d.blocks.Length
  {
    ghost var fs := d.Snap();
    PathIsChain(fs, n, b);
    BmapLooks(fs, Path(n, b));
    assert Names(fs, DataSlot(n, b), Lookup(fs, n, b));
    z := d.Bmap(n, b, false);
  }

  /** `bmap` of a block that may have to be made. */
  method MakeBlock(d: FileSystem, n: nat, b: nat) returns (z: nat)
    requires Inv(d.Snap()) && n < d.inodes.Length && b < TOTAL_BLOCKS
    requires Goes(d.Snap(), Path(n, b))
    modifies d.inodes, d.blocks, d.used
    ensures CleanWalk(old(d.Snap()), Path(n, b)) && Walk(old(d.Snap()), Path(n, b), true) == Some((d.Snap(), z))
    ensures 0 < z < d.blocks.Length && d.inodes[n].size == old(d.inodes[n].size)
  {
    ghost var fs := d.Snap();
    PathIsChain(fs, n, b);
    z := d.Bmap(n, b, true);
    CreateKeepsOthers(fs, d.Snap(), z, n, b);
  }

  /** The body of the loop of `inode_read`. */
  method ReadChunk(d: FileSystem, n: nat, buf: array<byte>, at: nat, left: nat, done: nat) returns (chars: nat)
    requires Inv(d.Snap()) && n < d.inodes.Length && 0 < left && done + left <= buf.Length && at + left <= TOTAL_BLOCKS * BLOCK_SIZE
    requires Lookup(d.Snap(), n, at / BLOCK_SIZE) != 0
    modifies buf, d.inodes, d.blocks, d.used
    ensures d.Snap() == old(d.Snap()) && 0 < chars <= left
    ensures forall k :: 0 <= k < buf.Length ==> buf[k] == if done <= k < done + chars then ByteAt(d.Snap(), n, at + k - done) else old(buf[k])
  {
    var z := FindBlock(d, n, at / BLOCK_SIZE);
    hide Inv, Lookup;
    var start := at % BLOCK_SIZE;
    chars := Min(BLOCK_SIZE - start, left);
    Memcpy(buf, done, d.blocks[z][start..start + chars]);
    forall k | done <= k < done + chars ensures buf[k] == ByteAt(d.Snap(), n, at + k - done) {
      SameBlock(at, k - done);
    }
  }

  lemma SameBlock(at: nat, k: nat)
    requires at % BLOCK_SIZE + k < BLOCK_SIZE
    ensures (at + k) / BLOCK_SIZE == at / BLOCK_SIZE && (at + k) % BLOCK_SIZE == at % BLOCK_SIZE + k
  {}

  /** A turn of the loop finishes one block. */
  lemma BlocksOfStep(at: nat, left: nat, chars: nat)
    requires 0 < left && chars == Min(BLOCK_SIZE - at % BLOCK_SIZE, left) && at + left <= TOTAL_BLOCKS * BLOCK_SIZE
    ensures BlocksOf(at, left) == BlocksOf(at + chars, left - chars) + 1 && at / BLOCK_SIZE < TOTAL_BLOCKS && 0 < chars <= left
    ensures at == at / BLOCK_SIZE * BLOCK_SIZE + at % BLOCK_SIZE && at % BLOCK_SIZE + chars <= BLOCK_SIZE
  {}

  /** `inode_read`; every block it comes to must be there (its assert). */
  method InodeRead(d: FileSystem, n: nat, buf: array<byte>, len: nat, offset: nat) returns (r: int)
    requires Inv(d.Snap()) && n < d.inodes.Length && len <= buf.Length
    requires offset < d.inodes[n].size ==> Mapped(d.Snap(), n, offset, Min(offset + len, d.inodes[n].size))
    modifies buf, d.inodes, d.blocks, d.used
    ensures d.Snap() == old(d.Snap())
    ensures r == if offset >= d.inodes[n].size then EOF else Min(len, d.inodes[n].size - offset)
    ensures r != EOF ==> buf[..r] == File(d.Snap(), n)[offset..offset + r] && buf[r..] == old(buf[r..])
    ensures r == EOF ==> buf[..] == old(buf[..])
  {
    if offset >= d.inodes[n].size {
      return EOF;
    } else if len == 0 {
      return 0;
    }
    var total := Min(len, d.inodes[n].size - offset);
    hide Inv, Lookup, Mapped, ByteAt, File;
    var end := ReadRange(d, n, buf, offset, total);
    r := end - offset;
    FileSlice(d.Snap(), n, offset, offset + total, buf[..r]);
  }

  /** Its loop. */
  method ReadRange(d: FileSystem, n: nat, buf: array<byte>, offset: nat, total: nat) returns (at: nat)
    requires Inv(d.Snap()) && n < d.inodes.Length && total <= buf.Length && Mapped(d.Snap(), n, offset, offset + total)
    modifies buf, d.inodes, d.blocks, d.used
    ensures d.Snap() == old(d.Snap()) && at == offset + total
    ensures forall k :: 0 <= k < buf.Length ==> buf[k] == if k < total then ByteAt(d.Snap(), n, offset + k) else old(buf[k])
  {
    ghost var fs := d.Snap();
    hide Inv, Lookup, Mapped, ByteAt;
    at := offset;
    var left, done := total, 0;
    while left > 0
      invariant 0 <= left && 0 <= done && d.Snap() == fs && done + left == total && at == offset + done
      invariant forall k :: 0 <= k < buf.Length ==> buf[k] == if k < done then ByteAt(fs, n, offset + k) else old(buf[k])
    {
      MappedAt(fs, n, offset, offset + total, at);
      var chars := ReadChunk(d, n, buf, at, left, done);
      at, left, done := at + chars, left - chars, done + chars;
    }
  }

  lemma MappedAt(fs: Fs, n: nat, lo: nat, hi: nat, at: nat)
    requires n < |fs.inodes| && Mapped(fs, n, lo, hi) && lo <= at < hi
    ensures Lookup(fs, n, at / BLOCK_SIZE) != 0 && hi <= TOTAL_BLOCKS * BLOCK_SIZE
  {}

  lemma FileSlice(fs: Fs, n: nat, lo: nat, hi: nat, s: seq<byte>)
    requires n < |fs.inodes| && lo <= hi <= fs.inodes[n].size && |s| == hi - lo
    requires forall k :: 0 <= k < |s| ==> s[k] == ByteAt(fs, n, lo + k)
    ensures s == File(fs, n)[lo..hi]
  {}

  /** `inode_write`, with the file size limit as a parameter. */
  method InodeWrite(d: FileSystem, n: nat, buf: array<byte>, len: nat, offset: nat, limit: nat) returns (r: int)
    requires Inv(d.Snap()) && n < d.inodes.Length && len <= buf.Length && limit <= TOTAL_BLOCKS * BLOCK_SIZE
    requires !Refused(len, offset, limit) ==> len + offset < WORD && CanWrite(d.Snap(), n, offset, len)
    modifies d.inodes, d.blocks, d.used
    ensures Refused(len, offset, limit) ==> r == EOF && d.Snap() == old(d.Snap())
    ensures !Refused(len, offset, limit) ==> r == len && Written(old(d.Snap()), d.Snap(), n, offset, buf[..len])
  {
    hide Inv, BlocksOf, Written, CanWrite;
    if (len + offset) % WORD >= limit {
      return EOF;
    }
    assert len + offset < limit;
    hide Refused;
    WriteNothing(d.Snap(), n, offset);
    ghost var fs := d.Snap();
    var at, left: nat, done := offset, len, 0;
    assert buf[..0] == [];
    while left > 0
      invariant done + left == len && at == offset + done && CanWrite(d.Snap(), n, at, left)
      invariant Written(fs, d.Snap(), n, offset, buf[..done])
    {
      var chars := WriteChunk(d, n, buf, at, left, done, fs, offset);
      assert buf[..done] + buf[done..done + chars] == buf[..done + chars];
      at, left, done := at + chars, left - chars, done + chars;
    }
    r := at - offset;
  }

  /** The zones are there, and clean where they have to be, for the blocks that a write goes through. */
  ghost predicate CanWrite(fs: Fs, n: nat, at: nat, left: nat) {
    Room(fs, n, at / BLOCK_SIZE, at / BLOCK_SIZE + BlocksOf(at, left))
  }

  /** A write goes on exactly when its first block can be made and the others then too. */
  lemma CanWriteIff(fs: Fs, fs': Fs, n: nat, at: nat, left: nat, chars: nat)
    requires Inv(fs) && Inv(fs') && 0 < left && at + left <= TOTAL_BLOCKS * BLOCK_SIZE && n < |fs.inodes| == |fs'.inodes|
    requires chars == Min(BLOCK_SIZE - at % BLOCK_SIZE, left) && at / BLOCK_SIZE < TOTAL_BLOCKS
    requires Grew(fs, fs', n, at / BLOCK_SIZE)
    ensures CanWrite(fs, n, at, left) <==> Goes(fs, Path(n, at / BLOCK_SIZE)) && CanWrite(fs', n, at + chars, left - chars)
  {
    hide Inv, Grew, Goes, Path, Supplies, Taken;
    var b := at / BLOCK_SIZE;
    BlocksOfStep(at, left, chars);
    RoomIff(fs, fs', n, b, b + BlocksOf(at, left));
    if left == chars {
      assert Wanted(fs', n, b + 1, b + 1, {}) == Wanted(fs', n, (at + chars) / BLOCK_SIZE, (at + chars) / BLOCK_SIZE, {}) == [];
      NothingWanted(fs');
    }
  }

  lemma NothingWanted(fs: Fs)
    requires Inv(fs)
    ensures |fs.blocks| == |fs.used| && Supplies(fs.used, fs.blocks, [])
  {}

  lemma WriteNothing(fs: Fs, n: nat, at: nat)
    requires Inv(fs) && n < |fs.inodes| && at <= TOTAL_BLOCKS * BLOCK_SIZE
    ensures Written(fs, fs, n, at, [])
  {}

  /** The body of the loop of `inode_write`. */
  method WriteChunk(d: FileSystem, n: nat, buf: array<byte>, at: nat, left: nat, done: nat, ghost fs: Fs, ghost offset: nat) returns (chars: nat)
    requires CanWrite(d.Snap(), n, at, left) && 0 < left && done + left <= buf.Length && at + left <= TOTAL_BLOCKS * BLOCK_SIZE
    requires Written(fs, d.Snap(), n, offset, buf[..done]) && at == offset + done
    modifies d.inodes, d.blocks, d.used
    ensures 0 < chars <= left && Written(fs, d.Snap(), n, offset, buf[..done] + buf[done..done + chars])
    ensures CanWrite(d.Snap(), n, at + chars, left - chars)
  {
    ghost var fs0 := d.Snap();
    hide Inv, Grew, Written, BlocksOf, Chunk, CanWrite;
    var start := at % BLOCK_SIZE;
    chars := Min(BLOCK_SIZE - start, left);
    BlocksOfStep(at, left, chars);
    CanWriteFirst(fs0, n, at, left);
    PutChunk(d, n, at / BLOCK_SIZE, start, buf[done..done + chars]);
    ChunkGrew(fs0, d.Snap(), n, at / BLOCK_SIZE, start, buf[done..done + chars]);
    CanWriteIff(fs0, d.Snap(), n, at, left, chars);
    WrittenOnward(fs, fs0, d.Snap(), n, offset, buf[..done], at / BLOCK_SIZE, start, buf[done..done + chars]);
  }

  lemma CanWriteFirst(fs: Fs, n: nat, at: nat, left: nat)
    requires CanWrite(fs, n, at, left) && 0 < left && at + left <= TOTAL_BLOCKS * BLOCK_SIZE
    ensures Inv(fs) && n < |fs.inodes| && at / BLOCK_SIZE < TOTAL_BLOCKS && Goes(fs, Path(n, at / BLOCK_SIZE))
  {
    hide Inv, Goes, Blank, Taken, Wanted, Supplies;
    BlocksOfStep(at, left, Min(BLOCK_SIZE - at % BLOCK_SIZE, left));
    RoomGoes(fs, n, at / BLOCK_SIZE, at / BLOCK_SIZE + BlocksOf(at, left));
  }

  lemma ChunkGrew(fs: Fs, fs': Fs, n: nat, b: nat, start: nat, data: seq<byte>)
    requires Chunk(fs, fs', n, b, start, data)
    ensures Inv(fs) && Inv(fs') && n < |fs.inodes| == |fs'.inodes| && b < TOTAL_BLOCKS && Grew(fs, fs', n, b)
  {}

  /** Puts bytes into one block of a file, making the block if need be. */
  method PutChunk(d: FileSystem, n: nat, b: nat, start: nat, data: seq<byte>)
    requires Inv(d.Snap()) && n < d.inodes.Length && b < TOTAL_BLOCKS && start + |data| <= BLOCK_SIZE
    requires Goes(d.Snap(), Path(n, b))
    modifies d.inodes, d.blocks, d.used
    ensures Chunk(old(d.Snap()), d.Snap(), n, b, start, data)
  {
    ghost var fs := d.Snap();
    var z := MakeBlock(d, n, b);
    StoreInBlock(d, n, b, z, start, data, fs);
  }

  /** Grows the size and copies the bytes in. */
  method StoreInBlock(d: FileSystem, n: nat, b: nat, z: nat, start: nat, data: seq<byte>, ghost fs: Fs)
    requires Inv(fs) && n < |fs.inodes| && b < TOTAL_BLOCKS && start + |data| <= BLOCK_SIZE
    requires Walk(fs, Path(n, b), true) == Some((d.Snap(), z)) && CleanWalk(fs, Path(n, b))
    modifies d.inodes, d.blocks
    ensures Chunk(fs, d.Snap(), n, b, start, data)
  {
    ghost var fs1 := d.Snap();
    var end := b * BLOCK_SIZE + start + |data|;
    CreateKeepsOthers(fs, fs1, z, n, b);
    ChunkOk(fs, fs1, z, n, b, start, data, Max(fs.inodes[n].size, end));
    hide Inv, Walk, CleanWalk, Path, Chunk, Lookup, KeepsOthers, Linked, Splice;
    if end > d.inodes[n].size {
      d.inodes[n] := d.inodes[n].(size := end);
    }
    d.blocks[z] := Splice(d.blocks[z], start, data);
    assert d.Snap() == StoreBlock(fs1, n, z, Splice(fs1.blocks[z], start, data), Max(fs.inodes[n].size, end));
  }
}
