/** Directory blocks, inodes and the inode bitmap, updated in place by the system calls
    on names. */
module Directories {
  import opened Basics
  import opened Links

  class Directory {
    const nodes: array<Node>
    const inUse: array<bool>

    ghost predicate Valid()
      reads this
    {
      nodes.Length == inUse.Length
    }

    function Snap(): Tree
      reads nodes, inUse
    {
      Tree(nodes[..], inUse[..])
    }

    /** `find_entry`. */
    method FindEntry(d: nat, name: string) returns (i: nat)
      requires d < nodes.Length
      ensures i == Find(nodes[d].entries, name, 0)
    {
      i := 0;
      while i < |nodes[d].entries|
        invariant i <= |nodes[d].entries| && Find(nodes[d].entries, name, 0) == Find(nodes[d].entries, name, i)
      {
        if nodes[d].entries[i].nr == 0 {
          i := i + 1;
          continue;
        }
        if nodes[d].entries[i].name == name {
          return;
        }
        i := i + 1;
      }
    }

    /** `add_entry`, of a name that is not there: the entry has its name, not yet its inode. */
    method AddEntry(d: nat, name: string) returns (i: nat)
      requires d < nodes.Length
      modifies nodes
      ensures i == FirstDead(old(nodes[d].entries), 0)
      ensures nodes[..] == old(nodes[..])[d := old(nodes[d]).(entries := Placed(old(nodes[d].entries), i, Dentry(0, Stored(name))))]
    {
      i := 0;
      ghost var es := nodes[d].entries;
      while true
        invariant i <= |es| && nodes[..] == old(nodes[..]) && FirstDead(es, 0) == FirstDead(es, i)
        decreases |es| - i
      {
        if i >= |nodes[d].entries| {
          nodes[d] := nodes[d].(entries := nodes[d].entries + [Dentry(0, "")]);
        }
        if nodes[d].entries[i].nr == 0 {
          break;
        }
        i := i + 1;
      }
      nodes[d] := nodes[d].(entries := nodes[d].entries[i := Dentry(0, Stored(name))]);
      assert nodes[d].entries == Placed(es, i, Dentry(0, Stored(name)));
    }

    /** `ialloc`, where an inode is free. */
    method Ialloc() returns (n: nat)
      requires LowestClear(inUse[..], 0) < inUse.Length
      modifies inUse
      ensures n == LowestClear(old(inUse[..]), 0) && inUse[..] == old(inUse[..])[n := true]
    {
      n := 0;
      while inUse[n]
        invariant n < inUse.Length && LowestClear(inUse[..], 0) == LowestClear(inUse[..], n)
        decreases inUse.Length - n
      {
        n := n + 1;
      }
      inUse[n] := true;
    }

    /** `ifree`; the bit must be set. */
    method Ifree(n: nat)
      requires n < inUse.Length && inUse[n]
      modifies inUse
      ensures inUse[..] == old(inUse[..])[n := false]
    {
      inUse[n] := false;
    }

    lemma NextInBlock(i: nat)
      ensures (i + 1) % BLOCK_DENTRIES == (i % BLOCK_DENTRIES + 1) % BLOCK_DENTRIES
    {}

    /** `is_dir_empty`: `at` is where in the block the entry pointer stands; at the end of a
        block it goes back to the start of the first one. */
    method IsDirEmpty(n: nat) returns (empty: bool)
      requires n < nodes.Length
      ensures empty <==> LooksEmpty(nodes[n].entries)
    {
      var es := nodes[n].entries;
      if |es| < 2 {
        return false;
      }
      var count, at := 0, 0;
      for i := 0 to |es|
        invariant count == CountLive(es, i) && 0 <= at <= BLOCK_DENTRIES && at % BLOCK_DENTRIES == i % BLOCK_DENTRIES
      {
        if at == BLOCK_DENTRIES {
          at := 0;
        }
        assert at == i % BLOCK_DENTRIES;
        if es[at].nr != 0 {
          count := count + 1;
        }
        at := at + 1;
        NextInBlock(i);
      }
      if count < 2 {
        return false;
      }
      return count == 2;
    }

    method SetNr(d: nat, i: nat, n: nat)
      requires d < nodes.Length && i < |nodes[d].entries|
      modifies nodes
      ensures nodes[..] == old(nodes[..])[d := old(nodes[d]).(entries := old(nodes[d]).entries[i := old(nodes[d]).entries[i].(nr := n)])]
    {
      nodes[d] := nodes[d].(entries := nodes[d].entries[i := nodes[d].entries[i].(nr := n)]);
    }

    /** A new entry in directory `p`, naming inode `n`. */
    method NameInode(p: nat, name: string, n: nat)
      requires p < nodes.Length
      modifies nodes
      ensures nodes[..] == old(nodes[..])[p := Grown(old(nodes[p]), name, n)]
    {
      var i := AddEntry(p, name);
      SetNr(p, i, n);
      assert nodes[p].entries == Grown(old(nodes[p]), name, n).entries;
    }

    /** `inode_open`, up to the point where it has made the file. */
    method CreateFile(p: nat, name: string) returns (made: bool)
      requires Valid() && p < nodes.Length && HasInode(Snap(), CreateCall(p, name))
      modifies nodes, inUse
      ensures made <==> Succeeds(old(Snap()), CreateCall(p, name))
      ensures Snap() == Do(old(Snap()), CreateCall(p, name))
    {
      if !(nodes[p].dir && nodes[p].nlinks > 0) || name == "" {
        return false;
      }
      var k := FindEntry(p, name);
      if k < |nodes[p].entries| {
        return false;
      }
      var i := AddEntry(p, name);
      var m := Ialloc();
      SetNr(p, i, m);
      assert nodes[p].entries == Grown(old(nodes[p]), name, m).entries;
      nodes[m] := Node(false, 1, []);
      return true;
    }

    /** `sys_mkdir`. */
    method MakeDir(p: nat, name: string) returns (ok: bool)
      requires Valid() && p < nodes.Length && HasInode(Snap(), MkdirCall(p, name))
      modifies nodes, inUse
      ensures ok <==> Succeeds(old(Snap()), MkdirCall(p, name))
      ensures Snap() == Do(old(Snap()), MkdirCall(p, name))
    {
      if !(nodes[p].dir && nodes[p].nlinks > 0) || name == "" {
        return false;
      }
      var k := FindEntry(p, name);
      if k < |nodes[p].entries| {
        return false;
      }
      var i := AddEntry(p, name);
      var m := Ialloc();
      SetNr(p, i, m);
      assert nodes[p].entries == Grown(old(nodes[p]), name, m).entries;
      nodes[p] := nodes[p].(nlinks := (nodes[p].nlinks + 1) % LINK_WRAP);
      nodes[m] := Node(true, 2, [Dentry(m, DOT), Dentry(p, DOTDOT)]);
      return true;
    }

    /** `sys_rmdir`. */
    method RemoveDir(p: nat, name: string, busy: bool) returns (ok: bool)
      requires Valid() && Inv(Snap()) && p < nodes.Length
      modifies nodes, inUse
      ensures ok <==> Succeeds(old(Snap()), RmdirCall(p, name, busy))
      ensures Snap() == Do(old(Snap()), RmdirCall(p, name, busy))
    {
      if name == "" || name == DOT || name == DOTDOT || !(nodes[p].dir && nodes[p].nlinks > 0) {
        return false;
      }
      var k := FindEntry(p, name);
      if k == |nodes[p].entries| {
        return false;
      }
      var c := nodes[p].entries[k].nr;
      NamedIsLive(Snap(), p, k, c);
      if !nodes[c].dir || busy {
        return false;
      }
      var empty := IsDirEmpty(c);
      if !empty {
        return false;
      }
      RmdirMeetsRemovable(Snap(), RmdirCall(p, name, busy));
      RmdirKeepsInv(Snap(), p, k, c);
      assert nodes[c].nlinks == 2;
      RemoveEntry(p, k, c);
      assert nodes[p].nlinks > 0;
      return true;
    }

    /** The end of `sys_rmdir`. */
    method RemoveEntry(p: nat, k: nat, c: nat)
      requires Valid() && Names(Snap(), p, k, c) && p != c && c < nodes.Length && inUse[c]
      modifies nodes, inUse
      ensures Snap() == Rmdir(old(Snap()), p, k)
    {
      nodes[c] := Node(true, 0, []);
      Ifree(c);
      nodes[p] := nodes[p].(nlinks := nodes[p].nlinks - 1);
      SetNr(p, k, 0);
    }

    /** `sys_link`, of inode `n`. */
    method LinkFile(n: nat, p: nat, name: string) returns (ok: bool)
      requires Valid() && n < nodes.Length && p < nodes.Length && nodes[n].nlinks > 0
      modifies nodes
      ensures ok <==> Succeeds(old(Snap()), LinkCall(n, p, name))
      ensures Snap() == Do(old(Snap()), LinkCall(n, p, name))
    {
      if nodes[n].dir || !(nodes[p].dir && nodes[p].nlinks > 0) || name == "" {
        return false;
      }
      var k := FindEntry(p, name);
      if k < |nodes[p].entries| {
        return false;
      }
      NameInode(p, name, n);
      nodes[n] := nodes[n].(nlinks := (nodes[n].nlinks + 1) % LINK_WRAP);
      return true;
    }

    /** `sys_unlink`. */
    method UnlinkFile(p: nat, name: string) returns (ok: bool)
      requires Valid() && Inv(Snap()) && p < nodes.Length
      modifies nodes, inUse
      ensures Ready(old(Snap()), UnlinkCall(p, name)) && (ok <==> Succeeds(old(Snap()), UnlinkCall(p, name)))
      ensures Snap() == Do(old(Snap()), UnlinkCall(p, name))
    {
      UnlinkAssertHolds(Snap(), UnlinkCall(p, name));
      if name == "" || !(nodes[p].dir && nodes[p].nlinks > 0) {
        return false;
      }
      var k := FindEntry(p, name);
      if k == |nodes[p].entries| {
        return false;
      }
      var n := nodes[p].entries[k].nr;
      NamedIsLive(Snap(), p, k, n);
      if nodes[n].dir {
        return false;
      }
      assert nodes[n].nlinks > 0 && inUse[n];
      DropEntry(p, k, n);
      return true;
    }

    /** The end of `sys_unlink`. */
    method DropEntry(p: nat, k: nat, n: nat)
      requires Valid() && Names(Snap(), p, k, n) && n < nodes.Length && nodes[n].nlinks > 0 && inUse[n]
      modifies nodes, inUse
      ensures Snap() == Unlink(old(Snap()), p, k)
    {
      SetNr(p, k, 0);
      nodes[n] := nodes[n].(nlinks := nodes[n].nlinks - 1);
      if nodes[n].nlinks == 0 {
        nodes[n] := nodes[n].(entries := []);
        Ifree(n);
      }
    }
  }
}
