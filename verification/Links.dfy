/** Directories and link counts: what creating, removing, linking and unlinking names
    does to the tree, and what stays true of it. */
module Links {
  import opened Basics

  const NAME_LEN := 14
  const BLOCK_DENTRIES := 64
  const ROOT := 1
  const LINK_WRAP := 256
  const DOT := "."
  const DOTDOT := ".."

  /** A directory entry; inode number zero marks an empty one. */
  datatype Dentry = Dentry(nr: nat, name: string)

  datatype Node = Node(dir: bool, nlinks: nat, entries: seq<Dentry>)

  datatype Tree = Tree(nodes: seq<Node>, inUse: seq<bool>)

  /** The name as the entry keeps it: 13 characters and the end mark. */
  function Stored(name: string): (s: string)
    ensures |s| < NAME_LEN
    ensures s == name <==> |name| < NAME_LEN
  {
    if |name| < NAME_LEN then name else name[..NAME_LEN - 1]
  }

  // ------------------------------------------------------------- the tree

  predicate IsDir(t: Tree, d: nat) { d < |t.nodes| && t.nodes[d].dir && t.nodes[d].nlinks > 0 }

  /** Entry `i` of live directory `d` names inode `n`. */
  predicate Names(t: Tree, d: nat, i: nat, n: nat) {
    IsDir(t, d) && i < |t.nodes[d].entries| && t.nodes[d].entries[i].nr == n && n != 0
  }

  datatype Place = Place(d: nat, i: nat)

  /** The live entries that name inode `n`. */
  ghost function Places(t: Tree, n: nat): set<Place> {
    set d: nat, i: nat | d < |t.nodes| && i < |t.nodes[d].entries| && Names(t, d, i, n) :: Place(d, i)
  }

  predicate Has(t: Tree, d: nat, name: string)
    requires IsDir(t, d)
  {
    exists i: nat :: i < |t.nodes[d].entries| && t.nodes[d].entries[i].nr != 0 && t.nodes[d].entries[i].name == name
  }

  /** A bit of the inode bitmap is set exactly while the inode has links. */
  ghost predicate Shape(t: Tree) {
    && ROOT < |t.nodes| == |t.inUse| && t.inUse[0] && t.nodes[0].nlinks == 0
    && (forall n :: 0 < n < |t.nodes| ==> (t.inUse[n] <==> t.nodes[n].nlinks > 0))
    && (forall n :: 0 <= n < |t.nodes| ==> t.nodes[n].nlinks < LINK_WRAP)
  }

  /** Every link count is the number of live entries naming the inode. */
  ghost predicate Counted(t: Tree) { forall n: nat :: n != 0 ==> Links(t, n) == |Places(t, n)| }

  function Links(t: Tree, n: nat): nat { if n < |t.nodes| then t.nodes[n].nlinks else 0 }

  /** No directory has the same name twice. */
  ghost predicate Unique(t: Tree) {
    forall d: nat, i: nat, j: nat, m: nat, n: nat ::
      Names(t, d, i, m) && Names(t, d, j, n) && SameName(t, d, i, j) ==> i == j
  }

  predicate SameName(t: Tree, d: nat, i: nat, j: nat) {
    && d < |t.nodes| && i < |t.nodes[d].entries| && j < |t.nodes[d].entries|
    && t.nodes[d].entries[i].name == t.nodes[d].entries[j].name
  }

  function Up(t: Tree, d: nat): nat
    requires d < |t.nodes| && |t.nodes[d].entries| >= 2
  {
    t.nodes[d].entries[1].nr
  }

  /** Each directory starts with `.` and `..`, and its one other name is in the directory
      that `..` leads to; the root has none. */
  ghost predicate Dirs(t: Tree) {
    DotsOk(t) && (forall c: nat :: IsDir(t, c) && c != ROOT ==> HasHome(t, c)) && HomeIsUp(t) && HomeIsOne(t)
  }

  ghost predicate HomeIsUp(t: Tree)
    requires DotsOk(t)
  {
    forall d: nat, i: nat, c: nat :: Names(t, d, i, c) && i >= 2 && IsDir(t, c) ==> c != ROOT && Up(t, c) == d
  }

  ghost predicate HomeIsOne(t: Tree) {
    forall d: nat, i: nat, j: nat, c: nat :: Names(t, d, i, c) && Names(t, d, j, c) && i >= 2 && j >= 2 && IsDir(t, c) ==> i == j
  }

  ghost predicate DotsOk(t: Tree) {
    IsDir(t, ROOT) && !IsDir(t, 0) && (forall d: nat :: IsDir(t, d) ==> Dotted(t, d)) && Up(t, ROOT) == ROOT
  }

  ghost predicate HasHome(t: Tree, c: nat)
    requires DotsOk(t) && IsDir(t, c)
  {
    exists i: nat :: Names(t, Up(t, c), i, c) && i >= 2
  }

  ghost predicate Dotted(t: Tree, d: nat)
    requires IsDir(t, d)
  {
    var es := t.nodes[d].entries;
    |es| >= 2 && es[0] == Dentry(d, DOT) && es[1].name == DOTDOT && es[1].nr != 0 && IsDir(t, es[1].nr)
  }

  /** `..` leads towards the root. */
  ghost predicate Ranked(t: Tree, depth: seq<nat>) {
    |depth| == |t.nodes| &&
    forall c: nat :: IsDir(t, c) && c != ROOT && |t.nodes[c].entries| >= 2 && Up(t, c) < |t.nodes| ==> depth[Up(t, c)] < depth[c]
  }

  ghost predicate Inv(t: Tree) {
    Shape(t) && Counted(t) && Unique(t) && Dirs(t) && exists depth: seq<nat> :: Ranked(t, depth)
  }

  lemma NoLinksNoPlaces(t: Tree, n: nat)
    requires Counted(t) && Links(t, n) == 0 && n != 0
    ensures Places(t, n) == {} && forall d: nat, i: nat :: !Names(t, d, i, n)
  {
    assert forall d: nat, i: nat :: Names(t, d, i, n) <==> Place(d, i) in Places(t, n);
  }

  lemma NamedIsLive(t: Tree, d: nat, i: nat, n: nat)
    requires Counted(t) && Names(t, d, i, n)
    ensures 0 < n < |t.nodes| && t.nodes[n].nlinks > 0
  {
    assert Place(d, i) in Places(t, n);
  }

  // ----------------------------------------------------------- operations

  /** `find_entry`: the first live entry of that name, from entry `i` on. */
  function Find(es: seq<Dentry>, name: string, i: nat): (k: nat)
    requires i <= |es|
    ensures i <= k <= |es|
    ensures forall j :: i <= j < k ==> es[j].nr == 0 || es[j].name != name
    ensures k < |es| ==> es[k].nr != 0 && es[k].name == name
    decreases |es| - i
  {
    if i == |es| || (es[i].nr != 0 && es[i].name == name) then i else Find(es, name, i + 1)
  }

  /** Where `add_entry` puts a new entry: the first empty one, else one more at the end. */
  function FirstDead(es: seq<Dentry>, i: nat): (k: nat)
    requires i <= |es|
    ensures i <= k <= |es|
    ensures forall j :: i <= j < k ==> es[j].nr != 0
    ensures k < |es| ==> es[k].nr == 0
    decreases |es| - i
  {
    if i == |es| || es[i].nr == 0 then i else FirstDead(es, i + 1)
  }

  function Placed(es: seq<Dentry>, k: nat, e: Dentry): seq<Dentry>
    requires k <= |es|
  {
    if k == |es| then es + [e] else es[k := e]
  }

  /** `ialloc`: the lowest clear bit. */
  function NextInode(t: Tree): nat { LowestClear(t.inUse, 0) }

  function Grown(nd: Node, name: string, nr: nat): Node {
    nd.(entries := Placed(nd.entries, FirstDead(nd.entries, 0), Dentry(nr, Stored(name))))
  }

  /** A name may be made in directory `p`. */
  predicate Fresh(t: Tree, p: nat, name: string) {
    IsDir(t, p) && name != "" && Find(t.nodes[p].entries, name, 0) == |t.nodes[p].entries|
  }

  /** The path of `inode_open` that makes a file. */
  function Create(t: Tree, p: nat, name: string): Tree
    requires Fresh(t, p, name) && NextInode(t) < |t.nodes| == |t.inUse|
  {
    var m := NextInode(t);
    Tree(t.nodes[p := Grown(t.nodes[p], name, m)][m := Node(false, 1, [])], t.inUse[m := true])
  }

  function Bumped(nd: Node): Node { nd.(nlinks := (nd.nlinks + 1) % LINK_WRAP) }

  /** `sys_mkdir`. */
  function Mkdir(t: Tree, p: nat, name: string): Tree
    requires Fresh(t, p, name) && NextInode(t) < |t.nodes| == |t.inUse|
  {
    var m := NextInode(t);
    Tree(t.nodes[p := Bumped(Grown(t.nodes[p], name, m))][m := Node(true, 2, [Dentry(m, DOT), Dentry(p, DOTDOT)])], t.inUse[m := true])
  }

  /** `sys_link`, of file `n`. */
  function Link(t: Tree, n: nat, p: nat, name: string): Tree
    requires Fresh(t, p, name) && n < |t.nodes|
  {
    var nodes := t.nodes[p := Grown(t.nodes[p], name, n)];
    t.(nodes := nodes[n := Bumped(nodes[n])])
  }

  function Kill(nd: Node, i: nat): Node
    requires i < |nd.entries|
  {
    nd.(entries := nd.entries[i := nd.entries[i].(nr := 0)])
  }

  /** `sys_unlink`, of entry `i` naming a file. */
  function Unlink(t: Tree, p: nat, i: nat): Tree
    requires p < |t.nodes| == |t.inUse| && i < |t.nodes[p].entries| && t.nodes[p].entries[i].nr < |t.nodes|
    requires t.nodes[t.nodes[p].entries[i].nr].nlinks > 0
  {
    var n := t.nodes[p].entries[i].nr;
    var nodes := t.nodes[p := Kill(t.nodes[p], i)];
    var left := nodes[n].nlinks - 1;
    Tree(nodes[n := Node(nodes[n].dir, left, if left == 0 then [] else nodes[n].entries)],
         if left == 0 then t.inUse[n := false] else t.inUse)
  }

  /** `is_dir_empty`: each run of 64 entries is counted in the first block. */
  function CountLive(es: seq<Dentry>, upto: nat): (c: nat)
    requires |es| > 0 && upto <= |es|
    ensures c <= upto
  {
    if upto == 0 then 0
    else CountLive(es, upto - 1) + if es[(upto - 1) % BLOCK_DENTRIES].nr != 0 then 1 else 0
  }

  predicate LooksEmpty(es: seq<Dentry>) { |es| >= 2 && CountLive(es, |es|) == 2 }

  /** `sys_rmdir`, of entry `i` naming an empty directory. */
  function Rmdir(t: Tree, p: nat, i: nat): Tree
    requires p < |t.nodes| == |t.inUse| && i < |t.nodes[p].entries| && t.nodes[p].entries[i].nr < |t.nodes|
    requires t.nodes[p].nlinks > 0
  {
    var c := t.nodes[p].entries[i].nr;
    Tree(t.nodes[p := Kill(t.nodes[p], i).(nlinks := t.nodes[p].nlinks - 1)][c := Node(true, 0, [])], t.inUse[c := false])
  }

  // ----------------------------------------------------------- empty or not

  /** Only `.` and `..` are left. */
  ghost predicate Empty(es: seq<Dentry>) {
    |es| >= 2 && forall i :: 2 <= i < |es| ==> es[i].nr == 0
  }

  lemma {:induction false} CountUpTo(es: seq<Dentry>, k: nat)
    requires 2 <= k <= |es| && es[0].nr != 0 && es[1].nr != 0
    ensures CountLive(es, k) >= 2
    ensures k <= BLOCK_DENTRIES ==> (CountLive(es, k) == 2 <==> forall i :: 2 <= i < k ==> es[i].nr == 0)
    ensures k > BLOCK_DENTRIES ==> CountLive(es, k) > 2
  {
    if k == 2 {
      assert CountLive(es, 1) == 1;
    } else {
      CountUpTo(es, k - 1);
    }
  }

  /** The test finds a directory empty exactly when it is and has at most one block of
      entries: a longer one never looks empty again. */
  lemma LooksEmptyIff(es: seq<Dentry>)
    requires |es| >= 2 && es[0].nr != 0 && es[1].nr != 0
    ensures LooksEmpty(es) <==> Empty(es) && |es| <= BLOCK_DENTRIES
  {
    CountUpTo(es, |es|);
  }

  // ------------------------------------------------- one more name for a file

  function Slot(t: Tree, p: nat): nat
    requires p < |t.nodes|
  {
    FirstDead(t.nodes[p].entries, 0)
  }

  /** Entry `k` of directory `p` has come to name inode `n`; all else is named as before. */
  ghost predicate AddsName(t: Tree, t': Tree, p: nat, k: nat, n: nat) {
    && |t'.nodes| == |t.nodes| && (forall d: nat :: IsDir(t', d) <==> IsDir(t, d))
    && (forall d: nat, i: nat, x: nat :: Names(t', d, i, x) <==> Names(t, d, i, x) || (d == p && i == k && x == n))
    && (forall d: nat :: IsDir(t, d) ==> |t'.nodes[d].entries| >= |t.nodes[d].entries|)
    && (forall d: nat, i: nat, x: nat :: Names(t, d, i, x) ==> t'.nodes[d].entries[i] == t.nodes[d].entries[i])
  }

  lemma PlaceIn(t: Tree, n: nat, pl: Place)
    ensures pl in Places(t, n) <==> Names(t, pl.d, pl.i, n)
  {
    assert pl == Place(pl.d, pl.i);
  }

  lemma PlacesGrow(t: Tree, t': Tree, n: nat, new_: set<Place>)
    requires forall pl: Place :: Names(t', pl.d, pl.i, n) <==> Names(t, pl.d, pl.i, n) || pl in new_
    requires forall pl: Place :: pl in new_ ==> !Names(t, pl.d, pl.i, n)
    ensures |Places(t', n)| == |Places(t, n)| + |new_|
  {
    forall pl: Place ensures pl in Places(t', n) <==> pl in Places(t, n) || pl in new_ {
      PlaceIn(t, n, pl);
      PlaceIn(t', n, pl);
    }
    forall pl | pl in new_ ensures pl !in Places(t, n) {
      PlaceIn(t, n, pl);
    }
    assert Places(t', n) == Places(t, n) + new_;
    assert Places(t, n) !! new_;
  }

  lemma AddsNameCounts(t: Tree, t': Tree, p: nat, k: nat, n: nat)
    requires Counted(t) && AddsName(t, t', p, k, n) && n != 0 && (forall x: nat :: !Names(t, p, k, x))
    requires forall x: nat :: x != 0 ==> Links(t', x) == Links(t, x) + if x == n then 1 else 0
    ensures Counted(t')
  {
    forall x: nat | x != 0 ensures Links(t', x) == |Places(t', x)| {
      PlacesGrow(t, t', x, if x == n then {Place(p, k)} else {});
    }
  }

  /** The directories, and the entries that name directories, are the same. */
  ghost predicate SameDirs(t: Tree, t': Tree) {
    && |t'.nodes| == |t.nodes| && DotsOk(t) && (forall d: nat :: IsDir(t', d) <==> IsDir(t, d))
    && (forall d: nat :: IsDir(t, d) ==> |t'.nodes[d].entries| >= 2 && t'.nodes[d].entries[..2] == t.nodes[d].entries[..2])
    && (forall d: nat, i: nat, c: nat :: i >= 2 && IsDir(t, c) ==> (Names(t', d, i, c) <==> Names(t, d, i, c)))
  }

  lemma SameDots(t: Tree, t': Tree)
    requires SameDirs(t, t')
    ensures DotsOk(t') && forall d: nat :: IsDir(t, d) ==> |t'.nodes[d].entries| >= 2 && |t.nodes[d].entries| >= 2 && Up(t', d) == Up(t, d)
  {
    forall d: nat | IsDir(t, d)
      ensures Dotted(t, d) && Dotted(t', d) && Up(t', d) == Up(t, d)
    {
      assert t'.nodes[d].entries[..2][0] == t.nodes[d].entries[..2][0];
      assert t'.nodes[d].entries[..2][1] == t.nodes[d].entries[..2][1];
    }
  }

  lemma SameHomes(t: Tree, t': Tree)
    requires SameDirs(t, t') && DotsOk(t')
    requires forall d: nat :: IsDir(t, d) ==> |t'.nodes[d].entries| >= 2 && |t.nodes[d].entries| >= 2 && Up(t', d) == Up(t, d)
    requires HomeIsUp(t) && HomeIsOne(t)
    ensures HomeIsUp(t') && HomeIsOne(t')
  {
    hide DotsOk, IsDir, Names;
  }

  lemma SameDirsOk(t: Tree, t': Tree)
    requires Dirs(t) && SameDirs(t, t')
    ensures Dirs(t')
    ensures forall depth: seq<nat> :: Ranked(t, depth) ==> Ranked(t', depth)
  {
    SameDots(t, t');
    SameHomes(t, t');
    hide DotsOk, IsDir, Names, HomeIsUp, HomeIsOne;
    forall c: nat | IsDir(t', c) && c != ROOT ensures HasHome(t', c) {
      assert HasHome(t, c);
    }
  }

  lemma AddsNameSameDirs(t: Tree, t': Tree, p: nat, k: nat, n: nat)
    requires DotsOk(t) && AddsName(t, t', p, k, n) && k >= 2 && !IsDir(t, n)
    ensures SameDirs(t, t')
  {
    forall d: nat | IsDir(t, d)
      ensures |t'.nodes[d].entries| >= 2 && t'.nodes[d].entries[..2] == t.nodes[d].entries[..2]
    {
      assert Dotted(t, d);
      assert Names(t, d, 0, d) && Names(t, d, 1, Up(t, d));
    }
  }

  lemma AddsNameUnique(t: Tree, t': Tree, p: nat, k: nat, n: nat, name: string)
    requires Unique(t) && AddsName(t, t', p, k, n) && IsDir(t, p) && n != 0 && (forall x: nat :: !Names(t, p, k, x))
    requires Names(t', p, k, n) && t'.nodes[p].entries[k].name == name
    ensures Unique(t') <==> !Has(t, p, name)
  {
    if Has(t, p, name) {
      var j: nat :| j < |t.nodes[p].entries| && t.nodes[p].entries[j].nr != 0 && t.nodes[p].entries[j].name == name;
      assert Names(t, p, j, t.nodes[p].entries[j].nr);
      assert Names(t', p, j, t.nodes[p].entries[j].nr) && Names(t', p, k, n);
    }
  }

  lemma AddsNameSound(t: Tree, t': Tree, p: nat, k: nat, n: nat, name: string)
    requires Inv(t) && AddsName(t, t', p, k, n) && Shape(t') && k >= 2 && IsDir(t, p) && !IsDir(t, n) && n != 0
    requires forall x: nat :: x != 0 ==> Links(t', x) == Links(t, x) + if x == n then 1 else 0
    requires (forall x: nat :: !Names(t, p, k, x)) && Names(t', p, k, n) && t'.nodes[p].entries[k].name == name
    ensures Inv(t') <==> !Has(t, p, name)
  {
    hide Shape, Unique, Has, Counted, Names, HomeIsUp, HomeIsOne, HasHome;
    AddsNameCounts(t, t', p, k, n);
    AddsNameUnique(t, t', p, k, n, name);
    AddsNameSameDirs(t, t', p, k, n);
    SameDirsOk(t, t');
    hide AddsName, SameDirs, DotsOk;
    var depth: seq<nat> :| Ranked(t, depth);
    assert Ranked(t', depth);
  }

  lemma SlotIsDead(t: Tree, p: nat)
    requires Dirs(t) && IsDir(t, p)
    ensures Slot(t, p) >= 2 && forall x: nat :: !Names(t, p, Slot(t, p), x)
  {
    assert Dotted(t, p);
  }

  lemma NextInodeIsFree(t: Tree)
    requires Shape(t) && Counted(t) && NextInode(t) < |t.nodes|
    ensures 0 < NextInode(t) && Links(t, NextInode(t)) == 0 && !IsDir(t, NextInode(t))
    ensures forall d: nat, i: nat :: !Names(t, d, i, NextInode(t))
  {
    NoLinksNoPlaces(t, NextInode(t));
  }

  lemma CreateAddsName(t: Tree, p: nat, name: string)
    requires Shape(t) && Fresh(t, p, name) && NextInode(t) < |t.nodes|
    requires 0 < NextInode(t) && !IsDir(t, NextInode(t)) && Links(t, NextInode(t)) == 0
    requires forall x: nat :: !Names(t, p, Slot(t, p), x)
    ensures AddsName(t, Create(t, p, name), p, Slot(t, p), NextInode(t)) && Shape(Create(t, p, name))
    ensures forall x: nat :: x != 0 ==> Links(Create(t, p, name), x) == Links(t, x) + if x == NextInode(t) then 1 else 0
  {
    hide Find;
    var t', k, m := Create(t, p, name), Slot(t, p), NextInode(t);
    forall d: nat ensures IsDir(t', d) <==> IsDir(t, d) {}
    forall d: nat, i: nat, x: nat
      ensures Names(t', d, i, x) <==> Names(t, d, i, x) || (d == p && i == k && x == m)
    {
      if d == p && i != k {
        assert i < |t'.nodes[p].entries| <==> i < |t.nodes[p].entries|;
      }
    }
  }

  /** Making a file keeps the tree sound exactly when its name, cut to what an entry holds,
      is not taken. */
  lemma CreateKeepsInvIff(t: Tree, p: nat, name: string)
    requires Inv(t) && Fresh(t, p, name) && NextInode(t) < |t.nodes|
    ensures Inv(Create(t, p, name)) <==> !Has(t, p, Stored(name))
  {
    var t', k, m := Create(t, p, name), Slot(t, p), NextInode(t);
    NextInodeIsFree(t);
    SlotIsDead(t, p);
    CreateAddsName(t, p, name);
    AddsNameSound(t, t', p, k, m, Stored(name));
  }

  /** A name of at most 13 characters is never cut, so a fresh one is not taken. */
  lemma ShortNameIsFree(t: Tree, p: nat, name: string)
    requires Fresh(t, p, name) && |name| < NAME_LEN
    ensures !Has(t, p, Stored(name))
  {}

  /** Two names that differ only behind their 13th character are both found to be new, and end up as
      the same name twice. */
  lemma LongNamesCollide(t: Tree, p: nat)
    requires Inv(t) && Fresh(t, p, "abcdefghijklm1") && Fresh(t, p, "abcdefghijklm2") && !Has(t, p, "abcdefghijklm")
    requires NextInode(t) < |t.nodes|
    ensures var t1 := Create(t, p, "abcdefghijklm1");
            Inv(t1) && Fresh(t1, p, "abcdefghijklm2") && (NextInode(t1) < |t1.nodes| ==> !Inv(Create(t1, p, "abcdefghijklm2")))
  {
    var a, b := "abcdefghijklm1", "abcdefghijklm2";
    var t1, k := Create(t, p, a), Slot(t, p);
    assert Stored(a) == "abcdefghijklm" == Stored(b);
    CreateKeepsInvIff(t, p, a);
    NextInodeIsFree(t);
    hide Inv;
    forall i | 0 <= i < |t1.nodes[p].entries| ensures t1.nodes[p].entries[i].nr == 0 || t1.nodes[p].entries[i].name != b {
      assert i != k ==> i < |t.nodes[p].entries| && t1.nodes[p].entries[i] == t.nodes[p].entries[i];
    }
    assert t1.nodes[p].entries[k].name == Stored(b);
    if NextInode(t1) < |t1.nodes| {
      CreateKeepsInvIff(t1, p, b);
    }
  }

  /** A file with 255 links: one more, and its count reads zero. */
  lemma LinkWraps(t: Tree, n: nat, p: nat, name: string)
    requires Inv(t) && Fresh(t, p, name) && Links(t, n) == LINK_WRAP - 1 && !t.nodes[n].dir
    ensures Links(Link(t, n, p, name), n) == 0 && !Inv(Link(t, n, p, name))
  {
    hide Inv, Has, Find;
    LinkKeepsInvIff(t, n, p, name);
  }

  /** A directory of 65 entries, all but `.` and `..` removed, does not look empty. */
  lemma LongEmptyDirLooksFull(d: nat, up: nat)
    requires d > 0 && up > 0
    ensures var es := [Dentry(d, DOT), Dentry(up, DOTDOT)] + seq(63, _ => Dentry(0, "gone"));
            Empty(es) && !LooksEmpty(es)
  {
    LooksEmptyIff([Dentry(d, DOT), Dentry(up, DOTDOT)] + seq(63, _ => Dentry(0, "gone")));
  }

  lemma LinkAddsName(t: Tree, n: nat, p: nat, name: string)
    requires Shape(t) && Fresh(t, p, name) && 0 < Links(t, n) < LINK_WRAP - 1 && !t.nodes[n].dir
    requires forall x: nat :: !Names(t, p, Slot(t, p), x)
    ensures n != 0 && AddsName(t, Link(t, n, p, name), p, Slot(t, p), n) && Shape(Link(t, n, p, name))
    ensures forall x: nat :: Links(Link(t, n, p, name), x) == Links(t, x) + if x == n then 1 else 0
  {
    hide Find;
    var t', k := Link(t, n, p, name), Slot(t, p);
    forall d: nat ensures IsDir(t', d) <==> IsDir(t, d) {}
    forall d: nat, i: nat, x: nat
      ensures Names(t', d, i, x) <==> Names(t, d, i, x) || (d == p && i == k && x == n)
    {
      if d == p && i != k {
        assert i < |t'.nodes[p].entries| <==> i < |t.nodes[p].entries|;
      }
    }
  }

  /** Linking keeps the tree sound exactly when the 8-bit count has room and the cut name
      is not taken. */
  lemma LinkKeepsInvIff(t: Tree, n: nat, p: nat, name: string)
    requires Inv(t) && Fresh(t, p, name) && Links(t, n) > 0 && !t.nodes[n].dir
    ensures Inv(Link(t, n, p, name)) <==> Links(t, n) < LINK_WRAP - 1 && !Has(t, p, Stored(name))
  {
    var t', k := Link(t, n, p, name), Slot(t, p);
    if Links(t, n) < LINK_WRAP - 1 {
      SlotIsDead(t, p);
      LinkAddsName(t, n, p, name);
      AddsNameSound(t, t', p, k, n, Stored(name));
    } else {
      assert t'.nodes[n].nlinks == 0 && t'.inUse[n];
    }
  }

  // ------------------------------------------------------ removing a file name

  lemma UnlinkDropsName(t: Tree, p: nat, i: nat, n: nat)
    requires Shape(t) && Names(t, p, i, n) && Links(t, n) > 0 && !t.nodes[n].dir
    ensures n != 0 && AddsName(Unlink(t, p, i), t, p, i, n) && Shape(Unlink(t, p, i))
    ensures forall d: nat :: IsDir(t, d) ==> |Unlink(t, p, i).nodes[d].entries| == |t.nodes[d].entries|
    ensures forall x: nat :: !Names(Unlink(t, p, i), p, i, x)
    ensures forall x: nat :: Links(t, x) == Links(Unlink(t, p, i), x) + if x == n then 1 else 0
  {
    var t' := Unlink(t, p, i);
    forall d: nat ensures IsDir(t', d) <==> IsDir(t, d) {}
  }

  lemma DropsNameCounts(t: Tree, t': Tree, p: nat, k: nat, n: nat)
    requires Counted(t) && AddsName(t', t, p, k, n) && n != 0 && (forall x: nat :: !Names(t', p, k, x))
    requires forall x: nat :: Links(t, x) == Links(t', x) + if x == n then 1 else 0
    ensures Counted(t')
  {
    forall x: nat | x != 0 ensures Links(t', x) == |Places(t', x)| {
      PlacesGrow(t', t, x, if x == n then {Place(p, k)} else {});
    }
  }

  lemma DropsNameSameDirs(t: Tree, t': Tree, p: nat, k: nat, n: nat)
    requires DotsOk(t) && AddsName(t', t, p, k, n) && k >= 2 && !IsDir(t, n)
    requires forall d: nat :: IsDir(t, d) ==> |t'.nodes[d].entries| == |t.nodes[d].entries|
    ensures SameDirs(t, t')
  {
    forall d: nat | IsDir(t, d)
      ensures |t'.nodes[d].entries| >= 2 && t'.nodes[d].entries[..2] == t.nodes[d].entries[..2]
    {
      assert Dotted(t, d);
      assert Names(t, d, 0, d) && Names(t, d, 1, Up(t, d));
      assert Names(t', d, 0, d) && Names(t', d, 1, Up(t, d));
    }
  }

  /** Unlinking a file always keeps the tree sound; its assert that the count is positive holds. */
  lemma UnlinkKeepsInv(t: Tree, p: nat, i: nat, n: nat)
    requires Inv(t) && Names(t, p, i, n) && n < |t.nodes| && !t.nodes[n].dir
    ensures Links(t, n) > 0 && Inv(Unlink(t, p, i))
  {
    hide Unlink, Shape, Counted, Unique, AddsName, SameDirs;
    FileNameIsPlain(t, p, i, n);
    var t' := Unlink(t, p, i);
    UnlinkDropsName(t, p, i, n);
    DropsNameCounts(t, t', p, i, n);
    DropsNameSameDirs(t, t', p, i, n);
    SameDirsOk(t, t');
    DropsNameUnique(t, t', p, i, n);
    hide Dirs;
    var depth: seq<nat> :| Ranked(t, depth);
    assert Ranked(t', depth);
  }

  lemma FileNameIsPlain(t: Tree, p: nat, i: nat, n: nat)
    requires Shape(t) && Counted(t) && Dirs(t) && Names(t, p, i, n) && n < |t.nodes| && !t.nodes[n].dir
    ensures i >= 2 && Links(t, n) > 0 && |t.nodes| == |t.inUse|
  {
    NamedIsLive(t, p, i, n);
    hide HomeIsUp, HomeIsOne, HasHome, Counted;
    assert Dotted(t, p);
  }

  lemma DropsNameUnique(t: Tree, t': Tree, p: nat, k: nat, n: nat)
    requires Unique(t) && AddsName(t', t, p, k, n)
    ensures Unique(t')
  {
    hide IsDir;
    forall d: nat, i: nat, j: nat, a: nat, b: nat
      | Names(t', d, i, a) && Names(t', d, j, b) && SameName(t', d, i, j)
      ensures i == j
    {
      assert Names(t, d, i, a) && Names(t, d, j, b);
    }
  }

  // -------------------------------------------------- making and removing a directory

  /** `t'` is `t` with one more directory `m`, in entry `k` of directory `p`, and empty. */
  ghost predicate AddsDir(t: Tree, t': Tree, p: nat, k: nat, m: nat) {
    && |t'.nodes| == |t.nodes| && 0 < m < |t.nodes| && IsDir(t, p) && !IsDir(t, m) && IsDir(t', m)
    && (forall d: nat :: d != m ==> (IsDir(t', d) <==> IsDir(t, d)))
    && (forall d: nat, i: nat, x: nat :: Names(t', d, i, x) <==> Names(t, d, i, x) || NewName(p, k, m, d, i, x))
    && (forall d: nat :: IsDir(t, d) ==> |t'.nodes[d].entries| >= |t.nodes[d].entries|)
    && (forall d: nat, i: nat, x: nat :: Names(t, d, i, x) ==> t'.nodes[d].entries[i] == t.nodes[d].entries[i])
    && |t'.nodes[m].entries| >= 2 && t'.nodes[m].entries[..2] == [Dentry(m, DOT), Dentry(p, DOTDOT)]
  }

  predicate NewName(p: nat, k: nat, m: nat, d: nat, i: nat, x: nat) {
    (d == p && i == k && x == m) || (d == m && i == 0 && x == m) || (d == m && i == 1 && x == p)
  }

  /** What a directory more adds to the link count of inode `x`. */
  function DirLinks(p: nat, m: nat, x: nat): nat { if x == m then 2 else if x == p then 1 else 0 }

  lemma AddsDirPlaces(t: Tree, t': Tree, p: nat, k: nat, m: nat, x: nat)
    requires AddsDir(t, t', p, k, m) && (forall y: nat :: !Names(t, p, k, y))
    ensures |Places(t', x)| == |Places(t, x)| + DirLinks(p, m, x)
  {
    var new_ := if x == m then {Place(p, k), Place(m, 0)} else if x == p then {Place(m, 1)} else {};
    PlacesGrow(t, t', x, new_);
  }

  lemma MkdirAddsDir(t: Tree, p: nat, name: string)
    requires Shape(t) && Fresh(t, p, name) && NextInode(t) < |t.nodes| && Links(t, p) < LINK_WRAP - 1
    requires 0 < NextInode(t) && !IsDir(t, NextInode(t)) && Links(t, NextInode(t)) == 0 && 0 < p
    requires forall x: nat :: !Names(t, p, Slot(t, p), x)
    ensures AddsDir(t, Mkdir(t, p, name), p, Slot(t, p), NextInode(t)) && Shape(Mkdir(t, p, name))
    ensures forall x: nat :: Links(Mkdir(t, p, name), x) == Links(t, x) + DirLinks(p, NextInode(t), x)
  {
    hide Find;
    var t', k, m := Mkdir(t, p, name), Slot(t, p), NextInode(t);
    forall d: nat | d != m ensures IsDir(t', d) <==> IsDir(t, d) {}
    forall d: nat, i: nat, x: nat
      ensures Names(t', d, i, x) <==> Names(t, d, i, x) || NewName(p, k, m, d, i, x)
    {
      if d == p && i != k {
        assert i < |t'.nodes[p].entries| <==> i < |t.nodes[p].entries|;
      }
    }
  }

  lemma AddsDirUnique(t: Tree, t': Tree, p: nat, k: nat, m: nat, name: string)
    requires Unique(t) && AddsDir(t, t', p, k, m) && (forall x: nat :: !Names(t, p, k, x))
    requires Names(t', p, k, m) && t'.nodes[p].entries[k].name == name
    ensures Unique(t') <==> !Has(t, p, name)
  {
    assert t'.nodes[m].entries[..2][0].name != t'.nodes[m].entries[..2][1].name;
    if Has(t, p, name) {
      var j: nat :| j < |t.nodes[p].entries| && t.nodes[p].entries[j].nr != 0 && t.nodes[p].entries[j].name == name;
      assert Names(t, p, j, t.nodes[p].entries[j].nr);
      assert Names(t', p, j, t.nodes[p].entries[j].nr) && Names(t', p, k, m);
      assert SameName(t', p, j, k);
    } else {
      forall d: nat, i: nat, j: nat, a: nat, b: nat
        | Names(t', d, i, a) && Names(t', d, j, b) && SameName(t', d, i, j)
        ensures i == j
      {
        if Names(t, d, i, a) && Names(t, d, j, b) {
          assert SameName(t, d, i, j);
        }
      }
    }
  }

  lemma AddsDirDots(t: Tree, t': Tree, p: nat, k: nat, m: nat)
    requires DotsOk(t) && AddsDir(t, t', p, k, m)
    ensures DotsOk(t') && Up(t', m) == p
    ensures forall d: nat :: IsDir(t, d) ==> |t'.nodes[d].entries| >= 2 && |t.nodes[d].entries| >= 2 && Up(t', d) == Up(t, d)
  {
    forall d: nat | IsDir(t, d)
      ensures Dotted(t, d) && Dotted(t', d) && Up(t', d) == Up(t, d)
    {
      assert Names(t, d, 0, d) && Names(t, d, 1, Up(t, d));
    }
    assert t'.nodes[m].entries[..2][0] == t'.nodes[m].entries[0] && t'.nodes[m].entries[..2][1] == t'.nodes[m].entries[1];
  }

  lemma AddsDirHomes(t: Tree, t': Tree, p: nat, k: nat, m: nat)
    requires DotsOk(t) && DotsOk(t') && AddsDir(t, t', p, k, m) && Up(t', m) == p && (forall d: nat, i: nat :: !Names(t, d, i, m))
    requires forall d: nat :: IsDir(t, d) ==> |t'.nodes[d].entries| >= 2 && |t.nodes[d].entries| >= 2 && Up(t', d) == Up(t, d)
    requires HomeIsUp(t) && HomeIsOne(t) && m != ROOT && k >= 2
    ensures HomeIsUp(t') && HomeIsOne(t')
  {
    hide DotsOk, IsDir, Names;
  }

  lemma AddsDirDirs(t: Tree, t': Tree, p: nat, k: nat, m: nat)
    requires Dirs(t) && AddsDir(t, t', p, k, m) && k >= 2 && (forall d: nat, i: nat :: !Names(t, d, i, m))
    ensures Dirs(t')
  {
    AddsDirDots(t, t', p, k, m);
    AddsDirHomes(t, t', p, k, m);
    hide DotsOk, IsDir, Names, HomeIsUp, HomeIsOne;
    forall c: nat | IsDir(t', c) && c != ROOT ensures HasHome(t', c) {
      if c == m {
        assert Names(t', p, k, m);
      } else {
        assert HasHome(t, c);
      }
    }
  }

  lemma AddsDirRanked(t: Tree, t': Tree, p: nat, k: nat, m: nat, depth: seq<nat>)
    requires Dirs(t) && AddsDir(t, t', p, k, m) && Ranked(t, depth)
    ensures Ranked(t', depth[m := depth[p] + 1])
  {
    AddsDirDots(t, t', p, k, m);
    hide Names, HomeIsUp, HomeIsOne, HasHome;
    forall c: nat | IsDir(t, c) ensures Dotted(t, c) && Up(t, c) != m && |t'.nodes[c].entries| >= 2 && Up(t', c) == Up(t, c) {}
    hide DotsOk;
  }

  /** Making a directory keeps the tree sound exactly when the parent's 8-bit count has room
      and the cut name is not taken. */
  lemma MkdirKeepsInvIff(t: Tree, p: nat, name: string)
    requires Inv(t) && Fresh(t, p, name) && NextInode(t) < |t.nodes|
    ensures Inv(Mkdir(t, p, name)) <==> Links(t, p) < LINK_WRAP - 1 && !Has(t, p, Stored(name))
  {
    var t', k, m := Mkdir(t, p, name), Slot(t, p), NextInode(t);
    NextInodeIsFree(t);
    if Links(t, p) < LINK_WRAP - 1 {
      SlotIsDead(t, p);
      MkdirAddsDir(t, p, name);
      MkdirSound(t, t', p, k, m, Stored(name));
    } else {
      assert t'.nodes[p].nlinks == 0 && t'.inUse[p];
    }
  }

  lemma MkdirSound(t: Tree, t': Tree, p: nat, k: nat, m: nat, name: string)
    requires Inv(t) && AddsDir(t, t', p, k, m) && Shape(t') && k >= 2 && (forall d: nat, i: nat :: !Names(t, d, i, m))
    requires forall x: nat :: Links(t', x) == Links(t, x) + DirLinks(p, m, x)
    requires (forall x: nat :: !Names(t, p, k, x)) && Names(t', p, k, m) && t'.nodes[p].entries[k].name == name
    ensures Inv(t') <==> !Has(t, p, name)
  {
    hide Names, Shape, Unique, Has, Dirs, Counted, DirLinks;
    AddsDirUnique(t, t', p, k, m, name);
    AddsDirDirs(t, t', p, k, m);
    AddsDirCounted(t, t', p, k, m);
    var depth: seq<nat> :| Ranked(t, depth);
    AddsDirRanked(t, t', p, k, m, depth);
  }

  lemma AddsDirCounted(t: Tree, t': Tree, p: nat, k: nat, m: nat)
    requires Counted(t) && AddsDir(t, t', p, k, m) && (forall x: nat :: !Names(t, p, k, x))
    requires forall x: nat :: Links(t', x) == Links(t, x) + DirLinks(p, m, x)
    ensures Counted(t')
  {
    hide Names, AddsDir;
    forall x: nat | x != 0 ensures Links(t', x) == |Places(t', x)| {
      AddsDirPlaces(t, t', p, k, m, x);
    }
  }

  /** Entry `i` of directory `p` names the empty directory `c`. */
  ghost predicate Removable(t: Tree, p: nat, i: nat, c: nat) {
    Names(t, p, i, c) && i >= 2 && IsDir(t, c) && Empty(t.nodes[c].entries)
  }

  lemma RemovableParent(t: Tree, p: nat, i: nat, c: nat)
    requires Dirs(t) && Removable(t, p, i, c)
    ensures p != c && c != ROOT && Up(t, c) == p && Dotted(t, c) && Dotted(t, p)
  {}

  /** An empty directory has no directory below it. */
  lemma NoneBelow(t: Tree, p: nat, i: nat, c: nat, d: nat)
    requires Dirs(t) && Removable(t, p, i, c) && IsDir(t, d) && d != c
    ensures Dotted(t, d) && Up(t, d) != c
  {
    RemovableParent(t, p, i, c);
    hide HomeIsUp, HomeIsOne;
    if d != ROOT {
      assert HasHome(t, d);
    }
  }

  /** It is named by its parent and by itself alone. */
  lemma RemovablePlaces(t: Tree, p: nat, i: nat, c: nat)
    requires Dirs(t) && Removable(t, p, i, c)
    ensures Places(t, c) == {Place(p, i), Place(c, 0)} && {Place(p, 0), Place(c, 1)} <= Places(t, p)
  {
    RemovableParent(t, p, i, c);
    PlaceIn(t, p, Place(p, 0));
    PlaceIn(t, p, Place(c, 1));
    forall pl: Place ensures pl in Places(t, c) <==> pl == Place(p, i) || pl == Place(c, 0) {
      PlaceIn(t, c, pl);
      if Names(t, pl.d, pl.i, c) && pl.d != c {
        NoneBelow(t, p, i, c, pl.d);
      }
    }
  }

  lemma RmdirNames(t: Tree, p: nat, i: nat, c: nat, d: nat, j: nat, x: nat)
    requires Removable(t, p, i, c) && Dotted(t, c) && p != c && Up(t, c) == p && |t.nodes| == |t.inUse| && Links(t, p) > 1
    ensures Names(t, d, j, x) <==> Names(Rmdir(t, p, i), d, j, x) || NewName(p, i, c, d, j, x)
    ensures Names(Rmdir(t, p, i), d, j, x) ==> Rmdir(t, p, i).nodes[d].entries[j] == t.nodes[d].entries[j]
  {}

  lemma RmdirDropsDir(t: Tree, p: nat, i: nat, c: nat)
    requires Shape(t) && Removable(t, p, i, c) && Dotted(t, c) && p != c && Up(t, c) == p && Links(t, c) == 2 && Links(t, p) > 1
    ensures AddsDir(Rmdir(t, p, i), t, p, i, c) && Shape(Rmdir(t, p, i))
    ensures forall x: nat :: Links(t, x) == Links(Rmdir(t, p, i), x) + DirLinks(p, c, x)
    ensures forall x: nat :: !Names(Rmdir(t, p, i), p, i, x)
    ensures forall d: nat :: IsDir(t, d) && d != c ==> |Rmdir(t, p, i).nodes[d].entries| == |t.nodes[d].entries|
  {
    var t' := Rmdir(t, p, i);
    assert t.nodes[c].entries[..2] == [Dentry(c, DOT), Dentry(p, DOTDOT)];
    forall d: nat, j: nat, x: nat
      ensures Names(t, d, j, x) <==> Names(t', d, j, x) || NewName(p, i, c, d, j, x)
      ensures Names(t', d, j, x) ==> t'.nodes[d].entries[j] == t.nodes[d].entries[j]
    {
      RmdirNames(t, p, i, c, d, j, x);
    }
    hide Empty;
    forall d: nat | d != c ensures IsDir(t', d) <==> IsDir(t, d) {}
  }

  lemma DropsDirUnique(t: Tree, t': Tree, p: nat, k: nat, c: nat)
    requires Unique(t) && AddsDir(t', t, p, k, c)
    ensures Unique(t')
  {
    hide IsDir;
    forall d: nat, i: nat, j: nat, a: nat, b: nat
      | Names(t', d, i, a) && Names(t', d, j, b) && SameName(t', d, i, j)
      ensures i == j
    {
      assert Names(t, d, i, a) && Names(t, d, j, b);
    }
  }

  lemma DropsDirDots(t: Tree, t': Tree, p: nat, k: nat, c: nat)
    requires DotsOk(t) && AddsDir(t', t, p, k, c) && c != ROOT && k >= 2
    requires forall d: nat :: IsDir(t, d) && d != c ==> Up(t, d) != c && |t'.nodes[d].entries| == |t.nodes[d].entries|
    ensures DotsOk(t') && |t'.nodes| == |t.nodes|
    ensures forall d: nat :: IsDir(t', d) ==> IsDir(t, d) && Up(t', d) == Up(t, d)
  {
    forall d: nat | IsDir(t', d)
      ensures Dotted(t, d) && Dotted(t', d) && Up(t', d) == Up(t, d)
    {
      assert Names(t, d, 0, d) && Names(t, d, 1, Up(t, d));
      assert Names(t', d, 0, d) && Names(t', d, 1, Up(t, d));
    }
  }

  lemma DropsDirDirs(t: Tree, t': Tree, p: nat, k: nat, c: nat)
    requires Dirs(t) && DotsOk(t') && AddsDir(t', t, p, k, c)
    requires forall d: nat :: IsDir(t', d) ==> IsDir(t, d) && Up(t', d) == Up(t, d)
    ensures Dirs(t')
  {
    hide DotsOk, IsDir, Names;
    forall x: nat | IsDir(t', x) && x != ROOT ensures HasHome(t', x) {
      assert HasHome(t, x);
    }
  }

  /** Removing an empty directory keeps the tree sound, and both asserts of `sys_rmdir` hold. */
  lemma RmdirKeepsInv(t: Tree, p: nat, i: nat, c: nat)
    requires Inv(t) && Removable(t, p, i, c)
    ensures Links(t, c) == 2 && p != c && Links(Rmdir(t, p, i), p) > 0
    ensures Inv(Rmdir(t, p, i))
  {
    RemovableParent(t, p, i, c);
    RemovablePlaces(t, p, i, c);
    hide Places, Unique, HomeIsUp, HomeIsOne, HasHome;
    RemovableCounts(t, p, i, c);
    var t' := Rmdir(t, p, i);
    RmdirDropsDir(t, p, i, c);
    forall d: nat | IsDir(t, d) && d != c ensures Dotted(t, d) && Up(t, d) != c {
      NoneBelow(t, p, i, c, d);
    }
    RmdirSound(t, t', p, i, c);
  }

  lemma RemovableCounts(t: Tree, p: nat, i: nat, c: nat)
    requires Counted(t) && Shape(t) && Removable(t, p, i, c) && Places(t, c) == {Place(p, i), Place(c, 0)} && p != c
    requires {Place(p, 0), Place(c, 1)} <= Places(t, p)
    ensures Links(t, c) == 2 && Links(t, p) > 1
  {
    SubsetCardinality({Place(p, 0), Place(c, 1)}, Places(t, p));
  }

  lemma RmdirSound(t: Tree, t': Tree, p: nat, k: nat, c: nat)
    requires Inv(t) && AddsDir(t', t, p, k, c) && Shape(t') && c != ROOT && k >= 2
    requires forall x: nat :: Links(t, x) == Links(t', x) + DirLinks(p, c, x)
    requires forall x: nat :: !Names(t', p, k, x)
    requires forall d: nat :: IsDir(t, d) && d != c ==> |t.nodes[d].entries| >= 2 && Up(t, d) != c && |t'.nodes[d].entries| == |t.nodes[d].entries|
    ensures Inv(t')
  {
    hide Names, Shape, Unique, HomeIsUp, HomeIsOne, HasHome, Counted, DirLinks, AddsDir;
    DropsDirUnique(t, t', p, k, c);
    DropsDirDots(t, t', p, k, c);
    DropsDirDirs(t, t', p, k, c);
    DropsDirCounted(t, t', p, k, c);
    DropsDirRanked(t, t');
  }

  lemma DropsDirRanked(t: Tree, t': Tree)
    requires DotsOk(t) && |t'.nodes| == |t.nodes| && DotsOk(t') && exists depth: seq<nat> :: Ranked(t, depth)
    requires forall d: nat :: IsDir(t', d) ==> IsDir(t, d) && Up(t', d) == Up(t, d)
    ensures exists depth: seq<nat> :: Ranked(t', depth)
  {
    var depth: seq<nat> :| Ranked(t, depth);
    assert Ranked(t', depth);
  }

  lemma DropsDirCounted(t: Tree, t': Tree, p: nat, k: nat, c: nat)
    requires Counted(t) && AddsDir(t', t, p, k, c) && (forall x: nat :: !Names(t', p, k, x))
    requires forall x: nat :: Links(t, x) == Links(t', x) + DirLinks(p, c, x)
    ensures Counted(t')
  {
    hide Names, AddsDir;
    forall x: nat | x != 0 ensures Links(t', x) == |Places(t', x)| {
      AddsDirPlaces(t', t, p, k, c, x);
    }
  }

  // ------------------------------------------------------------ system calls

  /** The calls, with the parent directory and the inode that path resolution has found;
      `busy` says that the directory is in use elsewhere. */
  datatype Call =
    | CreateCall(p: nat, name: string)
    | MkdirCall(p: nat, name: string)
    | RmdirCall(p: nat, name: string, busy: bool)
    | LinkCall(n: nat, p: nat, name: string)
    | UnlinkCall(p: nat, name: string)

  /** The entry that a call with this name works on. */
  function Entry(t: Tree, p: nat, name: string): nat
    requires p < |t.nodes|
  {
    Find(t.nodes[p].entries, name, 0)
  }

  predicate Found(t: Tree, p: nat, name: string) { IsDir(t, p) && name != "" && Entry(t, p, name) < |t.nodes[p].entries| }

  function Target(t: Tree, p: nat, name: string): nat
    requires Found(t, p, name)
  {
    t.nodes[p].entries[Entry(t, p, name)].nr
  }

  /** Whether the call goes through; where it does not, nothing changes. */
  predicate Succeeds(t: Tree, c: Call) {
    match c
    case CreateCall(p, name) => Fresh(t, p, name)
    case MkdirCall(p, name) => Fresh(t, p, name)
    case LinkCall(n, p, name) => Fresh(t, p, name) && Links(t, n) > 0 && !t.nodes[n].dir
    case UnlinkCall(p, name) => Found(t, p, name) && Target(t, p, name) < |t.nodes| && !t.nodes[Target(t, p, name)].dir
    case RmdirCall(p, name, busy) =>
      && Found(t, p, name) && name != DOT && name != DOTDOT && Target(t, p, name) < |t.nodes|
      && t.nodes[Target(t, p, name)].dir && !busy && LooksEmpty(t.nodes[Target(t, p, name)].entries)
  }

  /** There is a free inode for a call that needs one. */
  predicate HasInode(t: Tree, c: Call) {
    Succeeds(t, c) && (c.CreateCall? || c.MkdirCall?) ==> NextInode(t) < |t.nodes|
  }

  /** The call finds a free inode if it needs one, and its assert on the link count holds. */
  predicate Ready(t: Tree, c: Call) {
    && |t.nodes| == |t.inUse| && HasInode(t, c)
    && (c.UnlinkCall? && Succeeds(t, c) ==> Links(t, Target(t, c.p, c.name)) > 0)
  }

  function Do(t: Tree, c: Call): Tree
    requires Ready(t, c)
  {
    if !Succeeds(t, c) then t
    else match c
      case CreateCall(p, name) => Create(t, p, name)
      case MkdirCall(p, name) => Mkdir(t, p, name)
      case LinkCall(n, p, name) => Link(t, n, p, name)
      case UnlinkCall(p, name) => Unlink(t, p, Entry(t, p, name))
      case RmdirCall(p, name, _) => Rmdir(t, p, Entry(t, p, name))
  }

  /** In a sound tree no unlinked file has a zero count. */
  lemma UnlinkAssertHolds(t: Tree, c: Call)
    requires Inv(t) && HasInode(t, c)
    ensures Ready(t, c)
  {
    if c.UnlinkCall? && Succeeds(t, c) {
      NamedIsLive(t, c.p, Entry(t, c.p, c.name), Target(t, c.p, c.name));
    }
  }

  /** Directory `p` has a live entry called `name`, and it names inode `n`. */
  ghost predicate Called(t: Tree, p: nat, name: string, n: nat) {
    exists i: nat :: Names(t, p, i, n) && t.nodes[p].entries[i].name == name
  }

  /** The search finds the one entry of that name. */
  lemma FoundIffCalled(t: Tree, p: nat, name: string, n: nat)
    requires Counted(t) && Unique(t)
    ensures Called(t, p, name, n) && name != "" <==> Found(t, p, name) && Target(t, p, name) == n
    ensures Called(t, p, name, n) ==> 0 < n < |t.nodes| && t.nodes[n].nlinks > 0
  {
    if i: nat :| Names(t, p, i, n) && t.nodes[p].entries[i].name == name {
      NamedIsLive(t, p, i, n);
      var k := Entry(t, p, name);
      assert Names(t, p, k, t.nodes[p].entries[k].nr) && SameName(t, p, i, k);
    }
    if Found(t, p, name) && Target(t, p, name) == n {
      assert Names(t, p, Entry(t, p, name), n);
    }
  }

  /** `sys_rmdir` only ever removes an empty directory, and it removes one exactly when it
      has at most one block of entries and is not in use. */
  lemma RmdirSucceedsIffEmpty(t: Tree, p: nat, name: string, busy: bool)
    requires Inv(t)
    ensures Succeeds(t, RmdirCall(p, name, busy)) <==>
              name != "" && name != DOT && name != DOTDOT && !busy && exists c: nat :: Called(t, p, name, c) && SmallAndEmpty(t, c)
  {
    hide Called;
    if Found(t, p, name) {
      var c := Target(t, p, name);
      FoundIffCalled(t, p, name, c);
      if IsDir(t, c) {
        assert Dotted(t, c);
        LooksEmptyIff(t.nodes[c].entries);
      }
    }
    if c: nat :| Called(t, p, name, c) && SmallAndEmpty(t, c) && name != "" {
      FoundIffCalled(t, p, name, c);
    }
  }

  /** Directory `c` holds only `.` and `..`, and has at most one block of entries. */
  ghost predicate SmallAndEmpty(t: Tree, c: nat) {
    IsDir(t, c) && Empty(t.nodes[c].entries) && |t.nodes[c].entries| <= BLOCK_DENTRIES
  }

  /** A file or directory is made exactly in a live directory where no live entry has that name;
      a link likewise, to a file that has links. */
  lemma AddSucceedsIff(t: Tree, p: nat, name: string)
    requires Inv(t)
    ensures Succeeds(t, CreateCall(p, name)) <==> IsDir(t, p) && name != "" && !Has(t, p, name)
    ensures Succeeds(t, MkdirCall(p, name)) <==> IsDir(t, p) && name != "" && !Has(t, p, name)
    ensures forall n: nat :: Succeeds(t, LinkCall(n, p, name)) <==>
              IsDir(t, p) && name != "" && !Has(t, p, name) && Links(t, n) > 0 && !IsDir(t, n)
  {}

  /** A name is unlinked exactly when the directory has a live entry of that name and it names no
      directory, however many links the file has. */
  lemma UnlinkSucceedsIff(t: Tree, p: nat, name: string)
    requires Inv(t)
    ensures Succeeds(t, UnlinkCall(p, name)) <==> name != "" && exists n: nat :: Called(t, p, name, n) && !IsDir(t, n)
  {
    hide Called;
    if Found(t, p, name) {
      FoundIffCalled(t, p, name, Target(t, p, name));
    }
    if n: nat :| Called(t, p, name, n) && name != "" && !IsDir(t, n) {
      FoundIffCalled(t, p, name, n);
    }
  }

  /** What the source does not check before it adds a name: room in the 8-bit link count, and
      that the name, cut to 13 characters, is still new. */
  predicate Safe(t: Tree, c: Call) {
    && ((c.CreateCall? || c.MkdirCall? || c.LinkCall?) && IsDir(t, c.p) ==> !Has(t, c.p, Stored(c.name)))
    && (c.MkdirCall? ==> Links(t, c.p) < LINK_WRAP - 1)
    && (c.LinkCall? ==> Links(t, c.n) < LINK_WRAP - 1)
  }

  /** A call that goes through keeps the tree sound if and only if it is safe. */
  lemma CallKeepsInvIff(t: Tree, c: Call)
    requires Inv(t) && Succeeds(t, c) && HasInode(t, c)
    ensures Ready(t, c) && (Inv(Do(t, c)) <==> Safe(t, c))
  {
    UnlinkAssertHolds(t, c);
    hide Inv;
    match c
    case CreateCall(p, name) =>
      CreateKeepsInvIff(t, p, name);
    case MkdirCall(p, name) =>
      MkdirKeepsInvIff(t, p, name);
    case LinkCall(n, p, name) =>
      LinkKeepsInvIff(t, n, p, name);
    case UnlinkCall(p, name) =>
      UnlinkKeepsInv(t, p, Entry(t, p, name), Target(t, p, name));
    case RmdirCall(p, name, busy) =>
      RmdirMeetsRemovable(t, c);
      RmdirKeepsInv(t, p, Entry(t, p, name), Target(t, p, name));
  }

  lemma RmdirMeetsRemovable(t: Tree, c: Call)
    requires Inv(t) && Succeeds(t, c) && c.RmdirCall?
    ensures Removable(t, c.p, Entry(t, c.p, c.name), Target(t, c.p, c.name))
  {
    RmdirSucceedsIffEmpty(t, c.p, c.name, c.busy);
    var d: nat :| Called(t, c.p, c.name, d) && SmallAndEmpty(t, d);
    FoundIffCalled(t, c.p, c.name, d);
    assert Dotted(t, c.p);
  }

  /** The tree after a run of calls; None when one of them is unsafe or finds no free inode. */
  ghost function Run(t: Tree, cs: seq<Call>): Option<Tree>
    decreases |cs|
  {
    if cs == [] then Some(t)
    else
      var c := cs[0];
      if !Ready(t, c) || (Succeeds(t, c) && !Safe(t, c)) then None
      else Run(Do(t, c), cs[1..])
  }

  lemma {:induction false} RunKeepsInv(t: Tree, cs: seq<Call>)
    requires Inv(t) && Run(t, cs).Some?
    ensures Inv(Run(t, cs).value)
    decreases |cs|
  {
    hide Inv;
    if cs != [] {
      if Succeeds(t, cs[0]) {
        CallKeepsInvIff(t, cs[0]);
      }
      RunKeepsInv(Do(t, cs[0]), cs[1..]);
    }
  }

  /** `devmkfs`: only the root, and inode zero never handed out. */
  function Formatted(inodes: nat): Tree
    requires inodes > ROOT
  {
    Tree(seq(inodes, n => if n == ROOT then Node(true, 2, [Dentry(ROOT, DOT), Dentry(ROOT, DOTDOT)]) else Node(false, 0, [])),
         seq(inodes, n => n <= ROOT))
  }

  lemma FormattedInv(inodes: nat)
    requires inodes > ROOT
    ensures Inv(Formatted(inodes))
  {
    var t := Formatted(inodes);
    forall n: nat | n != 0 ensures Links(t, n) == |Places(t, n)| {
      forall pl: Place ensures pl in Places(t, n) <==> n == ROOT && (pl == Place(ROOT, 0) || pl == Place(ROOT, 1)) {
        PlaceIn(t, n, pl);
      }
      assert Places(t, n) == if n == ROOT then {Place(ROOT, 0), Place(ROOT, 1)} else {};
    }
    assert Ranked(t, seq(inodes, n => 0));
  }

  /** From a fresh disk, after any run of calls: link counts, names, bitmap and directories agree. */
  lemma ReachableInv(inodes: nat, cs: seq<Call>)
    requires inodes > ROOT && Run(Formatted(inodes), cs).Some?
    ensures Inv(Run(Formatted(inodes), cs).value)
  {
    FormattedInv(inodes);
    RunKeepsInv(Formatted(inodes), cs);
  }

  // -------------------------------------------------- from any directory to the root

  /** `k` steps along `..`. */
  function Ancestor(t: Tree, d: nat, k: nat): nat
    decreases k
  {
    if k == 0 || d >= |t.nodes| || |t.nodes[d].entries| < 2 then d else Ancestor(t, Up(t, d), k - 1)
  }

  lemma UpIsDir(t: Tree, d: nat)
    requires DotsOk(t) && IsDir(t, d)
    ensures |t.nodes[d].entries| >= 2 && IsDir(t, Up(t, d))
  {
    assert Dotted(t, d);
  }

  lemma {:induction false} LeadsToRoot(t: Tree, d: nat, depth: seq<nat>) returns (k: nat)
    requires DotsOk(t) && Ranked(t, depth) && IsDir(t, d)
    ensures Ancestor(t, d, k) == ROOT
    decreases depth[d]
  {
    if d == ROOT {
      k := 0;
    } else {
      UpIsDir(t, d);
      hide DotsOk;
      var j := LeadsToRoot(t, Up(t, d), depth);
      k := j + 1;
    }
  }

  /** Every directory is below the root. */
  lemma EveryDirBelowRoot(t: Tree, d: nat)
    requires Inv(t) && IsDir(t, d)
    ensures exists k: nat :: Ancestor(t, d, k) == ROOT
  {
    var depth: seq<nat> :| Ranked(t, depth);
    var k := LeadsToRoot(t, d, depth);
  }

  // --------------------------------------------------------------- undoing

  /** The same names, link counts and bitmap. */
  ghost predicate SameView(t: Tree, t': Tree) {
    && |t'.nodes| == |t.nodes| && t'.inUse == t.inUse && (forall x: nat :: Links(t', x) == Links(t, x))
    && (forall d: nat, i: nat, x: nat :: Names(t', d, i, x) <==> Names(t, d, i, x))
    && (forall d: nat, i: nat, x: nat :: Names(t, d, i, x) ==> t'.nodes[d].entries[i] == t.nodes[d].entries[i])
  }

  /** A fresh name of at most 13 characters is found again where it was put. */
  lemma FoundAgain(t: Tree, t': Tree, p: nat, k: nat, name: string)
    requires IsDir(t, p) && IsDir(t', p) && Find(t.nodes[p].entries, name, 0) == |t.nodes[p].entries|
    requires k < |t'.nodes[p].entries| && t'.nodes[p].entries[k].name == name && t'.nodes[p].entries[k].nr != 0
    requires forall i: nat :: i < |t'.nodes[p].entries| && i != k ==> i < |t.nodes[p].entries| && t'.nodes[p].entries[i] == t.nodes[p].entries[i]
    ensures Found(t', p, name) <==> name != ""
    ensures Entry(t', p, name) == k
  {
    var es := t'.nodes[p].entries;
    assert forall i: nat :: i < k ==> es[i].nr == 0 || es[i].name != name;
  }

  /** Call `c` works, and call `back` then restores names, counts and bitmap. */
  ghost predicate Undoes(t: Tree, c: Call, back: Call) {
    && Ready(t, c) && Succeeds(t, c) && Inv(Do(t, c))
    && Ready(Do(t, c), back) && Succeeds(Do(t, c), back) && SameView(t, Do(Do(t, c), back))
  }

  predicate CanLink(t: Tree, n: nat, p: nat, name: string) {
    && |t.nodes| == |t.inUse| && Fresh(t, p, name) && |name| < NAME_LEN
    && 0 < n && 0 < Links(t, n) < LINK_WRAP - 1 && !t.nodes[n].dir
  }

  lemma LinkIsFound(t: Tree, n: nat, p: nat, name: string)
    requires CanLink(t, n, p, name)
    ensures Succeeds(t, LinkCall(n, p, name)) && Ready(t, LinkCall(n, p, name))
    ensures var t1, c := Do(t, LinkCall(n, p, name)), UnlinkCall(p, name);
            Succeeds(t1, c) && Ready(t1, c) && Do(t1, c) == Unlink(t1, p, Slot(t, p)) && Names(t1, p, Slot(t, p), n)
            && Links(t1, n) > 0 && !t1.nodes[n].dir && Do(t1, c).inUse == t.inUse
  {
    FoundAgain(t, Link(t, n, p, name), p, Slot(t, p), name);
  }

  /** Unlinking undoes linking. */
  lemma UnlinkUndoesLink(t: Tree, n: nat, p: nat, name: string)
    requires Inv(t) && CanLink(t, n, p, name)
    ensures Undoes(t, LinkCall(n, p, name), UnlinkCall(p, name))
  {
    ShortNameIsFree(t, p, name);
    LinkIsFound(t, n, p, name);
    CallKeepsInvIff(t, LinkCall(n, p, name));
    LinkUndone(t, n, p, name);
    hide Inv, CanLink, SameView, Do, Ready, Succeeds;
  }

  lemma LinkUndone(t: Tree, n: nat, p: nat, name: string)
    requires Inv(t) && CanLink(t, n, p, name) && Shape(Link(t, n, p, name)) && Names(Link(t, n, p, name), p, Slot(t, p), n)
    ensures SameView(t, Unlink(Link(t, n, p, name), p, Slot(t, p)))
  {
    LinkDetail(t, n, p, name);
    NameUndone(t, Link(t, n, p, name), p, Slot(t, p), n);
    hide Inv, CanLink, Names, Unlink, Link, Shape;
  }

  lemma LinkDetail(t: Tree, n: nat, p: nat, name: string)
    requires Inv(t) && CanLink(t, n, p, name)
    ensures AddsName(t, Link(t, n, p, name), p, Slot(t, p), n) && forall x: nat :: !Names(t, p, Slot(t, p), x)
    ensures forall x: nat :: Links(Link(t, n, p, name), x) == Links(t, x) + if x == n then 1 else 0
    ensures !Link(t, n, p, name).nodes[n].dir && Link(t, n, p, name).nodes[n].nlinks > 1
    ensures Link(t, n, p, name).inUse == t.inUse
  {
    SlotIsDead(t, p);
    LinkAddsName(t, n, p, name);
  }

  lemma NameUndone(t: Tree, t1: Tree, p: nat, k: nat, n: nat)
    requires AddsName(t, t1, p, k, n) && Shape(t1) && Names(t1, p, k, n) && n < |t1.nodes| && t1.nodes[n].nlinks > 0 && !t1.nodes[n].dir
    requires (forall x: nat :: !Names(t, p, k, x)) && (forall x: nat :: Links(t1, x) == Links(t, x) + if x == n then 1 else 0)
    requires Unlink(t1, p, k).inUse == t.inUse
    ensures SameView(t, Unlink(t1, p, k))
  {
    var t2 := Unlink(t1, p, k);
    UnlinkDropsName(t1, p, k, n);
    assert |t2.nodes| == |t.nodes|;
    hide Unlink, Shape, IsDir;
    Undone(t, t1, t2, p, k, n);
    hide AddsName, Names, Links;
  }

  lemma Undone(t: Tree, t1: Tree, t2: Tree, p: nat, k: nat, n: nat)
    requires AddsName(t, t1, p, k, n) && AddsName(t2, t1, p, k, n) && (forall x: nat :: !Names(t, p, k, x) && !Names(t2, p, k, x))
    ensures forall d: nat, i: nat, x: nat :: Names(t2, d, i, x) <==> Names(t, d, i, x)
    ensures forall d: nat, i: nat, x: nat :: Names(t, d, i, x) ==> t2.nodes[d].entries[i] == t.nodes[d].entries[i]
  {
    hide IsDir;
    forall d: nat, i: nat, x: nat
      ensures Names(t2, d, i, x) <==> Names(t, d, i, x)
    {
      assert Names(t1, d, i, x) <==> Names(t, d, i, x) || (d == p && i == k && x == n);
      assert Names(t1, d, i, x) <==> Names(t2, d, i, x) || (d == p && i == k && x == n);
    }
  }

  /** A call that adds a name: afterwards the parent has the cut name, for a new file with one link,
      a new directory, or the file linked to, and every other entry names what it did. */
  lemma AddingCallNames(t: Tree, c: Call)
    requires Inv(t) && Succeeds(t, c) && HasInode(t, c) && Safe(t, c) && !c.UnlinkCall? && !c.RmdirCall?
    ensures Ready(t, c)
    ensures var t', k, n := Do(t, c), Slot(t, c.p), if c.LinkCall? then c.n else NextInode(t);
            && Called(t', c.p, Stored(c.name), n) && (forall x: nat :: !Names(t, c.p, k, x))
            && (if c.MkdirCall? then AddsDir(t, t', c.p, k, n) else AddsName(t, t', c.p, k, n) && !IsDir(t', n))
            && (!c.LinkCall? ==> Links(t, n) == 0 && forall d: nat, i: nat :: !Names(t, d, i, n))
            && Links(t', n) == Links(t, n) + if c.MkdirCall? then 2 else 1
  {
    hide Unique, Counted, Dirs, Find, Has;
    SlotIsDead(t, c.p);
    match c
    case CreateCall(p, name) =>
      NextInodeIsFree(t);
      CreateAddsName(t, p, name);
      assert Names(Create(t, p, name), p, Slot(t, p), NextInode(t));
    case MkdirCall(p, name) =>
      NextInodeIsFree(t);
      MkdirAddsDir(t, p, name);
      assert Names(Mkdir(t, p, name), p, Slot(t, p), NextInode(t));
    case LinkCall(n, p, name) =>
      LinkAddsName(t, n, p, name);
      assert Names(Link(t, n, p, name), p, Slot(t, p), n);
  }

  lemma NameIsGone(t: Tree, t': Tree, p: nat, k: nat, n: nat)
    requires Unique(t) && Names(t, p, k, n) && IsDir(t', p) && forall x: nat :: !Names(t', p, k, x)
    requires forall i: nat, x: nat :: Names(t', p, i, x) ==> Names(t, p, i, x) && t.nodes[p].entries[i] == t'.nodes[p].entries[i]
    ensures !Has(t', p, t.nodes[p].entries[k].name)
  {
    var es, name := t'.nodes[p].entries, t.nodes[p].entries[k].name;
    forall j: nat | j < |es| && es[j].nr != 0 ensures es[j].name != name {
      assert Names(t', p, j, es[j].nr);
      assert j != k ==> !SameName(t, p, j, k);
    }
  }

  /** A call that removes a name: afterwards the parent has it no longer, its file has one link
      less or its directory is gone, and every other entry names what it did. */
  lemma RemovingCallNames(t: Tree, c: Call)
    requires Inv(t) && Succeeds(t, c) && (c.UnlinkCall? || c.RmdirCall?)
    ensures Ready(t, c)
    ensures var t', k, n := Do(t, c), Entry(t, c.p, c.name), Target(t, c.p, c.name);
            && Called(t, c.p, c.name, n) && IsDir(t', c.p) && !Has(t', c.p, c.name)
            && (if c.RmdirCall? then AddsDir(t', t, c.p, k, n) else AddsName(t', t, c.p, k, n))
            && Links(t, n) == Links(t', n) + if c.RmdirCall? then 2 else 1
  {
    hide Dirs, Shape, Counted, Unique, Has, Called;
    UnlinkAssertHolds(t, c);
    var t', k, n := Do(t, c), Entry(t, c.p, c.name), Target(t, c.p, c.name);
    FoundIffCalled(t, c.p, c.name, n);
    if c.UnlinkCall? {
      UnlinkDropsName(t, c.p, k, n);
      hide Unlink;
      NameIsGone(t, t', c.p, k, n);
    } else {
      RmdirMeetsRemovable(t, c);
      DropDetail(t, c.p, k, n);
      RemovableParent(t, c.p, k, n);
      hide Rmdir;
      NameIsGone(t, t', c.p, k, n);
    }
  }

  predicate CanCreate(t: Tree, p: nat, name: string) {
    Fresh(t, p, name) && |name| < NAME_LEN && 0 < NextInode(t) < |t.nodes| == |t.inUse| && NextInode(t) != p
  }

  lemma CreateIsFound(t: Tree, p: nat, name: string)
    requires CanCreate(t, p, name)
    ensures var c := CreateCall(p, name); Succeeds(t, c) && Ready(t, c) && Safe(t, c) && Do(t, c) == Create(t, p, name)
    ensures var t1, c, k, m := Create(t, p, name), UnlinkCall(p, name), Slot(t, p), NextInode(t);
            && Succeeds(t1, c) && Ready(t1, c) && Do(t1, c) == Unlink(t1, p, k) && Unlink(t1, p, k).inUse == t.inUse
            && Names(t1, p, k, m) && Links(t1, m) > 0 && !t1.nodes[m].dir
  {
    ShortNameIsFree(t, p, name);
    FoundAgain(t, Create(t, p, name), p, Slot(t, p), name);
  }

  /** Unlinking a file just made undoes making it: its inode is free again. */
  lemma UnlinkUndoesCreate(t: Tree, p: nat, name: string)
    requires Inv(t) && Fresh(t, p, name) && |name| < NAME_LEN && NextInode(t) < |t.nodes|
    ensures Undoes(t, CreateCall(p, name), UnlinkCall(p, name))
  {
    hide SameView, Do, Safe, Create, Unlink, Names, Unique, Counted, Dirs, Find;
    NextInodeIsFree(t);
    SlotIsDead(t, p);
    CreateIsFound(t, p, name);
    CallKeepsInvIff(t, CreateCall(p, name));
    CreateAddsName(t, p, name);
    NameUndone(t, Create(t, p, name), p, Slot(t, p), NextInode(t));
  }

  predicate CanMkdir(t: Tree, p: nat, name: string) {
    && Fresh(t, p, name) && |name| < NAME_LEN && name != DOT && name != DOTDOT
    && 0 < NextInode(t) < |t.nodes| == |t.inUse| && NextInode(t) != p && 0 < p && Links(t, p) < LINK_WRAP - 1
  }

  lemma MkdirIsFound(t: Tree, p: nat, name: string)
    requires CanMkdir(t, p, name)
    ensures var c := MkdirCall(p, name); Succeeds(t, c) && Ready(t, c) && Safe(t, c) && Do(t, c) == Mkdir(t, p, name)
    ensures var t1, c, k, m := Mkdir(t, p, name), RmdirCall(p, name, false), Slot(t, p), NextInode(t);
            && Succeeds(t1, c) && Ready(t1, c) && Do(t1, c) == Rmdir(t1, p, k) && Rmdir(t1, p, k).inUse == t.inUse
            && Names(t1, p, k, m) && IsDir(t1, m) && Empty(t1.nodes[m].entries)
  {
    ShortNameIsFree(t, p, name);
    var t1, m := Mkdir(t, p, name), NextInode(t);
    FoundAgain(t, t1, p, Slot(t, p), name);
    var es := t1.nodes[m].entries;
    assert CountLive(es, 1) == 1 && CountLive(es, 2) == 2;
  }

  /** Removing a directory just made undoes making it. */
  lemma RmdirUndoesMkdir(t: Tree, p: nat, name: string)
    requires Inv(t) && CanMkdir(t, p, name)
    ensures Undoes(t, MkdirCall(p, name), RmdirCall(p, name, false))
  {
    MkdirIsFound(t, p, name);
    SlotIsDead(t, p);
    CallKeepsInvIff(t, MkdirCall(p, name));
    hide Inv, CanMkdir, SameView, Do, Ready, Succeeds, Safe, Mkdir, Rmdir, Empty, IsDir, Names;
    MkdirUndone(t, p, name);
  }

  lemma MkdirUndone(t: Tree, p: nat, name: string)
    requires Inv(t) && CanMkdir(t, p, name) && Inv(Mkdir(t, p, name)) && Removable(Mkdir(t, p, name), p, Slot(t, p), NextInode(t))
    requires Rmdir(Mkdir(t, p, name), p, Slot(t, p)).inUse == t.inUse
    ensures SameView(t, Rmdir(Mkdir(t, p, name), p, Slot(t, p)))
  {
    MkdirDetail(t, p, name);
    hide Mkdir, CanMkdir, AddsDir;
    DirUndone(t, Mkdir(t, p, name), p, Slot(t, p), NextInode(t));
  }

  lemma DirUndone(t: Tree, t1: Tree, p: nat, k: nat, m: nat)
    requires AddsDir(t, t1, p, k, m) && Inv(t1) && Removable(t1, p, k, m) && Rmdir(t1, p, k).inUse == t.inUse
    requires (forall x: nat :: !Names(t, p, k, x)) && (forall x: nat :: Links(t1, x) == Links(t, x) + DirLinks(p, m, x))
    ensures SameView(t, Rmdir(t1, p, k))
  {
    var t2 := Rmdir(t1, p, k);
    DropDetail(t1, p, k, m);
    hide Rmdir, Inv, Removable;
    UndoneDir(t, t1, t2, p, k, m);
    assert |t2.nodes| == |t1.nodes| == |t.nodes|;
    hide AddsDir, Names, Links;
  }

  lemma DropDetail(t: Tree, p: nat, k: nat, m: nat)
    requires Inv(t) && Removable(t, p, k, m)
    ensures AddsDir(Rmdir(t, p, k), t, p, k, m) && forall x: nat :: !Names(Rmdir(t, p, k), p, k, x)
    ensures forall x: nat :: Links(t, x) == Links(Rmdir(t, p, k), x) + DirLinks(p, m, x)
  {
    RemovableParent(t, p, k, m);
    RemovablePlaces(t, p, k, m);
    hide Unique, HomeIsUp, HomeIsOne, HasHome;
    RemovableCounts(t, p, k, m);
    RmdirDropsDir(t, p, k, m);
  }

  lemma MkdirDetail(t: Tree, p: nat, name: string)
    requires Inv(t) && CanMkdir(t, p, name)
    ensures AddsDir(t, Mkdir(t, p, name), p, Slot(t, p), NextInode(t)) && forall x: nat :: !Names(t, p, Slot(t, p), x)
    ensures forall x: nat :: Links(Mkdir(t, p, name), x) == Links(t, x) + DirLinks(p, NextInode(t), x)
  {
    NextInodeIsFree(t);
    SlotIsDead(t, p);
    MkdirAddsDir(t, p, name);
  }

  lemma UndoneDir(t: Tree, t1: Tree, t2: Tree, p: nat, k: nat, m: nat)
    requires AddsDir(t, t1, p, k, m) && AddsDir(t2, t1, p, k, m) && (forall x: nat :: !Names(t, p, k, x) && !Names(t2, p, k, x))
    ensures forall d: nat, i: nat, x: nat :: Names(t2, d, i, x) <==> Names(t, d, i, x)
    ensures forall d: nat, i: nat, x: nat :: Names(t, d, i, x) ==> t2.nodes[d].entries[i] == t.nodes[d].entries[i]
  {
    forall d: nat, i: nat, x: nat
      ensures Names(t2, d, i, x) <==> Names(t, d, i, x)
    {
      assert Names(t1, d, i, x) <==> Names(t, d, i, x) || NewName(p, k, m, d, i, x);
      assert Names(t1, d, i, x) <==> Names(t2, d, i, x) || NewName(p, k, m, d, i, x);
    }
  }
}
