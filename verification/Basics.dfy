/** Vocabulary shared by the component modules: constants of the kernel, optional values,
    and the cardinality facts the reference-counting proofs rest on. */
module Basics {

  const TASK_NR := 64
  const BLOCK_SIZE := 1024
  const USER_STACK_TOP := 0xBFFF_FFFF
  const WORD := 0x1_0000_0000
  const EOF := -1

  newtype byte = x: int | 0 <= x < 256

  datatype Option<+T> = None | Some(value: T)

  function One(b: bool): nat { if b then 1 else 0 }

  /** The first clear bit of a bitmap, from bit `i` on. */
  function LowestClear(bits: seq<bool>, i: nat): (k: nat)
    requires i <= |bits|
    ensures i <= k <= |bits|
    ensures forall j :: i <= j < k ==> bits[j]
    ensures k < |bits| ==> !bits[k]
    decreases |bits| - i
  {
    if i == |bits| || !bits[i] then i else LowestClear(bits, i + 1)
  }

  method Memcpy(buf: array<byte>, at: nat, data: seq<byte>)
    requires at + |data| <= buf.Length
    modifies buf
    ensures forall k :: 0 <= k < buf.Length ==> buf[k] == if at <= k < at + |data| then data[k - at] else old(buf[k])
  {
    for i := 0 to |data|
      invariant forall k :: 0 <= k < buf.Length ==> buf[k] == if at <= k < at + i then data[k - at] else old(buf[k])
    {
      buf[at + i] := data[i];
    }
  }

  /** The frames that `mem_map` counts zero times. */
  ghost function Zeros(counts: seq<nat>): set<nat> {
    set f: nat | f < |counts| && counts[f] == 0
  }

  /** Where the first `start` frames are in use and no other, the others are free. */
  lemma {:induction false} ZerosFrom(counts: seq<nat>, start: nat)
    requires start <= |counts|
    requires forall f: nat :: f < |counts| ==> (counts[f] == 0 <==> f >= start)
    ensures |Zeros(counts)| == |counts| - start
    decreases |counts|
  {
    if |counts| == start {
      assert Zeros(counts) == {};
    } else {
      var last := |counts| - 1;
      ZerosFrom(counts[..last], start);
      assert Zeros(counts) == Zeros(counts[..last]) + {last};
    }
  }

  /** A subset of a finite set has no more elements. */
  lemma {:induction false} SubsetCardinality<T>(a: set<T>, b: set<T>)
    requires a <= b
    ensures |a| <= |b|
    ensures |a| == |b| ==> a == b
  {
    if a != {} {
      var x :| x in a;
      SubsetCardinality(a - {x}, b - {x});
    }
  }

  /** A bijection keeps the cardinality: `f` maps `a` onto `b`, one to one. */
  lemma {:induction false} BijectionCardinality<A, B>(a: set<A>, b: set<B>, f: A -> B)
    requires forall x :: x in a ==> f(x) in b
    requires forall x, y :: x in a && y in a && f(x) == f(y) ==> x == y
    requires forall z :: z in b ==> exists x :: x in a && f(x) == z
    ensures |a| == |b|
  {
    if a == {} {
      assert b == {};
    } else {
      var x :| x in a;
      forall z | z in b - {f(x)}
        ensures exists y :: y in a - {x} && f(y) == z
      {
        var y :| y in a && f(y) == z;
        assert y in a - {x};
      }
      BijectionCardinality(a - {x}, b - {f(x)}, f);
    }
  }
}
