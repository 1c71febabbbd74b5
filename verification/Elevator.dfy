/** The request queue of a disk: kept sorted by sector, served by the elevator algorithm. */
module Elevator {
  import opened Basics
  import opened Lists

  datatype Request = Request(task: nat, idx: int)

  /** `blocked`: those that sleep until it is their request's turn. */
  datatype Queue = Queue(reqs: seq<Request>, up: bool, blocked: set<nat>)

  // ------------------------------------------------------------ operations

  /** `list_insert_sort`: where the new request goes, before the first one with a larger sector. */
  function Anchor(reqs: seq<Request>, idx: int, i: nat): (a: nat)
    requires i <= |reqs|
    ensures i <= a <= |reqs|
    ensures forall j :: i <= j < a ==> reqs[j].idx <= idx
    ensures a < |reqs| ==> reqs[a].idx > idx
    decreases |reqs| - i
  {
    if i == |reqs| || reqs[i].idx > idx then i else Anchor(reqs, idx, i + 1)
  }

  function Queued(reqs: seq<Request>, r: Request): seq<Request> {
    Inserted(reqs, Anchor(reqs, r.idx, 0), r)
  }

  /** The first half of `device_request`: into the queue, and to sleep if it was not empty. */
  function Arrive(q: Queue, r: Request): Queue {
    Queue(Queued(q.reqs, r), q.up, if q.reqs == [] then q.blocked else q.blocked + {r.task})
  }

  /** `request_nextreq`: the direction turns at either end; None at the other end too. */
  function NextReq(reqs: seq<Request>, up: bool, k: nat): (r: (Option<nat>, bool))
    requires k < |reqs|
  {
    var up' := if up then k + 1 != |reqs| else k == 0;
    if up' then (if k + 1 == |reqs| then None else Some(k + 1), up')
    else (if k == 0 then None else Some(k - 1), up')
  }

  /** The second half, for the request at `k`: out of the queue, and the next one is woken. */
  function Finish(q: Queue, k: nat): Queue
    requires k < |q.reqs|
  {
    var (next, up') := NextReq(q.reqs, q.up, k);
    Queue(Cut(q.reqs, k), up', if next.Some? then q.blocked - {q.reqs[next.value].task} else q.blocked)
  }

  // ------------------------------------------------------------- invariant

  ghost predicate Sorted(reqs: seq<Request>) { forall i, j :: 0 <= i < j < |reqs| ==> reqs[i].idx <= reqs[j].idx }

  ghost predicate OwnTasks(reqs: seq<Request>) { forall i, j :: 0 <= i < j < |reqs| ==> reqs[i].task != reqs[j].task }

  predicate Active(q: Queue, k: nat) { k < |q.reqs| && q.reqs[k].task !in q.blocked }

  /** Sorted, and whenever it is not empty exactly one request is active, all others asleep. */
  ghost predicate Inv(q: Queue) {
    && Sorted(q.reqs) && OwnTasks(q.reqs)
    && (q.reqs != [] ==> exists k: nat :: OnlyActive(q, k))
    && (forall t :: t in q.blocked ==> Waits(q, t))
  }

  ghost predicate OnlyActive(q: Queue, k: nat) { Active(q, k) && forall l: nat :: Active(q, l) ==> l == k }

  predicate Waits(q: Queue, task: nat) { exists k :: 0 <= k < |q.reqs| && q.reqs[k].task == task }

  lemma PutMultiset(s: seq<Request>, a: nat, r: Request)
    requires a <= |s|
    ensures multiset(Inserted(s, a, r)) == multiset(s) + multiset{r}
  {
    assert s == s[..a] + s[a..];
  }

  lemma CutMultiset(s: seq<Request>, k: nat)
    requires k < |s|
    ensures multiset(s) == multiset(Cut(s, k)) + multiset{s[k]}
  {
    assert s == s[..k] + [s[k]] + s[k + 1..];
  }

  lemma InsertedSorted(reqs: seq<Request>, r: Request)
    requires Sorted(reqs)
    ensures Sorted(Queued(reqs, r))
  {
    InsertedAt(reqs, Anchor(reqs, r.idx, 0), r);
    hide Inserted;
  }

  lemma AnchorSplits(reqs: seq<Request>, idx: int)
    requires Sorted(reqs)
    ensures forall j :: 0 <= j < |reqs| ==> (reqs[j].idx <= idx <==> j < Anchor(reqs, idx, 0))
  {}

  /** A request goes behind those for the same sector and for lower ones, before all higher ones. */
  lemma QueuedBehindEquals(reqs: seq<Request>, r: Request) returns (a: nat)
    requires Sorted(reqs)
    ensures a <= |reqs| && Queued(reqs, r) == reqs[..a] + [r] + reqs[a..]
    ensures forall j :: 0 <= j < |reqs| ==> (reqs[j].idx <= r.idx <==> j < a)
  {
    a := Anchor(reqs, r.idx, 0);
    AnchorSplits(reqs, r.idx);
  }

  lemma PutOwnTasks(s: seq<Request>, a: nat, r: Request)
    requires OwnTasks(s) && a <= |s| && forall i :: 0 <= i < |s| ==> s[i].task != r.task
    ensures OwnTasks(Inserted(s, a, r))
  {
    InsertedAt(s, a, r);
    hide Inserted;
  }

  lemma ArriveWaits(q: Queue, r: Request, t: nat)
    ensures Waits(Arrive(q, r), t) <==> Waits(q, t) || t == r.task
  {
    InsertedAt(q.reqs, Anchor(q.reqs, r.idx, 0), r);
    hide Inserted;
    var q', a := Arrive(q, r), Anchor(q.reqs, r.idx, 0);
    if Waits(q, t) {
      var k :| 0 <= k < |q.reqs| && q.reqs[k].task == t;
      assert q'.reqs[if k < a then k else k + 1].task == t;
    } else if t == r.task {
      assert q'.reqs[a].task == t;
    }
  }

  /** The active request stays active; in an empty queue the newcomer is. */
  lemma ArriveActive(q: Queue, r: Request, k: nat)
    requires OnlyActive(q, k) && !Waits(q, r.task)
    ensures exists l: nat :: OnlyActive(Arrive(q, r), l) && Arrive(q, r).reqs[l] == q.reqs[k]
  {
    InsertedAt(q.reqs, Anchor(q.reqs, r.idx, 0), r);
    hide Inserted;
    var q', a := Arrive(q, r), Anchor(q.reqs, r.idx, 0);
    var l := if k < a then k else k + 1;
    forall m: nat | Active(q', m) ensures m == l {
      assert m != a && Active(q, if m < a then m else m - 1);
    }
    assert OnlyActive(q', l);
  }

  /** An arrival keeps it so, at any time: the active one stays active, a newcomer is
      active only in an empty queue. */
  lemma ArriveKeepsInv(q: Queue, r: Request)
    requires Inv(q) && !Waits(q, r.task)
    ensures Inv(Arrive(q, r)) && Arrive(q, r).up == q.up
    ensures forall k: nat :: Active(q, k) ==> exists l: nat :: Active(Arrive(q, r), l) && Arrive(q, r).reqs[l] == q.reqs[k]
  {
    var q' := Arrive(q, r);
    InsertedSorted(q.reqs, r);
    PutOwnTasks(q.reqs, Anchor(q.reqs, r.idx, 0), r);
    forall t | t in q'.blocked ensures Waits(q', t) {
      ArriveWaits(q, r, t);
    }
    if q.reqs == [] {
      assert OnlyActive(q', 0);
    } else {
      var k: nat :| OnlyActive(q, k);
      ArriveActive(q, r, k);
    }
  }

  lemma CutSorted(s: seq<Request>, k: nat)
    requires Sorted(s) && OwnTasks(s) && k < |s|
    ensures Sorted(Cut(s, k)) && OwnTasks(Cut(s, k)) && forall i :: 0 <= i < |Cut(s, k)| ==> Cut(s, k)[i].task != s[k].task
  {
    CutAt(s, k);
    hide Cut;
  }

  lemma FinishActive(q: Queue, k: nat)
    requires OwnTasks(q.reqs) && OnlyActive(q, k) && |q.reqs| > 1
    ensures exists n: nat :: OnlyActive(Finish(q, k), n)
  {
    CutAt(q.reqs, k);
    hide Cut;
    var q' := Finish(q, k);
    var next := NextReq(q.reqs, q.up, k).0.value;
    var n := if next < k then next else next - 1;
    forall m: nat | Active(q', m) ensures m == n {
      assert !Active(q, if m < k then m else m + 1);
    }
    assert OnlyActive(q', n);
  }

  /** The end of a request keeps it so: no wake-up is lost, and no request is served twice. The
      direction turns exactly where no request is left further on, so also after the last one. */
  lemma FinishKeepsInv(q: Queue, k: nat)
    requires Inv(q) && Active(q, k)
    ensures Inv(Finish(q, k)) && !Waits(Finish(q, k), q.reqs[k].task)
    ensures Finish(q, k).up != q.up <==> (if q.up then k + 1 == |q.reqs| else k == 0)
  {
    CutAt(q.reqs, k);
    hide Cut, Sorted;
    var q' := Finish(q, k);
    CutSorted(q.reqs, k);
    forall t | t in q'.blocked ensures Waits(q', t) {
      var i :| 0 <= i < |q.reqs| && q.reqs[i].task == t;
      assert q'.reqs[if i < k then i else i - 1].task == t;
    }
    if |q.reqs| > 1 {
      FinishActive(q, k);
    }
  }

  // ------------------------------------------------------------- any arrivals

  datatype Event = New(r: Request) | Done

  ghost function ActiveAt(q: Queue): nat
    requires Inv(q) && q.reqs != []
    ensures Active(q, ActiveAt(q))
  {
    var k: nat :| OnlyActive(q, k);
    k
  }

  /** A run of arrivals and completions, in any order: the queue, and the requests served so far.
      A task has one request at a time. */
  ghost function Run(q: Queue, served: seq<Request>, es: seq<Event>): Option<(Queue, seq<Request>)>
    decreases |es|
  {
    if es == [] then Some((q, served))
    else match es[0]
      case New(r) => if Waits(q, r.task) then None else Run(Arrive(q, r), served, es[1..])
      case Done =>
        if !Inv(q) || q.reqs == [] then None
        else Run(Finish(q, ActiveAt(q)), served + [q.reqs[ActiveAt(q)]], es[1..])
  }

  /** The requests that have arrived in a run. */
  function Arrived(es: seq<Event>): multiset<Request> {
    if es == [] then multiset{} else (if es[0].New? then multiset{es[0].r} else multiset{}) + Arrived(es[1..])
  }

  /** Over any run, the queue stays sorted with one active request, and every request that has
      arrived is either served, once, or still in the queue. */
  lemma {:induction false} RunConserves(q: Queue, served: seq<Request>, es: seq<Event>)
    requires Inv(q) && Run(q, served, es).Some?
    ensures var (q', served') := Run(q, served, es).value;
            Inv(q') && multiset(served') + multiset(q'.reqs) == multiset(served) + multiset(q.reqs) + Arrived(es)
    decreases |es|
  {
    if es != [] {
      match es[0]
      case New(r) =>
        ArriveKeepsInv(q, r);
        PutMultiset(q.reqs, Anchor(q.reqs, r.idx, 0), r);
        RunConserves(Arrive(q, r), served, es[1..]);
      case Done =>
        var k := ActiveAt(q);
        FinishKeepsInv(q, k);
        CutMultiset(q.reqs, k);
        RunConserves(Finish(q, k), served + [q.reqs[k]], es[1..]);
    }
  }

  // ------------------------------------------------------------- one batch

  function Reverse(s: seq<Request>): seq<Request> {
    if s == [] then [] else Reverse(s[1..]) + [s[0]]
  }

  lemma {:induction false} ReverseLast(s: seq<Request>, r: Request)
    ensures Reverse(s + [r]) == [r] + Reverse(s)
  {
    if s == [] {
      assert [] + [r] == [r] && [r][1..] == [];
    } else {
      assert (s + [r])[1..] == s[1..] + [r];
      ReverseLast(s[1..], r);
    }
  }

  lemma {:induction false} ReverseMultiset(s: seq<Request>)
    ensures multiset(Reverse(s)) == multiset(s)
  {
    if s != [] {
      ReverseMultiset(s[1..]);
      assert s == [s[0]] + s[1..];
    }
  }

  /** One sweep on in the current direction, then one back. */
  function Sweep(reqs: seq<Request>, up: bool, k: nat): seq<Request>
    requires k < |reqs|
  {
    if up then reqs[k..] + Reverse(reqs[..k]) else Reverse(reqs[..k + 1]) + reqs[k + 1..]
  }

  /** The order in which a queue without arrivals is served. */
  function Served(q: Queue, k: nat): seq<Request>
    requires k < |q.reqs|
    decreases |q.reqs|
  {
    var (next, _) := NextReq(q.reqs, q.up, k);
    [q.reqs[k]] + if next.None? then [] else Served(Finish(q, k), if next.value < k then next.value else next.value - 1)
  }

  /** Without arrivals, the whole batch is served, each request once, in two sweeps. */
  lemma {:induction false} BatchIsSweep(q: Queue, k: nat)
    requires k < |q.reqs|
    ensures Served(q, k) == Sweep(q.reqs, q.up, k) && multiset(Served(q, k)) == multiset(q.reqs)
    decreases |q.reqs|
  {
    SweepMultiset(q.reqs, q.up, k);
    if |q.reqs| > 1 {
      var n := NextAfter(|q.reqs|, q.up, k);
      var a, b := q.reqs[..k], q.reqs[k + 1..];
      assert q.reqs == a + [q.reqs[k]] + b && Finish(q, k).reqs == a + b;
      ServedFirst(q, k);
      hide Sweep, Cut, Served, NextReq, Reverse;
      BatchIsSweep(Finish(q, k), n);
      SweepStep(a, q.reqs[k], b, q.up);
    } else {
      ServedAlone(q);
    }
  }

  lemma ServedFirst(q: Queue, k: nat)
    requires k < |q.reqs| && |q.reqs| > 1
    ensures |Finish(q, k).reqs| == |q.reqs| - 1 && Finish(q, k).up == DirAfter(|q.reqs|, q.up, k)
    ensures Served(q, k) == [q.reqs[k]] + Served(Finish(q, k), NextAfter(|q.reqs|, q.up, k))
  {
    hide NextReq, Cut, DirAfter, NextAfter;
    NextTurns(q, k);
    CutAt(q.reqs, k);
  }

  lemma ServedAlone(q: Queue)
    requires |q.reqs| == 1
    ensures Served(q, 0) == q.reqs == Sweep(q.reqs, q.up, 0)
  {
    assert q.reqs[..0] == [] && q.reqs[..1] == q.reqs && q.reqs[1..] == [] && q.reqs[0..] == q.reqs;
    assert Reverse([]) == [] && Reverse(q.reqs) == [] + [q.reqs[0]];
  }

  /** The direction after the request at `k`, and where the next one is once that is out. */
  function DirAfter(n: nat, up: bool, k: nat): bool { if up then k + 1 < n else k == 0 }

  function NextAfter(n: nat, up: bool, k: nat): nat
    requires k < n && n > 1
  {
    if up then (if k + 1 < n then k else k - 1) else (if k > 0 then k - 1 else 0)
  }

  lemma NextTurns(q: Queue, k: nat)
    requires k < |q.reqs|
    ensures var r := NextReq(q.reqs, q.up, k);
            (r.0.None? <==> |q.reqs| == 1) &&
            (r.0.Some? ==> r.1 == DirAfter(|q.reqs|, q.up, k)
                           && NextAfter(|q.reqs|, q.up, k) == if r.0.value < k then r.0.value else r.0.value - 1)
  {}

  lemma SweepFrom(a: seq<Request>, b: seq<Request>)
    ensures b != [] ==> Sweep(a + b, true, |a|) == Onward(a, b, true)
    ensures a != [] ==> Sweep(a + b, false, |a| - 1) == Onward(a, b, false)
  {
    assert (a + b)[..|a|] == a && (a + b)[|a|..] == b;
  }

  lemma SweepSplit(a: seq<Request>, r: Request, b: seq<Request>, up: bool)
    ensures Sweep(a + [r] + b, up, |a|) == [r] + Onward(a, b, up)
  {
    var s := a + [r] + b;
    if up {
      assert s[..|a|] == a && s[|a|..] == [r] + b;
      assert ([r] + b) + Reverse(a) == [r] + (b + Reverse(a));
    } else {
      assert s[..|a| + 1] == a + [r] && s[|a| + 1..] == b;
      ReverseLast(a, r);
      assert ([r] + Reverse(a)) + b == [r] + (Reverse(a) + b);
    }
  }

  function Onward(a: seq<Request>, b: seq<Request>, up: bool): seq<Request> { if up then b + Reverse(a) else Reverse(a) + b }

  /** The sweep is the request at `k`, then the sweep of what is left from the next one on. */
  lemma SweepStep(a: seq<Request>, r: Request, b: seq<Request>, up: bool)
    requires a + b != []
    ensures var n, k := |a| + 1 + |b|, |a|;
            Sweep(a + [r] + b, up, k) == [r] + Sweep(a + b, DirAfter(n, up, k), NextAfter(n, up, k))
  {
    SweepSplit(a, r, b, up);
    SweepFrom(a, b);
    hide Sweep;
    if a == [] {
      assert a + b == b && Onward(a, b, up) == b;
    } else if b == [] {
      assert a + b == a && Onward(a, b, up) == Reverse(a);
    }
  }

  lemma SweepMultiset(reqs: seq<Request>, up: bool, k: nat)
    requires k < |reqs|
    ensures multiset(Sweep(reqs, up, k)) == multiset(reqs)
  {
    ReverseMultiset(reqs[..k]);
    ReverseMultiset(reqs[..k + 1]);
    assert reqs == reqs[..k] + reqs[k..] == reqs[..k + 1] + reqs[k + 1..];
  }

  // ------------------------------------------------------------ the device

  class Device {
    var reqs: seq<Request>
    var up: bool
    var blocked: set<nat>

    ghost function Snap(): Queue
      reads this
    {
      Queue(reqs, up, blocked)
    }

    constructor ()
      ensures Snap() == Queue([], true, {})
    {
      reqs, up, blocked := [], true, {};
    }

    method InsertSort(r: Request)
      modifies this`reqs
      ensures reqs == Queued(old(reqs), r)
    {
      var a := 0;
      while a < |reqs|
        invariant 0 <= a <= |reqs| && Anchor(reqs, r.idx, 0) == Anchor(reqs, r.idx, a)
      {
        if reqs[a].idx > r.idx {
          break;
        }
        a := a + 1;
      }
      reqs := reqs[..a] + [r] + reqs[a..];
    }

    /** `device_request` up to where the request is served: `wait` says that its task sleeps first. */
    method Enter(r: Request) returns (wait: bool)
      requires Inv(Snap()) && !Waits(Snap(), r.task)
      modifies this
      ensures Snap() == Arrive(old(Snap()), r) && Inv(Snap()) && (wait <==> r.task in blocked)
    {
      ArriveKeepsInv(Snap(), r);
      var empty := reqs == [];
      assert r.task !in blocked;
      InsertSort(r);
      if !empty {
        blocked := blocked + {r.task};
      }
      wait := !empty;
    }

    method NextRequest(k: nat) returns (next: Option<nat>)
      requires k < |reqs|
      modifies this`up
      ensures (next, up) == NextReq(reqs, old(up), k)
    {
      if up {
        if k + 1 == |reqs| {
          up := false;
        }
      } else {
        if k == 0 {
          up := true;
        }
      }
      if up {
        next := if k + 1 == |reqs| then None else Some(k + 1);
      } else {
        next := if k == 0 then None else Some(k - 1);
      }
    }

    /** The rest of `device_request`, once the disk is done with the active request. */
    method Leave(k: nat) returns (woken: Option<nat>)
      requires Inv(Snap()) && Active(Snap(), k)
      modifies this
      ensures Snap() == Finish(old(Snap()), k) && Inv(Snap())
      ensures woken.None? <==> reqs == []
      ensures woken.Some? ==> woken.value in old(blocked) && exists l: nat :: Active(Snap(), l) && reqs[l].task == woken.value
    {
      FinishKeepsInv(Snap(), k);
      ghost var q := Snap();
      var next := NextRequest(k);
      woken := if next.Some? then Some(reqs[next.value].task) else None;
      assert next.Some? ==> !Active(q, next.value);
      reqs := reqs[..k] + reqs[k + 1..];
      if woken.Some? {
        blocked := blocked - {woken.value};
        assert Active(Snap(), if next.value < k then next.value else next.value - 1);
      }
    }
  }
}
