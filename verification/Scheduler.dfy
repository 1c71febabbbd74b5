/** Round-robin scheduling: the scan of `schedule`, the switch, the clock, and how long a ready
    task can be made to wait. */
module Scheduler {
  import opened Basics

  const IDLE := 0

  datatype Status = Ready | Running | Asleep | Dead

  datatype Proc = Proc(state: Status, ticks: int, priority: int)

  datatype Sched = Sched(procs: seq<Option<Proc>>, current: nat)

  /** A task that `schedule` may choose: not idle, ready, with ticks left. */
  predicate Eligible(s: Sched, n: nat) {
    n != IDLE && n < |s.procs| && s.procs[n].Some? && s.procs[n].value.ticks != 0 && s.procs[n].value.state.Ready?
  }

  /** `i` places behind the current one, in the circle. */
  function Place(s: Sched, i: nat): (n: nat)
    requires |s.procs| == TASK_NR && s.current < TASK_NR
    ensures n < TASK_NR
  {
    (s.current + 1 + i) % TASK_NR
  }

  /** The first eligible task from place `i` on; idle if there is none. */
  function Scan(s: Sched, i: nat): (n: nat)
    requires |s.procs| == TASK_NR && s.current < TASK_NR && i <= TASK_NR
    ensures n < TASK_NR && (n != IDLE ==> Eligible(s, n))
    decreases TASK_NR - i
  {
    if i == TASK_NR then IDLE
    else if Eligible(s, Place(s, i)) then Place(s, i)
    else Scan(s, i + 1)
  }

  /** What `schedule` chooses. */
  function Pick(s: Sched): nat
    requires |s.procs| == TASK_NR && s.current < TASK_NR
  {
    Scan(s, 0)
  }

  /** How far behind the current task `n` is in the circle, counted from 1. */
  function Distance(s: Sched, n: nat): (d: nat)
    requires s.current < TASK_NR && n < TASK_NR
    ensures 1 <= d <= TASK_NR
  {
    if s.current < n then n - s.current else n + TASK_NR - s.current
  }

  lemma PlaceNext(s: Sched, i: nat)
    requires |s.procs| == TASK_NR && s.current < TASK_NR && i < TASK_NR
    ensures Place(s, i) == (if i == 0 then s.current + 1 else Place(s, i - 1) + 1) % TASK_NR
  {}

  lemma EligibleHere(s: Sched, n: nat)
    requires n < |s.procs|
    ensures Eligible(s, n) <==> n != IDLE && s.procs[n].Some? && s.procs[n].value.ticks != 0 && s.procs[n].value.state.Ready?
  {}

  lemma PlaceAtDistance(s: Sched, n: nat)
    requires |s.procs| == TASK_NR && s.current < TASK_NR && n < TASK_NR
    ensures Place(s, Distance(s, n) - 1) == n
  {}

  lemma DistanceOfPlace(s: Sched, i: nat)
    requires |s.procs| == TASK_NR && s.current < TASK_NR && i < TASK_NR
    ensures Distance(s, Place(s, i)) == i + 1
  {}

  lemma {:induction false} ScanFindsFirst(s: Sched, i: nat, k: nat)
    requires |s.procs| == TASK_NR && s.current < TASK_NR && i <= k < TASK_NR && Eligible(s, Place(s, k))
    ensures exists j: nat :: i <= j <= k && Scan(s, i) == Place(s, j) && Eligible(s, Place(s, j))
    decreases k - i
  {
    if !Eligible(s, Place(s, i)) {
      ScanFindsFirst(s, i + 1, k);
    }
  }

  /** No eligible task is passed over: the chosen one is the nearest behind the current one. */
  lemma PickIsNearest(s: Sched, t: nat)
    requires |s.procs| == TASK_NR && s.current < TASK_NR && Eligible(s, t)
    ensures Pick(s) != IDLE && Distance(s, Pick(s)) <= Distance(s, t)
  {
    PlaceAtDistance(s, t);
    ScanFindsFirst(s, 0, Distance(s, t) - 1);
    var j: nat :| j <= Distance(s, t) - 1 && Scan(s, 0) == Place(s, j) && Eligible(s, Place(s, j));
    DistanceOfPlace(s, j);
  }

  /** In numbers: the lowest eligible task above the current one, and where there is none above it,
      the lowest of all. */
  lemma PickInOrder(s: Sched, t: nat)
    requires |s.procs| == TASK_NR && s.current < TASK_NR && Eligible(s, t)
    ensures Eligible(s, Pick(s))
    ensures t > s.current ==> s.current < Pick(s) <= t
    ensures t <= s.current ==> Pick(s) > s.current || Pick(s) <= t
  {
    PickIsNearest(s, t);
  }

  /** Idle is chosen exactly when no other task is eligible. */
  lemma IdleIff(s: Sched)
    requires |s.procs| == TASK_NR && s.current < TASK_NR
    ensures Pick(s) == IDLE <==> forall t: nat :: !Eligible(s, t)
  {
    if t: nat :| Eligible(s, t) {
      PickIsNearest(s, t);
    }
  }

  // ------------------------------------------------------------- switching

  function SetState(s: Sched, n: nat, st: Status): Sched
    requires n < |s.procs| && s.procs[n].Some?
  {
    s.(procs := s.procs[n := Some(s.procs[n].value.(state := st))])
  }

  /** `switch_to`: the running task is ready again, the chosen one runs. */
  function Switch(s: Sched, n: nat): Sched
    requires s.current < |s.procs| && s.procs[s.current].Some? && n < |s.procs| && s.procs[n].Some?
  {
    var s1 := if s.procs[s.current].value.state.Running? then SetState(s, s.current, Ready) else s;
    SetState(s1, n, Running).(current := n)
  }

  /** The one running task is the current one; idle never sleeps; ticks are kept positive. */
  ghost predicate Inv(s: Sched) {
    && |s.procs| == TASK_NR && s.current < TASK_NR && s.procs[s.current].Some? && s.procs[IDLE].Some?
    && (forall n: nat :: n < TASK_NR && s.procs[n].Some? && s.procs[n].value.state.Running? ==> n == s.current)
    && (s.procs[IDLE].value.state.Ready? || s.procs[IDLE].value.state.Running?)
    && (forall n: nat :: n < TASK_NR && s.procs[n].Some? ==> s.procs[n].value.ticks >= 1 && s.procs[n].value.priority >= 1)
  }

  /** The assert of `switch_to` holds: the chosen task is ready by then; afterwards it runs. */
  lemma ScheduleKeepsInv(s: Sched)
    requires Inv(s)
    ensures s.procs[Pick(s)].Some?
    ensures Pick(s) != s.current ==> s.procs[Pick(s)].value.state.Ready?
    ensures var s' := Switch(s, Pick(s)); Inv(s') && s'.procs[s'.current].value.state.Running? && s'.current == Pick(s)
  {}

  /** A task that is preempted is ready, and unless it is idle can be chosen again; one that had gone
      to sleep stays asleep; all other tasks are as before, and nobody's ticks change. */
  lemma ScheduleKeepsOthers(s: Sched, n: nat)
    requires Inv(s) && n < TASK_NR && n != Pick(s)
    ensures s.procs[Pick(s)].Some?
    ensures var s' := Switch(s, Pick(s));
            && |s'.procs| == TASK_NR
            && (n == s.current && s.procs[n].value.state.Running? ==>
                  s'.procs[n] == Some(s.procs[n].value.(state := Ready)) && (n != IDLE ==> Eligible(s', n)))
            && (n != s.current || !s.procs[n].value.state.Running? ==> s'.procs[n] == s.procs[n])
            && s'.procs[Pick(s)] == Some(s.procs[Pick(s)].value.(state := Running))
  {}

  /** The clock interrupt: a task whose ticks are used up gets its priority's worth again. */
  function Tick(s: Sched): Sched
    requires s.current < |s.procs| && s.procs[s.current].Some?
  {
    var p := s.procs[s.current].value;
    var left := p.ticks - 1;
    s.(procs := s.procs[s.current := Some(p.(ticks := if left <= 0 then p.priority else left))])
  }

  lemma TickKeepsInv(s: Sched)
    requires Inv(s)
    ensures Inv(Tick(s))
  {}

  /** The states of the clock: `k` interrupts, one after the other. */
  function Ticked(s: Sched, k: nat): Sched
    requires s.current < |s.procs| && s.procs[s.current].Some?
    ensures Ticked(s, k).current == s.current && |Ticked(s, k).procs| == |s.procs| && Ticked(s, k).procs[s.current].Some?
    decreases k
  {
    if k == 0 then s else Tick(Ticked(s, k - 1))
  }

  /** A time slice: the ticks of the running task last for that many interrupts, then it has as many
      as its priority says; no other task loses any. */
  lemma {:induction false} SliceLasts(s: Sched, k: nat)
    requires Inv(s) && k <= s.procs[s.current].value.ticks
    ensures var p, p' := s.procs[s.current].value, Ticked(s, k).procs[s.current].value;
            p' == p.(ticks := if k < p.ticks then p.ticks - k else p.priority)
    ensures forall n: nat :: n < TASK_NR && n != s.current ==> Ticked(s, k).procs[n] == s.procs[n]
    decreases k
  {
    if k > 0 {
      SliceLasts(s, k - 1);
    }
  }

  // ---------------------------------------------------------- bounded waiting

  /** The states at successive calls of `schedule`: each call makes its choice the current task; in
      between anything else may happen. */
  ghost predicate Calls(ss: seq<Sched>) {
    && (forall i :: 0 <= i < |ss| ==> |ss[i].procs| == TASK_NR && ss[i].current < TASK_NR)
    && (forall i :: 0 < i < |ss| ==> ss[i].current == Pick(ss[i - 1]))
  }

  /** A task that stays ready is chosen after fewer than TASK_NR calls, its distance in the circle
      getting smaller with each. */
  lemma {:induction false} ChosenWithin(ss: seq<Sched>, t: nat)
    requires Calls(ss) && ss != [] && t < TASK_NR && |ss| >= Distance(ss[0], t)
    requires forall i :: 0 <= i < |ss| ==> Eligible(ss[i], t)
    ensures exists i :: 0 <= i < Distance(ss[0], t) && Pick(ss[i]) == t
    decreases |ss|
  {
    PickIsNearest(ss[0], t);
    if Pick(ss[0]) != t {
      DistanceShrinks(ss[0], t);
      var rest := ss[1..];
      assert forall i :: 0 <= i < |rest| ==> rest[i] == ss[i + 1];
      ChosenWithin(rest, t);
      var i :| 0 <= i < Distance(rest[0], t) && Pick(rest[i]) == t;
      assert Pick(ss[i + 1]) == t;
    }
  }

  lemma DistanceShrinks(s: Sched, t: nat)
    requires |s.procs| == TASK_NR && s.current < TASK_NR && Eligible(s, t) && Pick(s) != t
    ensures forall s': Sched :: s'.current == Pick(s) ==> Distance(s', t) < Distance(s, t)
  {
    PickIsNearest(s, t);
  }

  /** A task that is ready, and is not the one now giving up the processor, runs again after at most
      TASK_NR - 1 calls of `schedule`. */
  lemma BoundedWaiting(ss: seq<Sched>, t: nat)
    requires Calls(ss) && |ss| >= TASK_NR - 1 && t != ss[0].current
    requires forall i :: 0 <= i < |ss| ==> Eligible(ss[i], t)
    ensures exists i :: 0 <= i < TASK_NR - 1 && Pick(ss[i]) == t
  {
    ChosenWithin(ss, t);
    var i :| 0 <= i < Distance(ss[0], t) && Pick(ss[i]) == t;
  }

  // ----------------------------------------------------------- the scheduler

  class TaskList {
    const procs: array<Option<Proc>>
    var current: nat

    ghost function Snap(): Sched
      reads this, procs
    {
      Sched(procs[..], current)
    }

    /** The loop of `schedule`. */
    method Choose() returns (target: nat)
      requires procs.Length == TASK_NR && current < TASK_NR
      ensures target == Pick(Snap())
    {
      ghost var s := Snap();
      hide Place, Eligible;
      var n := current + 1;
      var i := 0;
      while i < TASK_NR
        invariant i <= TASK_NR && s == Snap() && |s.procs| == TASK_NR && s.current < TASK_NR
        invariant Pick(s) == Scan(s, i) && n == (if i == 0 then current + 1 else Place(s, i - 1) + 1)
      {
        PlaceNext(s, i);
        n := n % TASK_NR;
        EligibleHere(s, n);
        if n != 0 && procs[n].Some? && procs[n].value.ticks != 0 && procs[n].value.state.Ready? {
          return n;
        }
        i, n := i + 1, n + 1;
      }
      return IDLE;
    }

    /** `schedule`. */
    method Schedule()
      requires Inv(Snap())
      modifies this, procs
      ensures Snap() == Switch(old(Snap()), Pick(old(Snap()))) && Inv(Snap())
    {
      ScheduleKeepsInv(Snap());
      hide Pick, Switch;
      var target := Choose();
      SwitchTo(target);
    }

    /** `switch_to`. */
    method SwitchTo(n: nat)
      requires current < procs.Length && procs[current].Some? && n < procs.Length && procs[n].Some?
      requires n != current ==> procs[n].value.state.Ready?
      modifies this, procs
      ensures Snap() == Switch(old(Snap()), n)
    {
      if procs[current].value.state.Running? {
        procs[current] := Some(procs[current].value.(state := Ready));
      }
      current := n;
      procs[n] := Some(procs[n].value.(state := Running));
    }

    /** The end of `clock_handler`. */
    method ClockTick()
      requires Inv(Snap())
      modifies this, procs
      ensures Inv(Snap())
      ensures var s := old(Snap());
              Snap() == if s.procs[s.current].value.ticks > 1 then Tick(s) else Switch(Tick(s), Pick(Tick(s)))
    {
      TickKeepsInv(Snap());
      var p := procs[current].value;
      var left := p.ticks - 1;
      procs[current] := Some(p.(ticks := left));
      if left <= 0 {
        procs[current] := Some(p.(ticks := p.priority));
        assert Snap() == Tick(old(Snap()));
        Schedule();
      } else {
        assert Snap() == Tick(old(Snap()));
      }
    }
  }
}
