/** The process table: fork, exit with adoption by the grandparent, and reaping. */
module Processes {
  import opened Basics

  const INIT := 1

  datatype Status = Ready | Running | Asleep | Waiting | Dead

  /** A slot's pid is its index; `signalled` is the parent's notice of a child that has ended. */
  datatype Task = Task(ppid: nat, state: Status, waitpid: int, signalled: bool)

  type Table = seq<Option<Task>>

  predicate Exists(t: Table, i: nat) { i < |t| && t[i].Some? }

  predicate Alive(t: Table, i: nat) { Exists(t, i) && !t[i].value.state.Dead? }

  function Parent(t: Table, i: nat): nat
    requires Exists(t, i)
  {
    t[i].value.ppid
  }

  /** Idle and init never end; every other task's parent is alive, and parents lead up to init. */
  ghost predicate Inv(t: Table) {
    && |t| == TASK_NR && Alive(t, 0) && Alive(t, INIT) && Parent(t, 0) == 0 && Parent(t, INIT) == 0
    && (forall i: nat :: i >= 2 && Exists(t, i) ==> Parent(t, i) != 0 && Alive(t, Parent(t, i)))
    && exists depth: seq<nat> :: Deeper(t, depth)
  }

  ghost predicate Deeper(t: Table, depth: seq<nat>) {
    |depth| == |t| && forall i: nat :: i >= 2 && Exists(t, i) && Parent(t, i) < |t| ==> depth[Parent(t, i)] < depth[i]
  }

  // ------------------------------------------------------------ operations

  /** `get_free_task`: the lowest empty slot. */
  function FreeSlot(t: Table, i: nat): (k: nat)
    requires i <= |t|
    ensures i <= k <= |t|
    ensures forall j :: i <= j < k ==> t[j].Some?
    ensures k < |t| ==> t[k].None?
    decreases |t| - i
  {
    if i == |t| || t[i].None? then i else FreeSlot(t, i + 1)
  }

  /** `sys_fork`: a copy of the caller, ready, with the caller as parent. */
  function Fork(t: Table, p: nat): Table
    requires Alive(t, p) && FreeSlot(t, 0) < |t|
  {
    t[FreeSlot(t, 0) := Some(t[p].value.(ppid := p, state := Ready))]
  }

  /** What the end of task `e` does to another slot: children go to the grandparent, a task
      waiting for it wakes. */
  function AfterExit(o: Option<Task>, e: nat, heir: nat): Option<Task> {
    if o.None? then None
    else if o.value.ppid == e then Some(o.value.(ppid := heir))
    else if o.value.waitpid == e then
      Some(o.value.(waitpid := 0, state := if o.value.state.Waiting? then Ready else o.value.state))
    else o
  }

  function Told(t: Table, p: nat): Table {
    if Exists(t, p) then t[p := Some(t[p].value.(signalled := true))] else t
  }

  /** `sys_exit`. */
  function Exit(t: Table, e: nat): Table
    requires Exists(t, e)
  {
    var dead := t[e := Some(t[e].value.(state := Dead))];
    var told := if Parent(t, e) == 0 then dead else Told(dead, Parent(t, e));
    seq(|t|, i requires 0 <= i < |t| => AfterExit(if i < |told| then told[i] else None, e, Parent(t, e)))
  }

  /** The child that `sys_waitpid` looks at: the first one, from slot 2 on. */
  function FirstChild(t: Table, p: nat, i: nat): (k: nat)
    requires i <= |t|
    ensures i <= k <= |t|
    ensures forall j :: i <= j < k ==> !(t[j].Some? && t[j].value.ppid == p)
    ensures k < |t| ==> t[k].Some? && t[k].value.ppid == p
    decreases |t| - i
  {
    if i == |t| || (t[i].Some? && t[i].value.ppid == p) then i else FirstChild(t, p, i + 1)
  }

  /** The end of `sys_waitpid` for a child that is dead. */
  function Reap(t: Table, c: nat): Table
    requires c < |t|
  {
    t[c := None]
  }

  // ------------------------------------------------------------- invariant

  lemma ForkKeepsInv(t: Table, p: nat)
    requires Inv(t) && Alive(t, p) && p != 0 && FreeSlot(t, 0) < |t|
    ensures Inv(Fork(t, p)) && FreeSlot(t, 0) >= 2 && Parent(Fork(t, p), FreeSlot(t, 0)) == p
    ensures t[FreeSlot(t, 0)].None? && Fork(t, p)[FreeSlot(t, 0)].value.state.Ready?
    ensures forall i :: 0 <= i < |t| && i != FreeSlot(t, 0) ==> Fork(t, p)[i] == t[i]
  {
    var c, t' := FreeSlot(t, 0), Fork(t, p);
    hide FreeSlot;
    forall i: nat
      ensures (Exists(t', i) <==> Exists(t, i) || i == c) && (Alive(t', i) <==> Alive(t, i) || i == c)
      ensures Exists(t, i) ==> Parent(t', i) == Parent(t, i) && (i >= 2 ==> Parent(t, i) != c)
    {}
    hide Fork;
    var depth: seq<nat> :| Deeper(t, depth);
    DeeperFork(t, t', p, c, depth);
  }

  lemma DeeperFork(t: Table, t': Table, p: nat, c: nat, depth: seq<nat>)
    requires Deeper(t, depth) && |t'| == |t| && c < |t| && p < |t| && p != c && Exists(t', c) && Parent(t', c) == p
    requires forall i: nat :: Exists(t', i) <==> Exists(t, i) || i == c
    requires forall i: nat :: Exists(t, i) && i != c ==> Parent(t', i) == Parent(t, i) && (i >= 2 ==> Parent(t, i) != c)
    ensures Deeper(t', depth[c := depth[p] + 1])
  {
    var depth' := depth[c := depth[p] + 1];
    forall i: nat | i >= 2 && Exists(t', i) && Parent(t', i) < |t'| ensures depth'[Parent(t', i)] < depth'[i] {
      assert i != c ==> Exists(t, i) && Parent(t, i) < |t|;
    }
  }

  /** Parents that stay the same stay in order. */
  lemma DeeperSame(t: Table, t': Table, depth: seq<nat>)
    requires Deeper(t, depth) && |t'| == |t|
    requires forall i: nat :: Exists(t', i) ==> Exists(t, i) && Parent(t', i) == Parent(t, i)
    ensures Deeper(t', depth)
  {
    forall i: nat | i >= 2 && Exists(t', i) && Parent(t', i) < |t'| ensures depth[Parent(t', i)] < depth[i] {
      assert Exists(t, i) && Parent(t, i) < |t|;
    }
  }

  lemma ToldKeepsTree(t: Table, p: nat, i: nat)
    ensures |Told(t, p)| == |t|
    ensures Exists(Told(t, p), i) <==> Exists(t, i)
    ensures Exists(t, i) ==> Parent(Told(t, p), i) == Parent(t, i) && (Alive(Told(t, p), i) <==> Alive(t, i))
  {}

  lemma ToldSlot(t: Table, p: nat, i: nat)
    requires Exists(t, i)
    ensures Exists(Told(t, p), i) && Told(t, p)[i].value.(signalled := true) == t[i].value.(signalled := true)
  {}

  /** Where each task stands after an exit. */
  lemma ExitTree(t: Table, e: nat, i: nat)
    requires Exists(t, e)
    ensures |Exit(t, e)| == |t| && (Exists(Exit(t, e), i) <==> Exists(t, i))
    ensures Exists(t, i) ==> Parent(Exit(t, e), i) == if Parent(t, i) == e then Parent(t, e) else Parent(t, i)
    ensures Exists(t, i) ==> (Alive(Exit(t, e), i) <==> Alive(t, i) && i != e)
  {
    var dead := t[e := Some(t[e].value.(state := Dead))];
    var told := if Parent(t, e) == 0 then dead else Told(dead, Parent(t, e));
    ToldKeepsTree(dead, Parent(t, e), i);
    assert |told| == |t| && (Exists(told, i) <==> Exists(t, i));
    assert Exists(t, i) ==> Parent(told, i) == Parent(t, i) && (Alive(told, i) <==> Alive(t, i) && i != e);
    assert i < |t| ==> Exit(t, e)[i] == AfterExit(told[i], e, Parent(t, e));
  }

  /** A task ends: its children, dead ones too, pass to its parent; nobody's parent is dead. */
  lemma ExitKeepsInv(t: Table, e: nat)
    requires Inv(t) && Alive(t, e) && e >= 2
    ensures Inv(Exit(t, e)) && forall i: nat :: Exists(Exit(t, e), i) ==> Parent(Exit(t, e), i) != e
  {
    var t' := Exit(t, e);
    forall i: nat ensures
      && |t'| == |t| && (Exists(t', i) <==> Exists(t, i))
      && (Exists(t, i) ==> Parent(t', i) == if Parent(t, i) == e then Parent(t, e) else Parent(t, i))
      && (Exists(t, i) ==> (Alive(t', i) <==> Alive(t, i) && i != e))
    {
      ExitTree(t, e, i);
    }
    hide Exit;
    var depth: seq<nat> :| Deeper(t, depth);
    assert depth[Parent(t, e)] < depth[e];
    assert Deeper(t', depth);
  }

  /** A sleeping waiter is woken by exactly the exit of the pid it asked for, if that is not its
      own parent: one that asked for any child, with -1, sleeps on. */
  lemma ExitWakesIff(t: Table, e: nat, w: nat)
    requires Inv(t) && Alive(t, e) && e >= 2 && Exists(t, w) && w != e && t[w].value.state.Waiting?
    ensures |Exit(t, e)| == |t| && Exists(Exit(t, e), w)
    ensures !Exit(t, e)[w].value.state.Waiting? <==> t[w].value.waitpid == e && Parent(t, w) != e
  {
    ExitTree(t, e, w);
    var dead := t[e := Some(t[e].value.(state := Dead))];
    ToldSlot(dead, Parent(t, e), w);
    var told := if Parent(t, e) == 0 then dead else Told(dead, Parent(t, e));
    assert Exit(t, e)[w] == AfterExit(told[w], e, Parent(t, e));
  }

  /** What an exit does to the others: it signals the parent of the task that ends and nobody
      else, and makes a task ready that slept for it; every other one goes on as it was. */
  lemma ExitTells(t: Table, e: nat, w: nat)
    requires Inv(t) && Alive(t, e) && e >= 2 && Exists(t, w) && w != e
    ensures Exists(Exit(t, e), w)
    ensures Exit(t, e)[w].value.signalled <==> t[w].value.signalled || w == Parent(t, e)
    ensures var woken := t[w].value.state.Waiting? && t[w].value.waitpid == e && Parent(t, w) != e;
            Exit(t, e)[w].value.state == if woken then Ready else t[w].value.state
  {
    ExitTree(t, e, w);
    var dead := t[e := Some(t[e].value.(state := Dead))];
    assert Exit(t, e)[w] == AfterExit(Told(dead, Parent(t, e))[w], e, Parent(t, e));
  }

  /** A dead task has no children, so its slot can be used again. */
  lemma DeadHasNoChildren(t: Table, c: nat, i: nat)
    requires Inv(t) && Exists(t, c) && !Alive(t, c) && Exists(t, i)
    ensures Parent(t, i) != c
  {}

  lemma ReapKeepsInv(t: Table, c: nat)
    requires Inv(t) && Exists(t, c) && !Alive(t, c)
    ensures Inv(Reap(t, c)) && FreeSlot(Reap(t, c), 0) <= c
    ensures forall i: nat :: i < |t| ==> Reap(t, c)[i] == if i == c then None else t[i]
  {
    var t' := Reap(t, c);
    forall i: nat
      ensures Exists(t', i) <==> Exists(t, i) && i != c
      ensures Exists(t', i) ==> Parent(t', i) == Parent(t, i) && (Alive(t', i) <==> Alive(t, i))
    {}
    hide Reap;
    var depth: seq<nat> :| Deeper(t, depth);
    DeeperSame(t, t', depth);
  }

  /** The panic of `task_tell_father` cannot be reached: a task that ends has a parent there. */
  lemma FatherIsThere(t: Table, e: nat)
    requires Inv(t) && Exists(t, e) && Parent(t, e) != 0
    ensures Alive(t, Parent(t, e))
  {}

  // ------------------------------------------------------------------ runs

  /** Sleeping and waking of the rest of the kernel: any change of state that is not a death. */
  datatype Event = DoFork(p: nat) | DoExit(e: nat) | DoReap(p: nat) | SetState(i: nat, s: Status, waitpid: int)

  predicate Enabled(t: Table, ev: Event) {
    match ev
    case DoFork(p) => Alive(t, p) && p != 0 && FreeSlot(t, 0) < |t|
    case DoExit(e) => Alive(t, e) && e >= 2
    case DoReap(p) => Alive(t, p) && |t| >= 2 && FirstChild(t, p, 2) < |t| && !Alive(t, FirstChild(t, p, 2))
    case SetState(i, s, _) => Alive(t, i) && !s.Dead?
  }

  function Do(t: Table, ev: Event): Table
    requires Enabled(t, ev)
  {
    match ev
    case DoFork(p) => Fork(t, p)
    case DoExit(e) => Exit(t, e)
    case DoReap(p) => Reap(t, FirstChild(t, p, 2))
    case SetState(i, s, w) => t[i := Some(t[i].value.(state := s, waitpid := w))]
  }

  function Run(t: Table, evs: seq<Event>): Table
    decreases |evs|
  {
    if evs == [] then t else Run(if Enabled(t, evs[0]) then Do(t, evs[0]) else t, evs[1..])
  }

  lemma EventKeepsInv(t: Table, ev: Event)
    requires Inv(t) && Enabled(t, ev)
    ensures Inv(Do(t, ev))
  {
    match ev
    case DoFork(p) => ForkKeepsInv(t, p);
    case DoExit(e) => ExitKeepsInv(t, e);
    case DoReap(p) => ReapKeepsInv(t, FirstChild(t, p, 2));
    case SetState(i, s, w) => SetStateKeepsInv(t, i, s, w);
  }

  lemma SetStateKeepsInv(t: Table, i: nat, s: Status, w: int)
    requires Inv(t) && Alive(t, i) && !s.Dead?
    ensures Inv(t[i := Some(t[i].value.(state := s, waitpid := w))])
  {
    var t' := t[i := Some(t[i].value.(state := s, waitpid := w))];
    forall j: nat
      ensures (Exists(t', j) <==> Exists(t, j)) && (Alive(t', j) <==> Alive(t, j))
      ensures Exists(t, j) ==> Parent(t', j) == Parent(t, j)
    {}
    var depth: seq<nat> :| Deeper(t, depth);
    DeeperSame(t, t', depth);
  }

  lemma {:induction false} RunKeepsInv(t: Table, evs: seq<Event>)
    requires Inv(t)
    ensures Inv(Run(t, evs))
    decreases |evs|
  {
    if evs != [] {
      if Enabled(t, evs[0]) {
        EventKeepsInv(t, evs[0]);
      }
      RunKeepsInv(if Enabled(t, evs[0]) then Do(t, evs[0]) else t, evs[1..]);
    }
  }

  /** The table at the end of `task_setup`: idle and init. */
  function Booted(): Table {
    seq(TASK_NR, i => if i <= INIT then Some(Task(0, Ready, 0, false)) else None)
  }

  lemma BootedInv()
    ensures Inv(Booted())
  {
    assert Deeper(Booted(), seq(TASK_NR, i => 0));
  }

  /** `k` steps up from task `i`. */
  function Ancestor(t: Table, i: nat, k: nat): nat
    decreases k
  {
    if k == 0 || !Exists(t, i) then i else Ancestor(t, Parent(t, i), k - 1)
  }

  lemma {:induction false} LeadsToInit(t: Table, i: nat, depth: seq<nat>) returns (k: nat)
    requires Inv(t) && Deeper(t, depth) && i >= 1 && Exists(t, i)
    ensures Ancestor(t, i, k) == INIT
    decreases depth[i]
  {
    if i == INIT {
      k := 0;
    } else {
      var j := LeadsToInit(t, Parent(t, i), depth);
      k := j + 1;
    }
  }

  /** After any run of forks, exits and reapings, with slots used again: every task has a living
      parent, and descends from init. */
  lemma TreeIsSafe(evs: seq<Event>, i: nat)
    requires i >= 2 && Exists(Run(Booted(), evs), i)
    ensures Alive(Run(Booted(), evs), Parent(Run(Booted(), evs), i))
    ensures exists k: nat :: Ancestor(Run(Booted(), evs), i, k) == INIT
  {
    BootedInv();
    RunKeepsInv(Booted(), evs);
    var t := Run(Booted(), evs);
    var depth: seq<nat> :| Deeper(t, depth);
    var k := LeadsToInit(t, i, depth);
  }

  // -------------------------------------------------------------- the table

  datatype Waited = NoChild | Blocks | Reaped(pid: nat)

  class ProcessTable {
    const slots: array<Option<Task>>

    function Snap(): Table
      reads slots
    {
      slots[..]
    }

    constructor ()
      ensures fresh(slots) && Snap() == Booted() && Inv(Snap())
    {
      slots := new Option<Task>[TASK_NR](i => if i <= INIT then Some(Task(0, Ready, 0, false)) else None);
      new;
      assert slots[..] == Booted();
      BootedInv();
    }

    /** `get_free_task`, where a slot is free. */
    method GetFreeTask() returns (pid: nat)
      requires FreeSlot(Snap(), 0) < slots.Length
      ensures pid == FreeSlot(Snap(), 0)
    {
      pid := 0;
      while slots[pid].Some?
        invariant pid < slots.Length && FreeSlot(Snap(), 0) == FreeSlot(Snap(), pid)
        decreases slots.Length - pid
      {
        pid := pid + 1;
      }
    }

    /** `sys_fork`. */
    method SysFork(p: nat) returns (pid: nat)
      requires Inv(Snap()) && Alive(Snap(), p) && p != 0 && FreeSlot(Snap(), 0) < slots.Length
      modifies slots
      ensures Snap() == Fork(old(Snap()), p) && Inv(Snap()) && pid == FreeSlot(old(Snap()), 0)
    {
      ForkKeepsInv(Snap(), p);
      pid := GetFreeTask();
      slots[pid] := Some(slots[p].value.(ppid := p, state := Ready));
    }

    /** `task_tell_father`; the search for the parent succeeds. */
    method TellFather(e: nat)
      requires Exists(Snap(), e) && (Parent(Snap(), e) != 0 ==> Exists(Snap(), Parent(Snap(), e)))
      modifies slots
      ensures Snap() == if Parent(old(Snap()), e) == 0 then old(Snap()) else Told(old(Snap()), Parent(old(Snap()), e))
    {
      var ppid := slots[e].value.ppid;
      if ppid == 0 {
        return;
      }
      var i := 0;
      while i < slots.Length
        invariant i <= slots.Length && i <= ppid && Snap() == old(Snap())
      {
        if slots[i].Some? && i == ppid {
          slots[i] := Some(slots[i].value.(signalled := true));
          return;
        }
        i := i + 1;
      }
      assert false;
    }

    /** `sys_exit`. */
    method SysExit(e: nat)
      requires Inv(Snap()) && Alive(Snap(), e) && e >= 2
      modifies slots
      ensures Snap() == Exit(old(Snap()), e) && Inv(Snap())
    {
      ExitKeepsInv(Snap(), e);
      ghost var t := Snap();
      var heir := slots[e].value.ppid;
      slots[e] := Some(slots[e].value.(state := Dead));
      TellFather(e);
      ghost var told := Snap();
      for i := 0 to slots.Length
        invariant forall j :: 0 <= j < slots.Length ==> slots[j] == if j < i then AfterExit(told[j], e, heir) else told[j]
      {
        if slots[i].Some? {
          var task := slots[i].value;
          if task.ppid == e {
            slots[i] := Some(task.(ppid := heir));
          } else if task.waitpid == e {
            slots[i] := Some(task.(waitpid := 0, state := if task.state.Waiting? then Ready else task.state));
          }
        }
      }
      assert Snap() == Exit(t, e);
    }

    /** One turn of the loop of `sys_waitpid`. */
    method WaitTurn(p: nat, pid: int) returns (r: Waited)
      requires Inv(Snap()) && Alive(Snap(), p)
      modifies slots
      ensures Inv(Snap())
      ensures var t := old(Snap()); var c := FirstChild(t, p, 2);
              && (r.NoChild? <==> c == |t|)
              && (r.Reaped? <==> c < |t| && !Alive(t, c))
              && Snap() == (match r
                            case NoChild => t
                            case Blocks => t[p := Some(t[p].value.(waitpid := pid, state := Waiting))]
                            case Reaped(k) => if k == c && c < |t| then Reap(t, c) else t)
              && (r.Reaped? ==> r.pid == c)
    {
      var c := 2;
      while c < slots.Length && !(slots[c].Some? && slots[c].value.ppid == p)
        invariant 2 <= c <= slots.Length && FirstChild(Snap(), p, 2) == FirstChild(Snap(), p, c)
      {
        c := c + 1;
      }
      if c == slots.Length {
        return NoChild;
      }
      if slots[c].value.state.Dead? {
        ReapKeepsInv(Snap(), c);
        slots[c] := None;
        return Reaped(c);
      }
      EventKeepsInv(Snap(), SetState(p, Waiting, pid));
      slots[p] := Some(slots[p].value.(waitpid := pid, state := Waiting));
      return Blocks;
    }
  }
}
