/** The reader/writer lock: two shared counters and any number of threads, whose atomic
    instructions interleave in any order. */
module RwLock {
  import opened Basics

  const U8 := 0x100

  /** Where a thread stands between two atomic instructions. A reader holds the flag from its
      compare-and-exchange (`Entering`) until it has counted itself (`Counted`) and let go. */
  datatype Pc = Idle | Entering | Counted | Reading | Waiting | Writing

  datatype State = State(writer: nat, readers: nat, pcs: seq<Pc>)

  /** The next instruction of thread `t`; an idle one tries for the read or the write lock. */
  function Step(s: State, t: nat, write: bool): State
    requires t < |s.pcs|
  {
    match s.pcs[t]
    case Idle => if s.writer != 0 then s else s.(writer := 1, pcs := s.pcs[t := if write then Waiting else Entering])
    case Entering => s.(readers := (s.readers + 1) % WORD, pcs := s.pcs[t := Counted])
    case Counted => s.(writer := (s.writer + U8 - 1) % U8, pcs := s.pcs[t := Reading])
    case Reading => s.(readers := (s.readers + WORD - 1) % WORD, pcs := s.pcs[t := Idle])
    case Waiting => if s.readers != 0 then s else s.(pcs := s.pcs[t := Writing])
    case Writing => s.(writer := 0, pcs := s.pcs[t := Idle])
  }

  predicate HoldsFlag(p: Pc) { p.Entering? || p.Counted? || p.Waiting? || p.Writing? }

  predicate IsCounted(p: Pc) { p.Counted? || p.Reading? }

  ghost function Holders(s: State): set<nat> { set t: nat | t < |s.pcs| && HoldsFlag(s.pcs[t]) }

  ghost function Inside(s: State): set<nat> { set t: nat | t < |s.pcs| && IsCounted(s.pcs[t]) }

  /** The flag is the one thread that holds it, if any; `readers` is the number of threads
      between increment and decrement; and while one writes there are none. */
  ghost predicate Inv(s: State) {
    && |s.pcs| < WORD
    && s.writer == |Holders(s)| <= 1 && s.readers == |Inside(s)|
    && (forall t: nat :: t < |s.pcs| && s.pcs[t].Writing? ==> s.readers == 0)
  }

  lemma OneHolder(s: State, t: nat, u: nat)
    requires |Holders(s)| <= 1 && t in Holders(s) && u in Holders(s)
    ensures t == u
  {
    SubsetCardinality({t, u}, Holders(s));
  }

  lemma {:induction false} BoundedCardinality(a: set<nat>, n: nat)
    requires forall x :: x in a ==> x < n
    ensures |a| <= n
  {
    if n > 0 {
      BoundedCardinality(a - {n - 1}, n - 1);
    } else {
      assert a == {};
    }
  }

  /** One thread's step changes its own place in the two sets, no other. */
  lemma SetsAfter(s: State, s': State, t: nat, p: Pc)
    requires t < |s.pcs| && s'.pcs == s.pcs[t := p]
    ensures Holders(s') == if HoldsFlag(p) then Holders(s) + {t} else Holders(s) - {t}
    ensures Inside(s') == if IsCounted(p) then Inside(s) + {t} else Inside(s) - {t}
  {}

  lemma PutCardinality(a: set<nat>, t: nat, put: bool)
    ensures |if put then a + {t} else a - {t}| == |a| + One(put) - One(t in a)
  {
    if put && t in a {
      assert a + {t} == a;
    } else if !put && t !in a {
      assert a - {t} == a;
    }
  }

  lemma CountsAfter(s: State, s': State, t: nat, p: Pc)
    requires t < |s.pcs| && s'.pcs == s.pcs[t := p]
    ensures |Holders(s')| == |Holders(s)| + One(HoldsFlag(p)) - One(HoldsFlag(s.pcs[t]))
    ensures |Inside(s')| == |Inside(s)| + One(IsCounted(p)) - One(IsCounted(s.pcs[t])) && |Inside(s')| <= |s.pcs|
  {
    SetsAfter(s, s', t, p);
    BoundedCardinality(Inside(s'), |s.pcs|);
    PutCardinality(Holders(s), t, HoldsFlag(p));
    PutCardinality(Inside(s), t, IsCounted(p));
    assert HoldsFlag(s.pcs[t]) <==> t in Holders(s);
    assert IsCounted(s.pcs[t]) <==> t in Inside(s);
  }

  /** With no flag to spare: another thread that holds it is the only one. */
  lemma OtherHolder(s: State, t: nat, u: nat)
    requires |Holders(s)| <= 1 && t < |s.pcs| && u < |s.pcs| && t != u && HoldsFlag(s.pcs[u])
    ensures !HoldsFlag(s.pcs[t]) && s.writer == |Holders(s)| ==> s.writer == 1
    ensures !HoldsFlag(s.pcs[t])
  {
    assert u in Holders(s);
    if t in Holders(s) {
      OneHolder(s, t, u);
    }
    SubsetCardinality({u}, Holders(s));
  }

  /** Every step of every thread keeps the invariant; neither counter ever wraps. */
  lemma StepKeepsInv(s: State, t: nat, write: bool)
    requires Inv(s) && t < |s.pcs|
    ensures Inv(Step(s, t, write))
    ensures s.pcs[t].Entering? ==> Step(s, t, write).readers == s.readers + 1
    ensures s.pcs[t].Counted? ==> Step(s, t, write).writer == s.writer - 1
    ensures s.pcs[t].Reading? ==> Step(s, t, write).readers == s.readers - 1
  {
    var s' := Step(s, t, write);
    CountsAfter(s, s', t, s'.pcs[t]);
    forall u: nat | u < |s.pcs| && s.pcs[u].Writing? && u != t ensures !HoldsFlag(s.pcs[t]) && s.writer == 1 {
      OtherHolder(s, t, u);
    }
    hide Holders, Inside;
  }

  /** Mutual exclusion: while a thread writes, no other thread is in a read or write section. */
  lemma WriterIsAlone(s: State, t: nat, u: nat)
    requires Inv(s) && t < |s.pcs| && u < |s.pcs| && t != u && s.pcs[t].Writing?
    ensures !s.pcs[u].Writing? && !s.pcs[u].Reading?
  {
    OtherHolder(s, u, t);
    assert Inside(s) == {};
    assert u !in Inside(s);
  }

  // ------------------------------------------------------------------ runs

  datatype Turn = Turn(t: nat, write: bool)

  function Run(s: State, turns: seq<Turn>): State
    decreases |turns|
  {
    if turns == [] || turns[0].t >= |s.pcs| then s else Run(Step(s, turns[0].t, turns[0].write), turns[1..])
  }

  function Free(threads: nat): State { State(0, 0, seq(threads, _ => Idle)) }

  lemma {:induction false} RunKeepsInv(s: State, turns: seq<Turn>)
    requires Inv(s)
    ensures Inv(Run(s, turns)) && |Run(s, turns).pcs| == |s.pcs|
    decreases |turns|
  {
    if turns != [] && turns[0].t < |s.pcs| {
      StepKeepsInv(s, turns[0].t, turns[0].write);
      RunKeepsInv(Step(s, turns[0].t, turns[0].write), turns[1..]);
    }
  }

  /** For any number of threads and any interleaving: while a thread writes it is alone, and
      `readers` counts the threads between increment and decrement. */
  lemma LockIsSafe(threads: nat, turns: seq<Turn>, t: nat, u: nat)
    requires threads < WORD && t < threads && u < threads && t != u
    ensures var s := Run(Free(threads), turns);
            && |s.pcs| == threads && s.readers == |Inside(s)| && s.writer <= 1
            && (s.pcs[t].Writing? ==> !s.pcs[u].Writing? && !s.pcs[u].Reading?)
  {
    var s0 := Free(threads);
    assert Holders(s0) == {} && Inside(s0) == {};
    RunKeepsInv(s0, turns);
    var s := Run(s0, turns);
    if s.pcs[t].Writing? {
      WriterIsAlone(s, t, u);
    }
  }

  // ------------------------------------------------------------ the callers

  /** Where a thread can be that last asked to write, or to read. */
  predicate Fits(p: Pc, write: bool) {
    p.Idle? || (write <==> p.Waiting? || p.Writing?)
  }

  predicate InSection(p: Pc) { p.Reading? || p.Writing? }

  /** What each thread last asked for: the lock to write, or to read. */
  function Asked(s: State, turns: seq<Turn>, asked: seq<bool>): seq<bool>
    decreases |turns|
  {
    if turns == [] || turns[0].t >= |s.pcs| || |asked| != |s.pcs| then asked
    else
      var t := turns[0].t;
      Asked(Step(s, t, turns[0].write), turns[1..], if s.pcs[t].Idle? then asked[t := turns[0].write] else asked)
  }

  lemma {:induction false} AskedIsGiven(s: State, turns: seq<Turn>, asked: seq<bool>)
    requires |asked| == |s.pcs| && forall t :: 0 <= t < |s.pcs| ==> Fits(s.pcs[t], asked[t])
    ensures |Asked(s, turns, asked)| == |Run(s, turns).pcs| == |s.pcs|
    ensures forall t :: 0 <= t < |s.pcs| ==> Fits(Run(s, turns).pcs[t], Asked(s, turns, asked)[t])
    decreases |turns|
  {
    if turns != [] && turns[0].t < |s.pcs| {
      var t := turns[0].t;
      AskedIsGiven(Step(s, t, turns[0].write), turns[1..], if s.pcs[t].Idle? then asked[t := turns[0].write] else asked);
    }
  }

  /** Exclusion for the callers: over any run, a thread in its section is there for what it asked
      for, and one that asked to write shares the lock with no other, reader or writer. */
  lemma CallersExclude(threads: nat, turns: seq<Turn>, t: nat, u: nat)
    requires threads < WORD && t < threads && u < threads && t != u
    ensures var s, asked := Run(Free(threads), turns), Asked(Free(threads), turns, seq(threads, _ => false));
            && |s.pcs| == |asked| == threads
            && (InSection(s.pcs[t]) ==> (asked[t] <==> s.pcs[t].Writing?))
            && (InSection(s.pcs[t]) && asked[t] ==> !InSection(s.pcs[u]))
  {
    LockIsSafe(threads, turns, t, u);
    AskedIsGiven(Free(threads), turns, seq(threads, _ => false));
  }

  /** A thread whose every attempt asks to write is never where readers are, and the other way round. */
  lemma {:induction false} AlwaysAsksTheSame(s: State, turns: seq<Turn>, t: nat, write: bool)
    requires t < |s.pcs| && Fits(s.pcs[t], write)
    requires forall k :: 0 <= k < |turns| && turns[k].t == t ==> turns[k].write == write
    ensures |Run(s, turns).pcs| == |s.pcs| && Fits(Run(s, turns).pcs[t], write)
    decreases |turns|
  {
    if turns != [] && turns[0].t < |s.pcs| {
      AlwaysAsksTheSame(Step(s, turns[0].t, turns[0].write), turns[1..], t, write);
    }
  }

  /** A writer that finds the lock free is in its section after two instructions, and out after a third. */
  lemma WriterComesAndGoes(s: State, t: nat)
    requires Inv(s) && t < |s.pcs| && forall v :: 0 <= v < |s.pcs| ==> s.pcs[v].Idle?
    ensures var s2 := Step(Step(s, t, true), t, true); s2.pcs == s.pcs[t := Writing] && Step(s2, t, true) == s
  {
    NothingStuck(s);
    hide Inv;
  }

  /** A reader that finds no writer is in its section after three instructions, next to the readers
      there, and out after a fourth. */
  lemma ReaderComesAndGoes(s: State, t: nat)
    requires Inv(s) && t < |s.pcs| && s.pcs[t].Idle? && forall v :: 0 <= v < |s.pcs| ==> !HoldsFlag(s.pcs[v])
    ensures var s3 := Step(Step(Step(s, t, false), t, false), t, false); s3.pcs == s.pcs[t := Reading] && Step(s3, t, false) == s
  {
    assert Holders(s) == {};
    BoundedCardinality(Inside(s) + {t}, |s.pcs|);
    assert t !in Inside(s);
  }

  predicate WriterHolds(p: Pc) { p.Waiting? || p.Writing? }

  /** Thread `w` does not unlock in this run. */
  predicate Keeps(s: State, turns: seq<Turn>, w: nat)
    decreases |turns|
  {
    turns == [] || turns[0].t >= |s.pcs| || w >= |s.pcs| ||
    (!(turns[0].t == w && s.pcs[w].Writing?) && Keeps(Step(s, turns[0].t, turns[0].write), turns[1..], w))
  }

  /** Once a writer holds the flag, until it unlocks: no thread comes to read that did not
      already, and the count of readers only falls. */
  lemma {:induction false} NoNewReaders(s: State, turns: seq<Turn>, w: nat)
    requires Inv(s) && w < |s.pcs| && WriterHolds(s.pcs[w]) && Keeps(s, turns, w)
    ensures Inv(Run(s, turns)) && |Run(s, turns).pcs| == |s.pcs| && WriterHolds(Run(s, turns).pcs[w])
    ensures Inside(Run(s, turns)) <= Inside(s) && Run(s, turns).readers <= s.readers
    ensures forall u: nat :: u < |s.pcs| && Run(s, turns).pcs[u].Reading? ==> s.pcs[u].Reading?
    decreases |turns|
  {
    if turns != [] && turns[0].t < |s.pcs| {
      var t, s1 := turns[0].t, Step(s, turns[0].t, turns[0].write);
      StepKeepsInv(s, t, turns[0].write);
      StepWhileHeld(s, t, turns[0].write, w);
      hide Inv, Holders, Inside, Step;
      NoNewReaders(s1, turns[1..], w);
    }
  }

  lemma StepWhileHeld(s: State, t: nat, write: bool, w: nat)
    requires Inv(s) && w < |s.pcs| && WriterHolds(s.pcs[w]) && t < |s.pcs| && !(t == w && s.pcs[w].Writing?)
    ensures var s' := Step(s, t, write);
            && |s'.pcs| == |s.pcs| && WriterHolds(s'.pcs[w]) && Inside(s') <= Inside(s) && s'.readers <= s.readers
            && forall u: nat :: u < |s.pcs| && s'.pcs[u].Reading? ==> s.pcs[u].Reading?
  {
    var s' := Step(s, t, write);
    SetsAfter(s, s', t, s'.pcs[t]);
    if t != w {
      OtherHolder(s, t, w);
    }
    assert s.pcs[t].Reading? ==> t in Inside(s);
  }

  /** A waiting writer goes in at its next step exactly when no reader is left, and with nobody
      at the lock it is free: the lock cannot get stuck. */
  lemma NothingStuck(s: State)
    requires Inv(s)
    ensures forall w: nat :: w < |s.pcs| && s.pcs[w].Waiting? ==> (Step(s, w, true).pcs[w].Writing? <==> Inside(s) == {})
    ensures (forall u: nat :: u < |s.pcs| ==> s.pcs[u].Idle?) ==> s.writer == 0 && s.readers == 0
    ensures s.writer != 0 ==> exists u: nat :: u < |s.pcs| && HoldsFlag(s.pcs[u])
  {
    if forall u: nat :: u < |s.pcs| ==> s.pcs[u].Idle? {
      assert Holders(s) == {} && Inside(s) == {};
    }
    if s.writer != 0 {
      var u :| u in Holders(s);
    }
  }

  // -------------------------------------------------------------- the lock

  /** The lock and the threads at it; each call is one atomic instruction. */
  class Lock {
    var writer: nat
    var readers: nat
    var pcs: seq<Pc>

    ghost function Snap(): State
      reads this
    {
      State(writer, readers, pcs)
    }

    constructor (threads: nat)
      requires threads < WORD
      ensures Snap() == Free(threads) && Inv(Snap())
    {
      writer, readers, pcs := 0, 0, seq(threads, _ => Idle);
      new;
      assert Holders(Snap()) == {} && Inside(Snap()) == {};
    }

    /** The compare-and-exchange that read and write lock start with. */
    method CompareExchange(t: nat, write: bool) returns (got: bool)
      requires Inv(Snap()) && t < |pcs| && pcs[t].Idle?
      modifies this
      ensures Snap() == Step(old(Snap()), t, write) && Inv(Snap()) && (got <==> old(writer) == 0)
      ensures if got then (if write then WriterHolds(pcs[t]) else pcs[t].Entering?) else Snap() == old(Snap())
    {
      StepKeepsInv(Snap(), t, write);
      got := writer == 0;
      if got {
        writer := 1;
        pcs := pcs[t := if write then Waiting else Entering];
      }
    }

    method CountReader(t: nat)
      requires Inv(Snap()) && t < |pcs| && pcs[t].Entering?
      modifies this
      ensures Snap() == Step(old(Snap()), t, false) && Inv(Snap()) && readers == old(readers) + 1
    {
      StepKeepsInv(Snap(), t, false);
      readers := (readers + 1) % WORD;
      pcs := pcs[t := Counted];
    }

    method ReleaseFlag(t: nat)
      requires Inv(Snap()) && t < |pcs| && pcs[t].Counted?
      modifies this
      ensures Snap() == Step(old(Snap()), t, false) && Inv(Snap()) && writer == 0
    {
      StepKeepsInv(Snap(), t, false);
      writer := (writer + U8 - 1) % U8;
      pcs := pcs[t := Reading];
    }

    method ReadUnlock(t: nat)
      requires Inv(Snap()) && t < |pcs| && pcs[t].Reading?
      modifies this
      ensures Snap() == Step(old(Snap()), t, false) && Inv(Snap()) && readers == old(readers) - 1
    {
      StepKeepsInv(Snap(), t, false);
      readers := (readers + WORD - 1) % WORD;
      pcs := pcs[t := Idle];
    }

    /** One look of the writer at the count of readers. */
    method AwaitReaders(t: nat) returns (entered: bool)
      requires Inv(Snap()) && t < |pcs| && pcs[t].Waiting?
      modifies this
      ensures Snap() == Step(old(Snap()), t, true) && Inv(Snap())
      ensures entered ==> forall u: nat :: u < |pcs| && u != t ==> !pcs[u].Writing? && !pcs[u].Reading?
    {
      StepKeepsInv(Snap(), t, true);
      entered := readers == 0;
      if entered {
        pcs := pcs[t := Writing];
        forall u: nat | u < |pcs| && u != t ensures !pcs[u].Writing? && !pcs[u].Reading? {
          WriterIsAlone(Snap(), t, u);
        }
      }
    }

    method WriteUnlock(t: nat)
      requires Inv(Snap()) && t < |pcs| && pcs[t].Writing?
      modifies this
      ensures Snap() == Step(old(Snap()), t, true) && Inv(Snap()) && writer == 0
    {
      StepKeepsInv(Snap(), t, true);
      writer := 0;
      pcs := pcs[t := Idle];
    }
  }
}
