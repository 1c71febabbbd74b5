/** A pipe with one reader and one writer, who run in turns and block on an empty or a full ring. */
module Pipes {
  import opened Basics
  import opened Kfifo

  datatype Phase = Idle | Running | Blocked

  /** `want` bytes are still to be read by the current `pipe_read`, `left` to be written by the
      current `pipe_write`; `offered`, `sent` and `got` record what was handed to the writer, put
      into the ring, and taken out of it. */
  datatype Pipe = Pipe(size: nat, queue: seq<byte>, rx: Phase, tx: Phase, rxwaiter: bool, txwaiter: bool,
                       want: nat, left: seq<byte>, offered: seq<byte>, sent: seq<byte>, got: seq<byte>)

  datatype Event = StartRead(count: nat) | StartWrite(data: seq<byte>) | ReaderTurn | WriterTurn

  predicate Full(p: Pipe) { |p.queue| + 1 == p.size }

  /** `kfifo_put`, which overwrites in a full ring. */
  function Put(p: Pipe, b: byte): seq<byte> { (if Full(p) && p.queue != [] then p.queue[1..] else p.queue) + [b] }

  predicate Enabled(p: Pipe, e: Event) {
    match e
    case StartRead(_) => p.rx.Idle?
    case StartWrite(_) => p.tx.Idle?
    case ReaderTurn => p.rx.Running?
    case WriterTurn => p.tx.Running?
  }

  /** One turn of the loop of `pipe_read`: it blocks, or takes a byte and wakes the writer. */
  function ReaderStep(p: Pipe): Pipe {
    if p.want == 0 then p.(rx := Idle)
    else if p.queue == [] then p.(rx := Blocked, rxwaiter := true)
    else p.(queue := p.queue[1..], got := p.got + [p.queue[0]], want := p.want - 1,
            tx := if p.txwaiter then Running else p.tx, txwaiter := false)
  }

  /** One turn of the loop of `pipe_write`. */
  function WriterStep(p: Pipe): Pipe {
    if p.left == [] then p.(tx := Idle)
    else if Full(p) then p.(tx := Blocked, txwaiter := true)
    else p.(queue := Put(p, p.left[0]), sent := p.sent + [p.left[0]], left := p.left[1..],
            rx := if p.rxwaiter then Running else p.rx, rxwaiter := false)
  }

  function Step(p: Pipe, e: Event): Pipe
    requires Enabled(p, e)
  {
    match e
    case StartRead(count) => p.(rx := Running, want := count)
    case StartWrite(data) => p.(tx := Running, left := data, offered := p.offered + data)
    case ReaderTurn => ReaderStep(p)
    case WriterTurn => WriterStep(p)
  }

  /** What was got is a prefix of what was sent, with the rest in the ring; a blocked reader
      means an empty ring, a blocked writer a full one. */
  ghost predicate Inv(p: Pipe) {
    && 2 <= p.size && |p.queue| < p.size
    && p.got + p.queue == p.sent && p.sent + p.left == p.offered
    && (p.rx.Blocked? <==> p.rxwaiter) && (p.tx.Blocked? <==> p.txwaiter)
    && (p.rx.Blocked? ==> p.queue == [] && p.want > 0)
    && (p.tx.Blocked? ==> Full(p) && p.left != [])
    && (p.tx.Idle? ==> p.left == []) && (p.rx.Idle? ==> p.want == 0)
  }

  lemma StepKeepsInv(p: Pipe, e: Event)
    requires Inv(p) && Enabled(p, e)
    ensures Inv(Step(p, e))
  {
    var p' := Step(p, e);
    match e
    case StartRead(_) =>
    case StartWrite(data) =>
      assert p.left == [];
      assert p'.sent + data == p'.offered;
    case ReaderTurn =>
      if p.want > 0 && p.queue != [] {
        assert p.got + p.queue == p'.got + p'.queue;
      }
    case WriterTurn =>
      if p.left != [] && !Full(p) {
        assert p.got + (p.queue + [p.left[0]]) == p.got + p.queue + [p.left[0]];
        assert p.sent + p.left == p'.sent + p'.left;
      }
  }

  /** The overwriting of `kfifo_put` never happens: the writer puts a byte only where there is room. */
  lemma NothingOverwritten(p: Pipe)
    requires Inv(p) && p.tx.Running? && p.left != [] && !Full(p)
    ensures WriterStep(p).queue == p.queue + [p.left[0]]
  {}

  /** Reader and writer are never both blocked, and the assert that no other waiter is
      registered holds when either goes to sleep. */
  lemma NeverBothBlocked(p: Pipe)
    requires Inv(p)
    ensures !(p.rx.Blocked? && p.tx.Blocked?)
    ensures p.rx.Running? ==> !p.rxwaiter
    ensures p.tx.Running? ==> !p.txwaiter
  {}

  // ------------------------------------------------------------------ runs

  /** The state after a run; events that cannot happen are passed over. */
  function Run(p: Pipe, es: seq<Event>): Pipe
    decreases |es|
  {
    if es == [] then p else Run(if Enabled(p, es[0]) then Step(p, es[0]) else p, es[1..])
  }

  function New(size: nat): Pipe { Pipe(size, [], Idle, Idle, false, false, 0, [], [], [], []) }

  lemma {:induction false} RunKeepsInv(p: Pipe, es: seq<Event>)
    requires Inv(p)
    ensures Inv(Run(p, es))
    decreases |es|
  {
    if es != [] {
      if Enabled(p, es[0]) {
        StepKeepsInv(p, es[0]);
      }
      RunKeepsInv(if Enabled(p, es[0]) then Step(p, es[0]) else p, es[1..]);
    }
  }

  /** Over every run: no byte is lost, doubled or out of order between what writers offer and
      what readers get, and the two never wait for each other. */
  lemma PipeIsFaithful(size: nat, es: seq<Event>)
    requires size >= 2
    ensures var p := Run(New(size), es);
            && p.got <= p.sent <= p.offered && p.offered == p.got + p.queue + p.left
            && !(p.rx.Blocked? && p.tx.Blocked?)
            && (p.rx.Blocked? ==> p.queue == []) && (p.tx.Blocked? ==> Full(p))
  {
    RunKeepsInv(New(size), es);
  }

  /** The bytes that the reads begun in a run ask for. */
  function Asked(p: Pipe, es: seq<Event>): nat
    decreases |es|
  {
    if es == [] then 0
    else (if p.rx.Idle? && es[0].StartRead? then es[0].count else 0) + Asked(if Enabled(p, es[0]) then Step(p, es[0]) else p, es[1..])
  }

  /** Reads end exactly when they have got as many bytes as they asked for: what has been got and
      what is still wanted is, over any run, all that was asked. */
  lemma {:induction false} ReadsGetWhatTheyAsk(p: Pipe, es: seq<Event>)
    requires Inv(p)
    ensures var p' := Run(p, es); |p'.got| + p'.want == |p.got| + p.want + Asked(p, es) && (p'.rx.Idle? ==> p'.want == 0)
    decreases |es|
  {
    if es != [] {
      if Enabled(p, es[0]) {
        StepKeepsInv(p, es[0]);
      }
      ReadsGetWhatTheyAsk(if Enabled(p, es[0]) then Step(p, es[0]) else p, es[1..]);
    }
  }

  /** Reader and writer take turns, whoever can run, until neither has a call to finish. */
  function Drain(p: Pipe, fuel: nat): Pipe
    decreases fuel
  {
    if fuel == 0 then p
    else if p.rx.Running? then Drain(ReaderStep(p), fuel - 1)
    else if p.tx.Running? then Drain(WriterStep(p), fuel - 1)
    else p
  }

  /** How much there is still to do. */
  function Work(p: Pipe): nat {
    4 * (p.want + |p.left|) + 2 * One(p.rx.Running?) + 2 * One(p.tx.Running?)
  }

  lemma TurnWorks(p: Pipe)
    requires Inv(p)
    ensures p.rx.Running? ==> Work(ReaderStep(p)) < Work(p)
    ensures p.tx.Running? ==> Work(WriterStep(p)) < Work(p)
  {}

  /** A read of as many bytes as a write offers: both calls end, and the reader has got them all. */
  lemma {:induction false} DrainEnds(p: Pipe, fuel: nat)
    requires Inv(p) && |p.queue| + |p.left| == p.want && fuel >= Work(p)
    ensures var p' := Drain(p, fuel); p'.rx.Idle? && p'.tx.Idle? && p'.got == p.offered
    decreases fuel
  {
    if p.rx.Running? {
      TurnWorks(p);
      StepKeepsInv(p, ReaderTurn);
      DrainEnds(ReaderStep(p), fuel - 1);
    } else if p.tx.Running? {
      TurnWorks(p);
      StepKeepsInv(p, WriterTurn);
      DrainEnds(WriterStep(p), fuel - 1);
    }
  }

  // -------------------------------------------------------------- the pipe

  /** The pipe over a ring buffer; `input` and `output` are the callers' buffers. */
  class PipeInode {
    const ring: Ring
    var rx: Phase
    var tx: Phase
    var rxwaiter: bool
    var txwaiter: bool
    var want: nat
    var left: seq<byte>
    var output: seq<byte>
    ghost var offered: seq<byte>
    ghost var sent: seq<byte>

    ghost predicate Valid()
      reads this, ring, ring.buf
    {
      ring.Valid() && Inv(Snap())
    }

    ghost function Snap(): Pipe
      requires ring.Valid()
      reads this, ring, ring.buf
    {
      Pipe(ring.buf.Length, ring.Contents(), rx, tx, rxwaiter, txwaiter, want, left, offered, sent, output)
    }

    constructor (size: nat)
      requires size >= 2
      ensures Valid() && Snap() == New(size)
    {
      ring := new Ring(size);
      rx, tx, rxwaiter, txwaiter, want, left, output := Idle, Idle, false, false, 0, [], [];
      offered, sent := [], [];
    }

    /** The loop body of `pipe_read`. */
    method ReadTurn()
      requires Valid() && rx.Running?
      modifies this, ring
      ensures Valid() && Snap() == ReaderStep(old(Snap()))
    {
      StepKeepsInv(Snap(), ReaderTurn);
      if want == 0 {
        rx := Idle;
        return;
      }
      var empty := ring.Empty();
      if empty {
        assert !rxwaiter;
        rxwaiter := true;
        rx := Blocked;
        return;
      }
      ghost var was := ring.Contents();
      var b := ring.Get();
      assert ring.Contents() == was[1..];
      output := output + [b];
      want := want - 1;
      if txwaiter {
        tx := Running;
        txwaiter := false;
      }
    }

    /** The loop body of `pipe_write`. */
    method WriteTurn()
      requires Valid() && tx.Running?
      modifies this, ring, ring.buf
      ensures Valid() && Snap() == WriterStep(old(Snap()))
    {
      StepKeepsInv(Snap(), WriterTurn);
      if left == [] {
        tx := Idle;
        return;
      }
      var full := ring.Full();
      if full {
        assert !txwaiter;
        txwaiter := true;
        tx := Blocked;
        return;
      }
      ring.Put(left[0]);
      sent := sent + [left[0]];
      left := left[1..];
      if rxwaiter {
        rx := Running;
        rxwaiter := false;
      }
    }
  }
}
