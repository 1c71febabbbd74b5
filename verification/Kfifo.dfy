/** The ring buffer of `kfifo.c`: one slot is always left unused, so that a full ring can be
    told from an empty one. */
module Kfifo {
  import opened Basics

  /** `kfifo_next`. */
  function Next(size: nat, pos: nat): (p: nat)
    requires pos < size
    ensures p == if pos + 1 == size then 0 else pos + 1
  {
    (pos + 1) % size
  }

  function Count(size: nat, head: nat, tail: nat): (c: nat)
    requires head < size && tail < size
    ensures c < size && (c == 0 <==> head == tail)
  {
    if tail <= head then head - tail else head + size - tail
  }

  function At(size: nat, tail: nat, i: nat): (p: nat)
    requires tail < size && i < size
    ensures p < size
  {
    if tail + i < size then tail + i else tail + i - size
  }

  /** The bytes in the ring, oldest first. */
  function Bytes(buf: seq<byte>, head: nat, tail: nat): (s: seq<byte>)
    requires head < |buf| && tail < |buf|
    ensures |s| == Count(|buf|, head, tail)
  {
    seq(Count(|buf|, head, tail), (i: nat) requires i < Count(|buf|, head, tail) => buf[At(|buf|, tail, i)])
  }

  lemma GetBytes(buf: seq<byte>, head: nat, tail: nat)
    requires head < |buf| && tail < |buf| && head != tail
    ensures Bytes(buf, head, Next(|buf|, tail)) == Bytes(buf, head, tail)[1..] && Bytes(buf, head, tail)[0] == buf[tail]
  {}

  lemma PutBytes(buf: seq<byte>, head: nat, tail: nat, b: byte)
    requires head < |buf| && tail < |buf| && Next(|buf|, head) != tail
    ensures Bytes(buf[head := b], Next(|buf|, head), tail) == Bytes(buf, head, tail) + [b]
  {}

  /** Full means one byte less than the buffer is long. */
  lemma FullIff(size: nat, head: nat, tail: nat)
    requires head < size && tail < size
    ensures Next(size, head) == tail <==> Count(size, head, tail) == size - 1
  {}

  class Ring {
    const buf: array<byte>
    var head: nat
    var tail: nat

    ghost predicate Valid()
      reads this
    {
      head < buf.Length && tail < buf.Length && buf.Length >= 2
    }

    ghost function Contents(): (s: seq<byte>)
      requires Valid()
      reads this, buf
      ensures |s| < buf.Length
    {
      Bytes(buf[..], head, tail)
    }

    constructor (size: nat)
      requires size >= 2
      ensures Valid() && Contents() == [] && buf.Length == size && fresh(buf)
    {
      buf := new byte[size];
      head, tail := 0, 0;
    }

    method Full() returns (full: bool)
      requires Valid()
      ensures full <==> |Contents()| == buf.Length - 1
    {
      FullIff(buf.Length, head, tail);
      full := Next(buf.Length, head) == tail;
    }

    method Empty() returns (empty: bool)
      requires Valid()
      ensures empty <==> Contents() == []
    {
      empty := head == tail;
    }

    /** `kfifo_get`: the oldest byte; zero, and no change, where there is none. */
    method Get() returns (b: byte)
      requires Valid()
      modifies this`tail
      ensures Valid()
      ensures old(Contents()) == [] ==> b == 0 && Contents() == []
      ensures old(Contents()) != [] ==> [b] + Contents() == old(Contents())
    {
      if head == tail {
        return 0;
      }
      GetBytes(buf[..], head, tail);
      b := buf[tail];
      tail := Next(buf.Length, tail);
    }

    /** `kfifo_put`: a full ring loses its oldest byte first. */
    method Put(b: byte)
      requires Valid()
      modifies this, buf
      ensures Valid()
      ensures Contents() == (if |old(Contents())| == buf.Length - 1 then old(Contents())[1..] else old(Contents())) + [b]
    {
      ghost var was := Contents();
      var full := Full();
      while full
        invariant Valid() && head == old(head) && buf[..] == old(buf[..])
        invariant Contents() == was || (|was| == buf.Length - 1 && Contents() == was[1..])
        invariant full <==> |Contents()| == buf.Length - 1
        decreases |Contents()|
      {
        var lost := Get();
        full := Full();
      }
      FullIff(buf.Length, head, tail);
      PutBytes(buf[..], head, tail, b);
      buf[head] := b;
      head := Next(buf.Length, head);
    }
  }
}
