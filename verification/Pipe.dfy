/**
 The pipe's ring buffer (src/syscall.rs, PipeInner).
 */
module Pipe {
  import opened Base

  const CAPACITY: nat := 4096

  /** How many bytes lie between head and tail, going round the end of the buffer. */
  function Size(head: nat, tail: nat): (n: nat)
    requires head < CAPACITY && tail < CAPACITY
    ensures n < CAPACITY && (n == 0 <==> head == tail)
  {
    if head <= tail then tail - head else CAPACITY - head + tail
  }

  /** Where byte number `i` behind `head` is. */
  function Place(head: nat, i: nat): (p: nat)
    requires head < CAPACITY && i < CAPACITY
    ensures p < CAPACITY
  {
    if head + i < CAPACITY then head + i else head + i - CAPACITY
  }

  /** The bytes between head and tail. */
  function Queued(buf: seq<Byte>, head: nat, tail: nat): (q: seq<Byte>)
    requires |buf| == CAPACITY && head < CAPACITY && tail < CAPACITY
    ensures |q| == Size(head, tail)
  {
    seq(Size(head, tail), i requires 0 <= i < Size(head, tail) => buf[Place(head, i)])
  }

  function After(i: nat): (j: nat)
    requires i < CAPACITY
    ensures j == if i + 1 < CAPACITY then i + 1 else 0
  {
    (i + 1) % CAPACITY
  }

  lemma Pushed(buf: seq<Byte>, head: nat, tail: nat, b: Byte)
    requires |buf| == CAPACITY && head < CAPACITY && tail < CAPACITY && After(tail) != head
    ensures Queued(buf[tail := b], head, After(tail)) == Queued(buf, head, tail) + [b]
  {
  }

  lemma Popped(buf: seq<Byte>, head: nat, tail: nat)
    requires |buf| == CAPACITY && head < CAPACITY && tail < CAPACITY && head != tail
    ensures Queued(buf, head, tail) == [buf[head]] + Queued(buf, After(head), tail)
  {
  }

  /** The buffer is full when one place is left. */
  lemma Filling(head: nat, tail: nat)
    requires head < CAPACITY && tail < CAPACITY
    ensures After(tail) == head <==> Size(head, tail) == CAPACITY - 1
  {
  }

  /** What a write takes: all of the data, up to the free space. */
  function Accepts(queue: seq<Byte>, data: seq<Byte>, readClosed: bool): (n: nat)
    requires |queue| <= CAPACITY - 1
    ensures n <= |data|
  {
    if readClosed then 0 else Min(|data|, CAPACITY - 1 - |queue|)
  }

  class PipeInner {
    const buf: array<Byte>
    var head: nat
    var tail: nat
    var writeClosed: bool
    var readClosed: bool
    /** Everything accepted and everything read so far. */
    ghost var accepted: seq<Byte>
    ghost var delivered: seq<Byte>

    ghost predicate Valid()
      reads this, buf
    {
      && buf.Length == CAPACITY && head < CAPACITY && tail < CAPACITY
      && accepted == delivered + Queue()
    }

    ghost function Queue(): (q: seq<Byte>)
      requires buf.Length == CAPACITY && head < CAPACITY && tail < CAPACITY
      reads this, buf
      ensures |q| <= CAPACITY - 1
    {
      Queued(buf[..], head, tail)
    }

    constructor ()
      ensures Valid() && fresh(buf) && Queue() == [] && accepted == [] && !readClosed
    {
      buf := new Byte[CAPACITY](_ => 0);
      head, tail, writeClosed, readClosed := 0, 0, false, false;
      accepted, delivered := [], [];
    }

    /** One round of the loop of `write`. */
    method Push(b: Byte)
      requires Valid() && After(tail) != head
      modifies this`tail, this`accepted, buf
      ensures Valid() && Queue() == old(Queue()) + [b] && accepted == old(accepted) + [b]
    {
      ghost var before := buf[..];
      Pushed(before, head, tail, b);
      hide Queued;
      buf[tail] := b;
      assert buf[..] == before[tail := b];
      tail := After(tail);
      accepted := accepted + [b];
    }

    /** One round of the loop of `read`. */
    method Pop() returns (b: Byte)
      requires Valid() && head != tail
      modifies this`head, this`delivered
      ensures Valid() && old(Queue()) == [b] + Queue() && delivered == old(delivered) + [b]
    {
      Popped(buf[..], head, tail);
      hide Queued;
      b := buf[head];
      head := After(head);
      delivered := delivered + [b];
    }

    /** Puts the data behind what is queued, as far as it fits. */
    method Write(data: seq<Byte>) returns (written: nat)
      requires Valid()
      modifies this`tail, this`accepted, buf
      ensures Valid() && written == Accepts(old(Queue()), data, readClosed)
      ensures Queue() == old(Queue()) + data[..written] && accepted == old(accepted) + data[..written]
    {
      hide Queued;
      written := 0;
      if readClosed {
        return;
      }
      ghost var q := Queue();
      while written < |data| && After(tail) != head
        invariant Valid() && written <= |data|
        invariant Queue() == q + data[..written] && accepted == old(accepted) + data[..written]
      {
        Push(data[written]);
        assert data[..written + 1] == data[..written] + [data[written]];
        written := written + 1;
      }
      Filling(head, tail);
    }

    /** Takes from the front of the queue, as much as fits into `out`. */
    method Read(out: array<Byte>) returns (n: nat)
      requires Valid() && out != buf
      modifies this`head, this`delivered, out
      ensures Valid() && n == Min(out.Length, |old(Queue())|)
      ensures out[..n] == old(Queue())[..n] && forall i | n <= i < out.Length :: out[i] == old(out[i])
      ensures Queue() == old(Queue())[n..] && delivered == old(delivered) + old(Queue())[..n]
    {
      hide Queued, Size;
      n := 0;
      ghost var q := Queue();
      while n < out.Length && head != tail
        invariant Valid() && n <= out.Length && n <= |q|
        invariant forall i | 0 <= i < n :: out[i] == q[i]
        invariant forall i | n <= i < out.Length :: out[i] == old(out[i])
        invariant Queue() == q[n..] && delivered == old(delivered) + q[..n]
      {
        var b := Pop();
        assert q[n..] == [b] + Queue();
        assert q[..n + 1] == q[..n] + [b];
        out[n] := b;
        n := n + 1;
      }
      assert out[..n] == q[..n];
    }
  }

  // ---- Any interleaving of writes and reads ----

  datatype Op = Put(data: seq<Byte>) | Take(len: nat)

  /** The state of an open pipe after some writes and reads: what was accepted, read and is queued. */
  datatype Traffic = Traffic(accepted: seq<Byte>, delivered: seq<Byte>, queue: seq<Byte>)

  function Step(t: Traffic, op: Op): Traffic
    requires |t.queue| <= CAPACITY - 1
  {
    match op
    case Put(data) =>
      var n := Accepts(t.queue, data, false);
      t.(accepted := t.accepted + data[..n], queue := t.queue + data[..n])
    case Take(len) =>
      var n := Min(len, |t.queue|);
      t.(delivered := t.delivered + t.queue[..n], queue := t.queue[n..])
  }

  function Run(t: Traffic, ops: seq<Op>): (r: Traffic)
    requires |t.queue| <= CAPACITY - 1
    ensures |r.queue| <= CAPACITY - 1
    decreases |ops|
  {
    if ops == [] then t else Run(Step(t, ops[0]), ops[1..])
  }

  /** First in, first out: what was read, followed by what is queued, is what was accepted. */
  lemma {:induction false} Fifo(t: Traffic, ops: seq<Op>)
    requires |t.queue| <= CAPACITY - 1 && t.accepted == t.delivered + t.queue
    ensures Run(t, ops).accepted == Run(t, ops).delivered + Run(t, ops).queue
    decreases |ops|
  {
    if ops != [] {
      var t' := Step(t, ops[0]);
      assert t'.accepted == t'.delivered + t'.queue;
      Fifo(t', ops[1..]);
    }
  }

  /** The buffer goes through the same traffic. */
  method RunPipe(p: PipeInner, ops: seq<Op>)
    requires p.Valid() && !p.readClosed
    modifies p, p.buf
    ensures p.Valid() && !p.readClosed
    ensures Traffic(p.accepted, p.delivered, p.Queue()) == Run(old(Traffic(p.accepted, p.delivered, p.Queue())), ops)
  {
    hide Queued;
    var i := 0;
    assert ops[0..] == ops;
    while i < |ops|
      invariant i <= |ops| && p.Valid() && !p.readClosed
      invariant Run(Traffic(p.accepted, p.delivered, p.Queue()), ops[i..]) ==
                  Run(old(Traffic(p.accepted, p.delivered, p.Queue())), ops)
    {
      ghost var t := Traffic(p.accepted, p.delivered, p.Queue());
      match ops[i] {
        case Put(data) =>
          var _ := p.Write(data);
        case Take(len) =>
          var out := new Byte[len](_ => 0);
          var _ := p.Read(out);
      }
      assert Step(t, ops[i]) == Traffic(p.accepted, p.delivered, p.Queue());
      assert ops[i..][1..] == ops[i + 1..];
      i := i + 1;
    }
  }
}
