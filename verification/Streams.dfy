/** The 1024-byte ring of source/system/shell/stream.c. */
module Streams {
  import opened Words

  const STREAM_BUF_SIZE: nat := 1024
  const NEWLINE: Byte := 10

  /** `i % STREAM_BUF_SIZE`, for the indices the ring computes with. */
  function Wrap(i: nat): nat
    requires i < 2 * STREAM_BUF_SIZE
  {
    if i < STREAM_BUF_SIZE then i else i - STREAM_BUF_SIZE
  }

  lemma WrapIsModulo(i: nat)
    requires i < 2 * STREAM_BUF_SIZE
    ensures Wrap(i) == i % STREAM_BUF_SIZE
  {
  }

  /** The fields of a stream as one value. */
  datatype Ring = Ring(data: seq<Byte>, head: nat, tail: nat, count: nat) {
    predicate Valid() {
      && |data| == STREAM_BUF_SIZE
      && tail < STREAM_BUF_SIZE
      && count <= STREAM_BUF_SIZE
      && head == Wrap(tail + count)
    }

    /** The slot that holds the `k`-th unread byte. */
    function Slot(k: nat): nat
      requires tail < STREAM_BUF_SIZE && k <= STREAM_BUF_SIZE
    {
      Wrap(tail + k)
    }

    /** The unread bytes, oldest first. */
    function Queue(): (q: seq<Byte>)
      requires Valid()
      ensures |q| == count
    {
      seq(count, k requires 0 <= k < count => data[Slot(k)])
    }

    function Push(c: Byte): Ring
      requires Valid() && count < STREAM_BUF_SIZE
    {
      Ring(data[head := c], Wrap(head + 1), tail, count + 1)
    }

    function PushAll(bytes: seq<Byte>): (r: Ring)
      requires Valid() && count + |bytes| <= STREAM_BUF_SIZE
      ensures r.Valid() && r.tail == tail && r.count == count + |bytes|
      decreases bytes
    {
      if bytes == [] then this else PushAll(bytes[..|bytes| - 1]).Push(bytes[|bytes| - 1])
    }

    function Pop(n: nat): Ring
      requires Valid() && n <= count
    {
      Ring(data, head, Wrap(tail + n), count - n)
    }

    /** How many bytes a write of `len` accepts. */
    function Accepts(len: int): nat
      requires Valid()
    {
      Max(0, Min(len, STREAM_BUF_SIZE - count))
    }

    /** How many bytes a read of `len` delivers: it stops at the first newline in slot order,
        counting slots from 0 and not from `tail`. */
    function Delivers(len: int): (n: nat)
      requires Valid()
      ensures n <= count && n <= Max(0, len)
      ensures forall k | 0 <= k < n :: data[k] != NEWLINE
      ensures n == count || n == Max(0, len) || data[n] == NEWLINE
    {
      FirstNewline(0, Max(0, Min(len, count)))
    }

    function FirstNewline(from: nat, limit: nat): (n: nat)
      requires |data| == STREAM_BUF_SIZE && from <= limit <= STREAM_BUF_SIZE
      ensures from <= n <= limit
      ensures forall k | from <= k < n :: data[k] != NEWLINE
      ensures n < limit ==> data[n] == NEWLINE
      decreases limit - from
    {
      if from == limit || data[from] == NEWLINE then from else FirstNewline(from + 1, limit)
    }
  }

  // ---------------------------------------------------------------- what the operations mean

  lemma PushMeaning(r: Ring, c: Byte)
    requires r.Valid() && r.count < STREAM_BUF_SIZE
    ensures r.Push(c).Queue() == r.Queue() + [c]
  {
    assert r.head == r.Slot(r.count);
    assert forall k | 0 <= k < r.count :: r.Slot(k) != r.head;
    assert forall k | 0 <= k <= r.count :: r.Push(c).Slot(k) == r.Slot(k);
  }

  /** Accepted bytes join the queue at its end. */
  lemma {:induction false} PushAllMeaning(r: Ring, bytes: seq<Byte>)
    requires r.Valid() && r.count + |bytes| <= STREAM_BUF_SIZE
    ensures r.PushAll(bytes).Queue() == r.Queue() + bytes
    decreases bytes
  {
    if bytes != [] {
      var n := |bytes| - 1;
      PushAllMeaning(r, bytes[..n]);
      PushMeaning(r.PushAll(bytes[..n]), bytes[n]);
      assert bytes == bytes[..n] + [bytes[n]];
    }
  }

  /** How far slot `s` lies ahead of slot `from`, going round the ring. */
  function Ahead(from: nat, s: nat): nat
    requires from < STREAM_BUF_SIZE && s < STREAM_BUF_SIZE
  {
    if from <= s then s - from else s + STREAM_BUF_SIZE - from
  }

  /** The slots from `head` on hold the accepted bytes and every other slot keeps its byte. */
  lemma {:induction false} PushAllSlots(r: Ring, bytes: seq<Byte>)
    requires r.Valid() && r.count + |bytes| <= STREAM_BUF_SIZE
    ensures forall s: nat | s < STREAM_BUF_SIZE :: r.PushAll(bytes).data[s] ==
              if Ahead(r.head, s) < |bytes| then bytes[Ahead(r.head, s)] else r.data[s]
    decreases bytes
  {
    if bytes != [] {
      var n := |bytes| - 1;
      PushAllSlots(r, bytes[..n]);
      var p := r.PushAll(bytes[..n]);
      HeadMoves(r.tail, r.count, n);
      assert forall s: nat | s < STREAM_BUF_SIZE :: Ahead(r.head, s) == n <==> s == p.head;
      assert r.PushAll(bytes).data == p.data[p.head := bytes[n]];
    }
  }

  lemma HeadMoves(tail: nat, count: nat, n: nat)
    requires tail < STREAM_BUF_SIZE && count + n <= STREAM_BUF_SIZE
    ensures var head := Wrap(tail + count);
            Wrap(tail + (count + n)) == if head + n < STREAM_BUF_SIZE then head + n else head + n - STREAM_BUF_SIZE
  {
  }

  lemma QueueAt(r: Ring, k: nat)
    requires r.Valid() && k < r.count
    ensures r.Queue()[k] == r.data[r.Pop(k).tail]
  {
  }

  lemma PopMeaning(r: Ring, n: nat)
    requires r.Valid() && n <= r.count
    ensures r.Pop(n).Valid() && r.Pop(n).count == r.count - n && r.Pop(n).data == r.data
    ensures r.Pop(n).Queue() == r.Queue()[n..]
  {
  }

  lemma PopTwice(r: Ring, m: nat, n: nat)
    requires r.Valid() && m + n <= r.count
    ensures r.Pop(m).Valid() && r.Pop(m).Pop(n) == r.Pop(m + n)
    ensures r.Pop(m).Queue()[..n] == r.Queue()[m..m + n]
  {
    PopMeaning(r, m);
  }

  lemma PopNothing(r: Ring)
    requires r.Valid()
    ensures r.Pop(0) == r
  {
  }

  // ---------------------------------------------------------------- FIFO over whole histories

  datatype Call = Write(buf: seq<Byte>, len: int) | Read(len: int)

  predicate Legal(c: Call) {
    c.Write? ==> c.len <= |c.buf|
  }

  /** The bytes a call moves into the ring. */
  function Incoming(r: Ring, c: Call): seq<Byte>
    requires r.Valid() && Legal(c)
  {
    if c.Write? then c.buf[..r.Accepts(c.len)] else []
  }

  /** The bytes a call moves out of the ring. */
  function Outgoing(r: Ring, c: Call): seq<Byte>
    requires r.Valid()
  {
    if c.Read? then r.Queue()[..r.Delivers(c.len)] else []
  }

  function After(r: Ring, c: Call): Ring
    requires r.Valid() && Legal(c)
  {
    match c
    case Write(buf, len) => r.PushAll(buf[..r.Accepts(len)])
    case Read(len) => r.Pop(r.Delivers(len))
  }

  datatype History = History(ring: Ring, accepted: seq<Byte>, delivered: seq<Byte>)

  function Run(h: History, calls: seq<Call>): History
    requires h.ring.Valid() && forall c | c in calls :: Legal(c)
    decreases calls
  {
    if calls == [] then h
    else
      var c := calls[0];
      assert After(h.ring, c).Valid() by { if c.Read? { PopMeaning(h.ring, h.ring.Delivers(c.len)); } }
      Run(History(After(h.ring, c), h.accepted + Incoming(h.ring, c), h.delivered + Outgoing(h.ring, c)), calls[1..])
  }

  lemma FifoStep(r: Ring, c: Call)
    requires r.Valid() && Legal(c)
    ensures After(r, c).Valid()
    ensures Outgoing(r, c) + After(r, c).Queue() == r.Queue() + Incoming(r, c)
  {
    match c {
      case Write(buf, len) =>
        PushAllMeaning(r, buf[..r.Accepts(len)]);
      case Read(len) =>
        PopMeaning(r, r.Delivers(len));
        assert r.Queue() + [] == r.Queue();
    }
  }

  /** First in, first out: over every history of reads and writes, the bytes delivered followed by
      the bytes queued are the bytes accepted, in order, and the ring stays consistent. */
  lemma {:induction false} FifoConservation(h: History, calls: seq<Call>)
    requires h.ring.Valid() && forall c | c in calls :: Legal(c)
    requires h.delivered + h.ring.Queue() == h.accepted
    ensures var e := Run(h, calls); e.ring.Valid() && e.delivered + e.ring.Queue() == e.accepted
    decreases calls
  {
    if calls != [] {
      var c, r := calls[0], h.ring;
      assert Legal(c);
      FifoStep(r, c);
      hide After, Incoming, Outgoing, Ring.Queue;
      var h' := History(After(r, c), h.accepted + Incoming(r, c), h.delivered + Outgoing(r, c));
      assert h'.delivered + h'.ring.Queue() == h.delivered + (r.Queue() + Incoming(r, c));
      FifoConservation(h', calls[1..]);
    }
  }

  // ---------------------------------------------------------------- the stream object

  class Stream {
    const data: array<Byte>
    var head: nat
    var tail: nat
    var count: nat

    function View(): Ring
      reads this, data
    {
      Ring(data[..], head, tail, count)
    }

    ghost predicate Valid()
      reads this, data
    {
      View().Valid()
    }

    /** The bytes of a new stream are whatever memory held. */
    constructor (memory: seq<Byte>)
      requires |memory| == STREAM_BUF_SIZE
      ensures Valid() && fresh(data)
      ensures View() == Ring(memory, 0, 0, 0)
    {
      data := new Byte[STREAM_BUF_SIZE](i requires 0 <= i < STREAM_BUF_SIZE => memory[i]);
      head, tail, count := 0, 0, 0;
      new;
      assert data[..] == memory;
    }

    method Write(buf: seq<Byte>, len: int) returns (written: nat)
      requires Valid() && len <= |buf|
      modifies this, data
      ensures written == old(View()).Accepts(len)
      ensures written == if len <= 0 then 0 else if len <= 1024 - old(count) then len else 1024 - old(count)
      ensures View() == old(View()).PushAll(buf[..written])
    {
      var limit := len;
      if limit > STREAM_BUF_SIZE - count {
        limit := STREAM_BUF_SIZE - count;
      }
      written := 0;
      while written < limit
        invariant 0 <= written <= Max(0, limit)
        invariant View() == old(View()).PushAll(buf[..written])
        invariant count == old(count) + written
      {
        ghost var before := View();
        data[head] := buf[written];
        WrapIsModulo(head + 1);
        head := (head + 1) % STREAM_BUF_SIZE;
        count := count + 1;
        assert View() == before.Push(buf[written]);
        assert buf[..written + 1][..written] == buf[..written];
        written := written + 1;
      }
    }

    method Read(buf: array<Byte>, len: int) returns (read: nat)
      requires Valid() && len <= buf.Length && buf != data
      modifies this, buf
      ensures read == old(View()).Delivers(len)
      ensures View() == old(View()).Pop(read)
      ensures buf[..] == old(View()).Queue()[..read] + old(buf[read..])
    {
      hide Ring.Delivers, Ring.Queue;
      ghost var was := View();
      read := 0;
      while read < len && count > 0
        invariant 0 <= read <= old(count) && read <= Max(0, len)
        invariant View() == was.Pop(read)
        invariant forall k | 0 <= k < read :: data[k] != NEWLINE
        invariant forall k | 0 <= k < read :: buf[k] == was.Queue()[k]
        invariant forall k | read <= k < buf.Length :: buf[k] == old(buf[k])
      {
        if data[read] == NEWLINE {
          break;
        }
        QueueAt(was, read);
        buf[read] := data[tail];
        WrapIsModulo(tail + 1);
        tail := (tail + 1) % STREAM_BUF_SIZE;
        count := count - 1;
        read := read + 1;
      }
    }
  }
}
