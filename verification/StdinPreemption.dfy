/** Standard input under preemption. The system call gate leaves interrupts enabled, so a whole
    keyboard interrupt may run between any two statements of `stream_read`; the keyboard gate masks
    interrupts, so its one-byte `stream_write` is one step. */
module StdinPreemption {
  import opened Words
  import opened Streams

  /** Where the reader stands: each value names the statement of `stream_read` it will run next. */
  datatype Statement =
    | Outside     // no read in progress
    | Guard       // read < len && s->count > 0
    | TestByte    // if (s->data[read] == '\n') break
    | CopyByte    // buf[read] = s->data[s->tail]
    | MoveTail    // s->tail = (s->tail + 1) % STREAM_BUF_SIZE
    | Uncount     // s->count--
    | Advance     // read++

  datatype Machine = Machine(
    ring: Ring,             // the fields as they are in memory
    at: Statement,
    read: nat,
    len: int,
    buf: seq<Byte>,         // what this read has stored so far
    delivered: seq<Byte>,   // what finished reads have returned
    accepted: seq<Byte>     // what the keyboard has put in
  )

  /** A slot test beyond the ring looks at memory this model does not have; `beyond` is its outcome. */
  datatype Event = Begin(len: int) | Step(beyond: bool) | Key(c: Byte)

  function Return(m: Machine): Machine {
    m.(at := Outside, buf := [], delivered := m.delivered + m.buf)
  }

  function Pressed(m: Machine, c: Byte): Machine
    requires |m.ring.data| == STREAM_BUF_SIZE && m.ring.head < STREAM_BUF_SIZE
  {
    var r := m.ring;
    if STREAM_BUF_SIZE - r.count < 1 then m
    else m.(ring := Ring(r.data[r.head := c], Wrap(r.head + 1), r.tail, r.count + 1), accepted := m.accepted + [c])
  }

  function Stepped(m: Machine, beyond: bool): Machine
    requires |m.ring.data| == STREAM_BUF_SIZE && m.ring.tail < STREAM_BUF_SIZE
    requires m.at.Uncount? ==> m.ring.count > 0
  {
    var r := m.ring;
    match m.at
    case Outside => m
    case Guard => if m.read < m.len && r.count > 0 then m.(at := TestByte) else Return(m)
    case TestByte =>
      if (if m.read < STREAM_BUF_SIZE then r.data[m.read] == NEWLINE else beyond) then Return(m) else m.(at := CopyByte)
    case CopyByte => m.(at := MoveTail, buf := m.buf + [r.data[r.tail]])
    case MoveTail => m.(at := Uncount, ring := r.(tail := Wrap(r.tail + 1)))
    case Uncount => m.(at := Advance, ring := r.(count := r.count - 1))
    case Advance => m.(at := Guard, read := m.read + 1)
  }

  /** The indices are those of slots, so that every event has a meaning. */
  predicate Usable(m: Machine) {
    && |m.ring.data| == STREAM_BUF_SIZE && m.ring.head < STREAM_BUF_SIZE && m.ring.tail < STREAM_BUF_SIZE
    && (m.at.Uncount? ==> m.ring.count > 0)
  }

  function Next(m: Machine, e: Event): Machine
    requires Usable(m)
  {
    match e
    case Begin(len) => if m.at.Outside? then m.(at := Guard, read := 0, len := len, buf := []) else m
    case Step(beyond) => Stepped(m, beyond)
    case Key(c) => Pressed(m, c)
  }

  // ---------------------------------------------------------------- the invariant

  /** A byte that is copied but still counted: its slot is no longer unread. */
  function Owed(m: Machine): nat {
    if m.at.MoveTail? || m.at.Uncount? then 1 else 0
  }

  /** The ring of unread bytes behind the fields, which lag while a byte is being taken. */
  function Unread(m: Machine): Ring
    requires Owed(m) <= m.ring.count && m.ring.tail < STREAM_BUF_SIZE
  {
    var tail := if m.at.MoveTail? then Wrap(m.ring.tail + 1) else m.ring.tail;
    Ring(m.ring.data, m.ring.head, tail, m.ring.count - Owed(m))
  }

  predicate Consistent(m: Machine) {
    && m.ring.tail < STREAM_BUF_SIZE
    && m.ring.count <= STREAM_BUF_SIZE
    && (m.at in {TestByte, CopyByte, MoveTail, Uncount} ==> m.ring.count > 0)
    && (m.at in {TestByte, CopyByte, MoveTail, Uncount, Advance} ==> m.read < m.len)
    && Unread(m).Valid()
    && |m.buf| == if m.at.Outside? then 0 else if m.at in {MoveTail, Uncount, Advance} then m.read + 1 else m.read
  }

  /** Bytes returned, then bytes in the caller's buffer, then unread bytes: all the keyboard put in. */
  ghost predicate Conserved(m: Machine)
    requires Consistent(m)
  {
    m.delivered + m.buf + Unread(m).Queue() == m.accepted
  }

  /** A key never lands in an unread slot, and it is queued unless the count stands at 1024. */
  lemma KeyKeeps(m: Machine, c: Byte)
    requires Consistent(m) && Conserved(m)
    ensures Consistent(Pressed(m, c)) && Conserved(Pressed(m, c))
    ensures m.ring.count < STREAM_BUF_SIZE ==> forall k | 0 <= k < Unread(m).count :: Unread(m).Slot(k) != m.ring.head
    ensures Pressed(m, c).accepted == if m.ring.count < STREAM_BUF_SIZE then m.accepted + [c] else m.accepted
  {
    if m.ring.count < STREAM_BUF_SIZE {
      var u := Unread(m);
      PushMeaning(u, c);
      assert Unread(Pressed(m, c)) == u.Push(c);
      hide Ring.Queue;
      assert m.delivered + m.buf + (u.Queue() + [c]) == m.delivered + m.buf + u.Queue() + [c];
    }
  }

  lemma StepKeeps(m: Machine, beyond: bool)
    requires Consistent(m) && Conserved(m)
    ensures Consistent(Stepped(m, beyond)) && Conserved(Stepped(m, beyond))
  {
    hide Ring.Queue;
    var n, u := Stepped(m, beyond), Unread(m);
    if m.at.CopyByte? {
      PopMeaning(u, 1);
      QueueAt(u, 0);
      PopNothing(u);
      assert Unread(n) == u.Pop(1);
      assert u.Queue() == [u.data[u.tail]] + u.Queue()[1..];
      assert m.delivered + (m.buf + [u.data[u.tail]]) + u.Queue()[1..] == m.delivered + m.buf + u.Queue();
    } else {
      assert Unread(n) == u;
      assert m.delivered + m.buf + [] == m.delivered + m.buf;
    }
  }

  // ---------------------------------------------------------------- every interleaving

  function AfterEvents(m: Machine, events: seq<Event>): (r: Machine)
    requires Consistent(m)
    ensures Consistent(r)
    decreases events
  {
    if events == [] then m
    else
      assert Consistent(Next(m, events[0])) by { NextConsistent(m, events[0]); }
      AfterEvents(Next(m, events[0]), events[1..])
  }

  lemma NextConsistent(m: Machine, e: Event)
    requires Consistent(m)
    ensures Consistent(Next(m, e))
  {
    match e
    case Begin(_) =>
    case Step(beyond) => StepConsistent(m, beyond);
    case Key(c) => KeyConsistent(m, c);
  }

  lemma StepConsistent(m: Machine, beyond: bool)
    requires Consistent(m)
    ensures Consistent(Stepped(m, beyond))
  {
    assert Unread(Stepped(m, beyond)) == if m.at.CopyByte? then Unread(m).Pop(1) else Unread(m);
  }

  lemma KeyConsistent(m: Machine, c: Byte)
    requires Consistent(m)
    ensures Consistent(Pressed(m, c))
  {
    assert m.ring.count < STREAM_BUF_SIZE ==> Unread(Pressed(m, c)) == Unread(m).Push(c);
  }

  /** Every interleaving of reads, their statements and keys conserves the input stream: what reads
      return, preempted or not, is the keys in order, and no return is taken back. */
  lemma {:induction false} EveryInterleavingConserves(m: Machine, events: seq<Event>)
    requires Consistent(m) && Conserved(m)
    ensures Conserved(AfterEvents(m, events))
    ensures m.delivered <= AfterEvents(m, events).delivered <= AfterEvents(m, events).accepted
    decreases events
  {
    hide Next, Consistent, Conserved;
    if events == [] {
      DeliveredFirst(m);
    } else {
      EventKeeps(m, events[0]);
      EveryInterleavingConserves(Next(m, events[0]), events[1..]);
    }
  }

  lemma EventKeeps(m: Machine, e: Event)
    requires Consistent(m) && Conserved(m)
    ensures Usable(m) && Consistent(Next(m, e)) && Conserved(Next(m, e))
    ensures m.delivered <= Next(m, e).delivered
  {
    match e
    case Begin(_) =>
    case Step(beyond) => StepKeeps(m, beyond);
    case Key(c) => KeyKeeps(m, c);
  }

  lemma DeliveredFirst(m: Machine)
    requires Consistent(m) && Conserved(m)
    ensures m.delivered <= m.accepted
  {
    assert m.delivered + m.buf + Unread(m).Queue() == m.delivered + (m.buf + Unread(m).Queue());
  }

  /** Before the first key and the first read, whatever bytes memory held. */
  function Initial(memory: seq<Byte>): (m: Machine)
    requires |memory| == STREAM_BUF_SIZE
    ensures Consistent(m)
  {
    Machine(Ring(memory, 0, 0, 0), Outside, 0, 0, [], [], [])
  }

  lemma InitiallyConserved(memory: seq<Byte>)
    requires |memory| == STREAM_BUF_SIZE
    ensures Conserved(Initial(memory))
  {
  }

  /** A read of at most 1024 bytes tests slots of the ring only. */
  lemma TestsStayInRing(m: Machine)
    requires Consistent(m) && m.at.TestByte? && m.len <= STREAM_BUF_SIZE
    ensures m.read < STREAM_BUF_SIZE
  {
  }

  // ---------------------------------------------------------------- without interrupts

  /** The reader left alone until it returns. */
  function Alone(m: Machine): Machine
    requires Consistent(m)
    decreases Max(0, m.len - m.read), StatementsLeft(m.at)
  {
    if m.at.Outside? then m
    else
      StepConsistent(m, false);
      Alone(Stepped(m, false))
  }

  function StatementsLeft(at: Statement): nat {
    match at
    case Outside => 0
    case Advance => 1
    case Uncount => 2
    case MoveTail => 3
    case CopyByte => 4
    case TestByte => 5
    case Guard => 6
  }

  lemma AloneStep(m: Machine)
    requires Consistent(m) && !m.at.Outside?
    ensures Consistent(Stepped(m, false)) && Alone(m) == Alone(Stepped(m, false))
  {
    StepConsistent(m, false);
  }

  lemma AloneDone(m: Machine)
    requires Consistent(m) && m.at.Outside?
    ensures Alone(m) == m
  {
  }

  /** One full turn of the loop takes one byte. */
  lemma OneTurn(m: Machine)
    requires Consistent(m) && m.at.Guard? && m.read < m.len && m.ring.count > 0
    requires m.read < STREAM_BUF_SIZE && m.ring.data[m.read] != NEWLINE
    ensures var n := m.(read := m.read + 1, buf := m.buf + [m.ring.data[m.ring.tail]], ring := m.ring.Pop(1));
            Consistent(n) && Alone(m) == Alone(n)
  {
    hide Alone;
    AloneStep(m);
    var m1 := m.(at := TestByte);
    AloneStep(m1);
    var m2 := m.(at := CopyByte);
    AloneStep(m2);
    var m3 := m2.(at := MoveTail, buf := m.buf + [m.ring.data[m.ring.tail]]);
    AloneStep(m3);
    var m4 := m3.(at := Uncount, ring := m.ring.(tail := Wrap(m.ring.tail + 1)));
    AloneStep(m4);
    var m5 := m4.(at := Advance, ring := m.ring.Pop(1));
    AloneStep(m5);
  }

  /** How many bytes a reader at its loop guard takes, if left alone. */
  function Takes(m: Machine): (n: nat)
    requires Consistent(m) && m.at.Guard? && m.read + m.ring.count <= STREAM_BUF_SIZE
    ensures n <= m.ring.count
  {
    m.ring.FirstNewline(m.read, Max(m.read, Min(m.len, m.read + m.ring.count))) - m.read
  }

  lemma TakesUnfold(m: Machine)
    requires Consistent(m) && m.at.Guard? && m.read + m.ring.count <= STREAM_BUF_SIZE
    ensures if m.read < m.len && m.ring.count > 0 && m.ring.data[m.read] != NEWLINE then
              var next := m.(read := m.read + 1, buf := m.buf + [m.ring.data[m.ring.tail]], ring := m.ring.Pop(1));
              Consistent(next) && Takes(m) == Takes(next) + 1
            else
              Takes(m) == 0
  {
    if m.read < m.len && m.ring.count > 0 && m.ring.data[m.read] != NEWLINE {
      OneTurn(m);
    }
  }

  lemma TakeOne(r: Ring, buf: seq<Byte>, n: nat)
    requires r.Valid() && n + 1 <= r.count
    ensures r.Pop(1).Valid() && r.Pop(1).Pop(n) == r.Pop(n + 1)
    ensures buf + [r.data[r.tail]] + r.Pop(1).Queue()[..n] == buf + r.Queue()[..n + 1]
  {
    hide Ring.Queue;
    PopTwice(r, 1, n);
    QueueAt(r, 0);
    PopNothing(r);
    assert r.Queue()[..n + 1] == [r.Queue()[0]] + r.Queue()[1..1 + n];
  }

  /** Left alone, the statements add up to `stream_read`: the reader takes its bytes off the ring into
      the caller's buffer and returns, and nothing else changes. */
  lemma {:induction false} AloneIsRead(m: Machine)
    requires Consistent(m) && m.at.Guard? && m.read + m.ring.count <= STREAM_BUF_SIZE
    ensures var n := Takes(m);
            Alone(m) == Return(m.(read := m.read + n, ring := m.ring.Pop(n), buf := m.buf + m.ring.Queue()[..n]))
    decreases m.len - m.read
  {
    hide Alone, Takes, Ring.Queue;
    var r := m.ring;
    TakesUnfold(m);
    if m.read < m.len && r.count > 0 && r.data[m.read] != NEWLINE {
      OneTurn(m);
      var next := m.(read := m.read + 1, buf := m.buf + [r.data[r.tail]], ring := r.Pop(1));
      AloneIsRead(next);
      TakeOne(r, m.buf, Takes(next));
    } else {
      AloneStep(m);
      if m.read < m.len && r.count > 0 {
        AloneStep(m.(at := TestByte));
      }
      AloneDone(Return(m));
      assert m.buf + r.Queue()[..0] == m.buf;
      PopNothing(r);
    }
  }

  /** So a whole uninterrupted read is the read of the ring. */
  lemma UninterruptedRead(m: Machine, len: int)
    requires Consistent(m) && m.at.Outside?
    ensures var n := m.ring.Delivers(len);
            var e := Alone(Next(m, Begin(len)));
            e.ring == m.ring.Pop(n) && e.at.Outside? && e.delivered == m.delivered + m.ring.Queue()[..n]
  {
    hide Alone, Ring.Queue;
    AloneIsRead(Next(m, Begin(len)));
    assert m.buf == [];
    assert [] + m.ring.Queue()[..m.ring.Delivers(len)] == m.ring.Queue()[..m.ring.Delivers(len)];
  }

  /** A key between reads is a one-byte `stream_write`. */
  lemma KeyIsWrite(m: Machine, c: Byte)
    requires Consistent(m) && m.at.Outside?
    ensures Pressed(m, c).ring == m.ring.PushAll([c][..m.ring.Accepts(1)])
  {
    if m.ring.count < STREAM_BUF_SIZE {
      assert [c][..1] == [c] && [c][..0] == [];
      assert m.ring.PushAll([]) == m.ring;
    }
  }
}
