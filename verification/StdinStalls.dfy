/** When standard input delivers nothing. `stream_read` tests slot 0 for a newline before it takes its
    first byte, whether or not the byte in slot 0 is still unread. */
module StdinStalls {
  import opened Words
  import opened Streams
  import opened StdinPreemption

  // ---------------------------------------------------------------- stalls

  /** Slot 0 holds a newline, read or unread, and no read is past its first test of a slot. */
  predicate Stalled(m: Machine) {
    && Consistent(m) && m.at in {Outside, Guard, TestByte}
    && m.ring.data[0] == NEWLINE
    && (m.at.Outside? || m.read == 0)
  }

  /** A read left alone, of a stream that is not empty, delivers nothing exactly when slot 0 holds a
      newline, read or unread. */
  lemma EmptyHandedRead(m: Machine, len: int)
    requires Consistent(m) && m.at.Outside? && len > 0 && m.ring.count > 0
    ensures Alone(Next(m, Begin(len))).delivered == m.delivered <==> m.ring.data[0] == NEWLINE
  {
    hide Alone, Ring.Queue;
    UninterruptedRead(m, len);
    assert (m.delivered == m.delivered + m.ring.Queue()[..m.ring.Delivers(len)]) <==> m.ring.Delivers(len) == 0;
  }

  function Keys(events: seq<Event>): nat {
    if events == [] then 0 else (if events[0].Key? then 1 else 0) + Keys(events[1..])
  }

  lemma {:induction false} KeysCount(a: seq<Event>, b: seq<Event>, c: Byte, len: int, beyond: bool)
    ensures Keys(a + b) == Keys(a) + Keys(b)
    ensures Keys([Key(c)]) == 1 && Keys([Begin(len)]) == Keys([Step(beyond)]) == 0
    decreases a
  {
    if a == [] {
      assert a + b == b;
    } else {
      KeysCount(a[1..], b, c, len, beyond);
      assert (a + b)[1..] == a[1..] + b;
    }
  }

  /** A stall lasts, whatever reads begin and end, until the keys have come round to slot 0. */
  lemma {:induction false} StallLasts(m: Machine, events: seq<Event>)
    requires Stalled(m) && Keys(events) <= Ahead(m.ring.head, 0)
    ensures Stalled(AfterEvents(m, events)) && AfterEvents(m, events).delivered == m.delivered
    decreases events
  {
    if events != [] {
      NextConsistent(m, events[0]);
      StallLasts(Next(m, events[0]), events[1..]);
    }
  }

  // ---------------------------------------------------------------- the wedge

  /** The newline in slot 0 is unread, so no key can come round to it. */
  predicate Wedged(m: Machine) {
    Stalled(m) && Ahead(m.ring.tail, 0) < m.ring.count
  }

  /** A wedge is for good: over every interleaving of keys and reads no byte is delivered again. */
  lemma {:induction false} NewlineWedges(m: Machine, events: seq<Event>)
    requires Wedged(m)
    ensures Wedged(AfterEvents(m, events)) && AfterEvents(m, events).delivered == m.delivered
    decreases events
  {
    if events != [] {
      NextConsistent(m, events[0]);
      assert Wedged(Next(m, events[0])) && Next(m, events[0]).delivered == m.delivered;
      NewlineWedges(Next(m, events[0]), events[1..]);
    }
  }

  function Typing(text: seq<Byte>): seq<Event> {
    seq(|text|, i requires 0 <= i < |text| => Key(text[i]))
  }

  /** Any other stall is over once the keys have come round, unless the key that lands in slot 0 is a
      newline again. */
  lemma {:induction false} StallEnds(m: Machine, text: seq<Byte>, len: int)
    requires Stalled(m) && m.at.Outside? && !Wedged(m)
    requires |text| == Ahead(m.ring.head, 0) + 1 && len > 0
    ensures var n := AfterEvents(m, Typing(text));
            && n.at.Outside? && n.ring.data[0] == text[|text| - 1]
            && (Alone(Next(n, Begin(len))).delivered == n.delivered <==> text[|text| - 1] == NEWLINE)
    decreases text
  {
    hide Alone;
    var key := Key(text[0]);
    var n := Next(m, key);
    NextConsistent(m, key);
    assert Typing(text)[1..] == Typing(text[1..]);
    if |text| == 1 {
      assert AfterEvents(n, []) == n;
      EmptyHandedRead(n, len);
    } else {
      StallEnds(n, text[1..], len);
    }
  }

  // ---------------------------------------------------------------- nothing else is for good

  lemma {:induction false} RunConcat(m: Machine, a: seq<Event>, b: seq<Event>)
    requires Consistent(m)
    ensures AfterEvents(m, a + b) == AfterEvents(AfterEvents(m, a), b)
    decreases a
  {
    hide Next;
    if a == [] {
      assert a + b == b;
    } else {
      assert Consistent(Next(m, a[0])) by { NextConsistent(m, a[0]); }
      RunConcat(Next(m, a[0]), a[1..], b);
      assert (a + b)[1..] == a[1..] + b;
    }
  }

  /** A reader left alone is a run of statements without keys. */
  lemma {:induction false} AloneIsRun(m: Machine) returns (events: seq<Event>)
    requires Consistent(m)
    ensures AfterEvents(m, events) == Alone(m)
    decreases Max(0, m.len - m.read), StatementsLeft(m.at)
  {
    if m.at.Outside? {
      events := [];
    } else {
      AloneStep(m);
      var rest := AloneIsRun(Stepped(m, false));
      events := [Step(false)] + rest;
      assert events[1..] == rest;
    }
  }

  /** It returns, with what is in its buffer and perhaps more; with nothing at all only if it had taken
      nothing, and then it takes nothing. */
  lemma {:induction false} AloneReturns(m: Machine)
    requires Consistent(m)
    ensures Consistent(Alone(m)) && Alone(m).at.Outside?
    ensures |Alone(m).delivered| >= |m.delivered| + |m.buf|
    ensures |Alone(m).delivered| == |m.delivered| ==> Alone(m).ring == m.ring && m.at in {Outside, Guard, TestByte}
    decreases Max(0, m.len - m.read), StatementsLeft(m.at)
  {
    if !m.at.Outside? {
      AloneStep(m);
      AloneReturns(Stepped(m, false));
    }
  }

  /** A reader at rest that is not wedged: keys until slot 0 holds another byte, then a read. */
  lemma {:induction false} AliveAtRest(m: Machine) returns (events: seq<Event>)
    requires Consistent(m) && m.at.Outside? && !Wedged(m)
    ensures |AfterEvents(m, events).delivered| > |m.delivered|
    decreases if m.ring.data[0] == NEWLINE then 1 + Ahead(m.ring.head, 0) else 0, STREAM_BUF_SIZE - m.ring.count
  {
    if m.ring.data[0] == NEWLINE || m.ring.count == 0 {
      var key := Key(65);
      NextConsistent(m, key);
      var rest := AliveAtRest(Next(m, key));
      events := [key] + rest;
      assert events[1..] == rest;
    } else {
      var begin := Begin(1);
      NextConsistent(m, begin);
      UninterruptedRead(m, 1);
      var rest := AloneIsRun(Next(m, begin));
      events := [begin] + rest;
      assert events[1..] == rest;
    }
  }

  lemma Alive(m: Machine) returns (events: seq<Event>)
    requires Consistent(m) && !Wedged(m)
    ensures |AfterEvents(m, events).delivered| > |m.delivered|
  {
    hide AfterEvents, Alone;
    AloneReturns(m);
    events := AloneIsRun(m);
    if |Alone(m).delivered| == |m.delivered| {
      var more := AliveAtRest(Alone(m));
      RunConcat(m, events, more);
      events := events + more;
    }
  }

  /** Standard input is dead, whatever keys and reads follow, exactly when it is wedged. */
  lemma DeadIffWedged(m: Machine)
    requires Consistent(m)
    ensures (forall events :: AfterEvents(m, events).delivered == m.delivered) <==> Wedged(m)
  {
    if Wedged(m) {
      forall events ensures AfterEvents(m, events).delivered == m.delivered {
        NewlineWedges(m, events);
      }
    } else {
      var events := Alive(m);
      assert AfterEvents(m, events).delivered != m.delivered;
    }
  }

  // ---------------------------------------------------------------- inputs that show it

  /** A newline as the very first key wedges standard input. */
  lemma FirstKeyWedges(memory: seq<Byte>)
    requires |memory| == STREAM_BUF_SIZE
    ensures Wedged(Pressed(Initial(memory), '\n' as int))
  {
  }

  /** After 1024 keys, none of them a newline, and reads of all but two of them. */
  ghost function RingComesRound(c: Byte): (m: Machine)
    requires c != NEWLINE
    ensures Consistent(m) && Conserved(m) && |m.accepted| == 1024
  {
    Machine(Ring(seq(1024, _ => c), 0, 1022, 2), Outside, 0, 0, [], seq(1022, _ => c), seq(1024, _ => c))
  }

  /** So many statements of a reader. */
  function Statements(n: nat): seq<Event> {
    seq(n, _ => Step(false))
  }

  lemma OneMore(m: Machine, n: nat)
    requires Consistent(m)
    ensures AfterEvents(m, Statements(n + 1)) == Stepped(AfterEvents(m, Statements(n)), false)
  {
    RunConcat(m, Statements(n), [Step(false)]);
    OneEvent(AfterEvents(m, Statements(n)), Step(false));
    assert Statements(n + 1) == Statements(n) + [Step(false)];
  }

  /** The states of one full turn of the loop. */
  function Turn(m: Machine, k: nat): Machine
    requires Consistent(m) && m.at.Guard? && m.ring.count > 0
  {
    var copied := m.(buf := m.buf + [m.ring.data[m.ring.tail]]);
    if k == 0 then m
    else if k == 1 then m.(at := TestByte)
    else if k == 2 then m.(at := CopyByte)
    else if k == 3 then copied.(at := MoveTail)
    else if k == 4 then copied.(at := Uncount, ring := m.ring.(tail := Wrap(m.ring.tail + 1)))
    else if k == 5 then copied.(at := Advance, ring := m.ring.Pop(1))
    else copied.(read := m.read + 1, ring := m.ring.Pop(1))
  }

  lemma TurnStep(m: Machine, k: nat)
    requires Consistent(m) && m.at.Guard? && m.read < m.len && m.ring.count > 0
    requires m.read < STREAM_BUF_SIZE && m.ring.data[m.read] != NEWLINE && k < 6
    ensures Usable(Turn(m, k)) && Stepped(Turn(m, k), false) == Turn(m, k + 1)
  {
  }

  lemma {:induction false} TurnRun(m: Machine, k: nat)
    requires Consistent(m) && m.at.Guard? && m.read < m.len && m.ring.count > 0
    requires m.read < STREAM_BUF_SIZE && m.ring.data[m.read] != NEWLINE && k <= 6
    ensures AfterEvents(m, Statements(k)) == Turn(m, k)
  {
    hide AfterEvents, Consistent, Statements, Turn, Stepped;
    if k == 0 {
      RunNothing(m);
    } else {
      TurnRun(m, k - 1);
      TurnStep(m, k - 1);
      OneMore(m, k - 1);
    }
  }

  lemma OneEvent(m: Machine, e: Event)
    requires Consistent(m)
    ensures Consistent(Next(m, e)) && AfterEvents(m, [e]) == Next(m, e)
  {
    NextConsistent(m, e);
    assert [e][1..] == [];
  }

  lemma RunNothing(m: Machine)
    requires Consistent(m) && m.at.Guard? && m.ring.count > 0
    ensures AfterEvents(m, Statements(0)) == m == Turn(m, 0)
  {
  }

  /** But a newline that lands in slot 0 while a read is past its first test is delivered by that read.
      It stays in slot 0 all the same, so the next reads come back empty-handed. */
  lemma NewlineTakenInTime(c: Byte, d: Byte) returns (events: seq<Event>)
    requires c != NEWLINE
    ensures |events| >= 8 && events[..8] == [Begin(3)] + Statements(6) + [Key(NEWLINE)]
    ensures var m := AfterEvents(RingComesRound(c), events);
            && m.delivered == RingComesRound(c).delivered + [c, c, NEWLINE]
            && Stalled(m) && m.at.Outside? && m.ring.count == 0 && !Wedged(m)
            && Alone(Next(Pressed(m, d), Begin(1))).delivered == m.delivered
  {
    hide AfterEvents, Alone, Ring.Queue;
    var m0 := RingComesRound(c);
    var m1 := m0.(at := Guard, read := 0, len := 3);
    var m2 := m1.(read := 1, buf := [c], ring := m0.ring.Pop(1));
    var m3 := m2.(ring := m2.ring.Push(NEWLINE), accepted := m0.accepted + [NEWLINE]);
    var begin, turn: seq<Event>, key := [Begin(3)], Statements(6), [Key(NEWLINE)];
    OneEvent(m0, Begin(3));
    TurnRun(m1, 6);
    OneEvent(m2, Key(NEWLINE));
    RunConcat(m0, begin, turn);
    assert AfterEvents(m0, begin + turn) == m2;
    RunConcat(m0, begin + turn, key);
    assert m3.ring.data == seq(1024, i => if i == 0 then NEWLINE else c);
    assert AfterEvents(m0, begin + turn + key) == m3;
    TakesTheNewline(m3, c);
    var rest := AloneIsRun(m3);
    RunConcat(m0, begin + turn + key, rest);
    events := begin + turn + key + rest;
    assert events[..8] == begin + turn + key;
    var m := AfterEvents(m0, events);
    NextConsistent(m, Key(d));
    EmptyHandedRead(Pressed(m, d), 1);
  }

  lemma TakesTheNewline(m: Machine, c: Byte)
    requires Consistent(m) && m.at.Guard? && m.read == 1 && m.len == 3 && c != NEWLINE && m.buf == [c]
    requires m.ring == Ring(seq(1024, i => if i == 0 then NEWLINE else c), 1, 1023, 2)
    ensures var n := Alone(m);
            && n.at.Outside? && n.delivered == m.delivered + [c, c, NEWLINE]
            && n.ring == Ring(m.ring.data, 1, 1, 0) && Consistent(n)
  {
    hide Alone;
    AloneIsRead(m);
    AloneReturns(m);
    assert Takes(m) == 2;
    assert m.ring.Queue()[..2] == [c, NEWLINE];
  }
}
