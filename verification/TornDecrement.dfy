/** Standard input when `count--` is not one step but a load and a store that an interrupt may part:
    how much is lost, over every run. */
module TornDecrement {
  import opened Words
  import opened Streams
  import opened StdinPreemption

  /** The machine, with the count the reader has loaded and not yet stored. */
  datatype Reader = Reader(m: Machine, loaded: Option<nat>)

  predicate Sane(r: Reader) {
    && Usable(r.m) && r.m.ring.count <= STREAM_BUF_SIZE
    && (r.m.at in {TestByte, CopyByte, MoveTail, Uncount} ==> r.m.ring.count > 0)
    && (r.m.at.Outside? ==> r.m.buf == [])
    && (r.loaded.Some? ==> r.m.at.Uncount? && 0 < r.loaded.value <= r.m.ring.count)
  }

  /** One event; the statement `count--` takes two. */
  function Move(r: Reader, e: Event): Reader
    requires Sane(r)
  {
    if e.Step? && r.m.at.Uncount? then
      match r.loaded
      case None => r.(loaded := Some(r.m.ring.count))
      case Some(n) => Reader(r.m.(at := Advance, ring := r.m.ring.(count := n - 1)), None)
    else
      r.(m := Next(r.m, e))
  }

  /** A key that the ring takes between load and store. */
  predicate Tears(r: Reader, e: Event) {
    e.Key? && r.loaded.Some? && r.m.ring.count < STREAM_BUF_SIZE
  }

  lemma MoveStaysSane(r: Reader, e: Event)
    requires Sane(r)
    ensures Sane(Move(r, e))
  {
  }

  function MoveAll(r: Reader, events: seq<Event>): (s: Reader)
    requires Sane(r)
    ensures Sane(s)
    decreases events
  {
    if events == [] then r
    else
      MoveStaysSane(r, events[0]);
      MoveAll(Move(r, events[0]), events[1..])
  }

  /** How many keys of a run the ring takes between a load and its store. */
  function TornKeys(r: Reader, events: seq<Event>): nat
    requires Sane(r)
    decreases events
  {
    if events == [] then 0
    else
      MoveStaysSane(r, events[0]);
      (if Tears(r, events[0]) then 1 else 0) + TornKeys(Move(r, events[0]), events[1..])
  }

  /** By how many bytes the ring counts less than it was given and has not returned. */
  function Missing(r: Reader): int {
    var count := if r.loaded.Some? then r.loaded.value else r.m.ring.count;
    |r.m.accepted| - |r.m.delivered| - |r.m.buf| - (count - Owed(r.m))
  }

  /** Nothing is lost so far, and what is loaded is still the count. */
  ghost predicate Whole(r: Reader) {
    && Sane(r) && Consistent(r.m) && Conserved(r.m)
    && (r.loaded.Some? ==> r.loaded.value == r.m.ring.count)
  }

  lemma MoveLoses(r: Reader, e: Event)
    requires Sane(r)
    ensures Sane(Move(r, e)) && Missing(Move(r, e)) == Missing(r) + if Tears(r, e) then 1 else 0
  {
  }

  /** Over every run, as many bytes go missing as keys are taken between a load and its store. */
  lemma {:induction false} EveryTornKeyIsMissing(r: Reader, events: seq<Event>)
    requires Sane(r)
    ensures Missing(MoveAll(r, events)) == Missing(r) + TornKeys(r, events)
    decreases events
  {
    if events != [] {
      MoveLoses(r, events[0]);
      EveryTornKeyIsMissing(Move(r, events[0]), events[1..]);
    }
  }

  lemma MoveKeepsWhole(r: Reader, e: Event)
    requires Whole(r) && !Tears(r, e)
    ensures Whole(Move(r, e))
  {
    hide Next, Consistent, Conserved;
    MoveStaysSane(r, e);
    EventKeeps(r.m, e);
    if r.loaded.Some? {
      WindowEvent(r.m, e);
    }
  }

  /** Before the store, keys are the only events that change anything, and only a key that is taken does. */
  lemma WindowEvent(m: Machine, e: Event)
    requires Usable(m) && m.at.Uncount? && m.ring.count > 0
    requires e.Key? ==> m.ring.count >= STREAM_BUF_SIZE
    ensures e.Step? ==> Next(m, e) == m.(at := Advance, ring := m.ring.(count := m.ring.count - 1))
    ensures !e.Step? ==> Next(m, e) == m
  {
  }

  lemma {:induction false} UntornIsWhole(r: Reader, events: seq<Event>)
    requires Whole(r) && TornKeys(r, events) == 0
    ensures Whole(MoveAll(r, events))
    decreases events
  {
    hide Whole;
    if events != [] {
      assert Sane(r) by { WholeFacts(r); }
      MoveKeepsWhole(r, events[0]);
      UntornIsWhole(Move(r, events[0]), events[1..]);
    }
  }

  lemma WholeFacts(r: Reader)
    requires Whole(r)
    ensures Sane(r) && Missing(r) == 0
  {
    NothingMissing(r.m);
  }

  lemma NothingMissing(m: Machine)
    requires Consistent(m) && Conserved(m)
    ensures |m.accepted| == |m.delivered| + |m.buf| + m.ring.count - Owed(m)
  {
    assert |m.delivered + m.buf + Unread(m).Queue()| == |m.accepted|;
  }

  /** A run that ends with its last decrement complete keeps the input stream exactly when no key was
      taken between a load and its store. */
  lemma TornDecrementLosesKeys(r: Reader, events: seq<Event>)
    requires Whole(r)
    ensures var end := MoveAll(r, events);
            end.loaded.None? ==> (Consistent(end.m) && Conserved(end.m) <==> TornKeys(r, events) == 0)
  {
    var end := MoveAll(r, events);
    WholeFacts(r);
    EveryTornKeyIsMissing(r, events);
    if TornKeys(r, events) == 0 {
      UntornIsWhole(r, events);
    } else if end.loaded.None? && Consistent(end.m) && Conserved(end.m) {
      NothingMissing(end.m);
      assert false;
    }
  }
}
