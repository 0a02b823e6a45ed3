/** The shell of source/system/shell/shell.c as a value, and what its output streams deliver to the
    screen over every history of writes. */
module ShellState {
  import opened Words
  import opened Streams
  import opened Terminal

  const STREAM_COUNT: int := 3
  const STREAM_STDIN: int := 0
  const STREAM_STDOUT: int := 1
  const STREAM_STDERR: int := 2
  const DEFAULT_COLOR: Byte := 0x07
  const ERROR_COLOR: Byte := 0x04

  datatype State = State(screen: Screen, color: Byte, rings: seq<Ring>) {
    ghost predicate Valid(width: nat) {
      && 0 < width <= |screen.cells|
      && |rings| == STREAM_COUNT
      && forall i | 0 <= i < STREAM_COUNT :: rings[i].Valid()
    }
  }

  function Colored(text: seq<Byte>, color: Byte): seq<Cell> {
    seq(|text|, i requires 0 <= i < |text| => Cell(text[i], color))
  }

  /** What one rendering loop takes out of a stream: everything, unless slot 0 holds a newline. */
  function DrainText(r: Ring): seq<Byte>
    requires r.Valid()
  {
    if r.data[0] == NEWLINE then [] else r.Queue()
  }

  function Drained(r: Ring): (d: Ring)
    requires r.Valid()
    ensures d.Valid()
  {
    if r.data[0] == NEWLINE then r else r.Pop(r.count)
  }

  /** Reading `chunk` bytes at a time until a read brings nothing: what comes out and what is left. */
  function ReadOut(r: Ring, chunk: nat): (seq<Byte>, Ring)
    requires r.Valid() && chunk > 0
    decreases r.count
  {
    var n := r.Delivers(chunk);
    if n == 0 then ([], r)
    else
      var (text, left) := ReadOut(r.Pop(n), chunk);
      (r.Queue()[..n] + text, left)
  }

  /** Chunk by chunk, whatever their size, everything is read out in order, unless slot 0 holds a
      newline; then nothing is. */
  lemma {:induction false} ExactDrain(r: Ring, chunk: nat)
    requires r.Valid() && chunk > 0
    ensures ReadOut(r, chunk) == if r.data[0] == NEWLINE then ([], r) else (r.Queue(), r.Pop(r.count))
    ensures ReadOut(r, chunk) == (DrainText(r), Drained(r))
    decreases r.count
  {
    hide Ring.Queue;
    var n := r.Delivers(chunk);
    if n == 0 {
      PopNothing(r);
    } else {
      PopMeaning(r, n);
      ExactDrain(r.Pop(n), chunk);
      PopTwice(r, n, r.count - n);
      assert r.Queue() == r.Queue()[..n] + r.Queue()[n..];
    }
  }

  /** `sh_render`: standard output in the current color, then standard error in red. */
  function Rendered(s: State, width: nat): (r: State)
    requires s.Valid(width)
    ensures r.Valid(width)
  {
    var out, err := s.rings[STREAM_STDOUT], s.rings[STREAM_STDERR];
    var screen := s.screen.PutAll(width, Colored(DrainText(out), s.color));
    State(screen.PutAll(width, Colored(DrainText(err), ERROR_COLOR)), s.color,
          [s.rings[STREAM_STDIN], Drained(out), Drained(err)])
  }

  /** Rendering types what standard output has to say in the current color and then, in red, what standard
      error has; nothing else changes. */
  lemma RenderOrder(s: State, width: nat)
    requires s.Valid(width)
    ensures var r, out, err := Rendered(s, width), s.rings[1], s.rings[2];
            && r.screen == s.screen.PutAll(width, Colored(DrainText(out), s.color) + Colored(DrainText(err), 0x04))
            && r.color == s.color && r.rings[0] == s.rings[0]
            && r.rings[1] == Drained(out) && r.rings[2] == Drained(err)
  {
    hide Screen.PutAll, Colored, DrainText, Drained;
    PutAllConcat(s.screen, width, Colored(DrainText(s.rings[1]), s.color), Colored(DrainText(s.rings[2]), ERROR_COLOR));
  }

  /** One call of `sh_write_stream`. */
  datatype Write = Write(stream: int, buf: seq<Byte>, len: int) {
    predicate Legal() {
      len <= |buf|
    }

    predicate Addressed() {
      0 <= stream < STREAM_COUNT
    }

    /** The bytes on offer. */
    function Offer(): seq<Byte>
      requires Legal()
    {
      buf[..Max(0, len)]
    }
  }

  function AfterWrite(s: State, width: nat, w: Write): (r: State)
    requires s.Valid(width) && w.Legal()
    ensures r.Valid(width)
  {
    if !w.Addressed() then s
    else
      var ring := s.rings[w.stream];
      var pushed := ring.PushAll(w.buf[..ring.Accepts(w.len)]);
      Rendered(State(s.screen, DEFAULT_COLOR, s.rings[w.stream := pushed]), width)
  }

  function AfterWrites(s: State, width: nat, ws: seq<Write>): (r: State)
    requires s.Valid(width) && forall i | 0 <= i < |ws| :: ws[i].Legal()
    ensures r.Valid(width)
    decreases ws
  {
    if ws == [] then s else AfterWrites(AfterWrite(s, width, ws[0]), width, ws[1..])
  }

  // ---------------------------------------------------------------- channels: streams without a ring

  /** An output stream seen from outside: open with so many bytes delivered, or blocked for good. */
  datatype Channel = Open(total: nat) | Blocked

  /** The slot that byte number `total` of a stream goes to. */
  function SlotOf(total: nat): (s: nat)
    ensures s < STREAM_BUF_SIZE
  {
    total % STREAM_BUF_SIZE
  }

  /** A newline that would be byte number 0, 1024, 2048, ... of the stream. */
  predicate Blocks(total: nat, bytes: seq<Byte>) {
    exists k :: 0 <= k < |bytes| && bytes[k] == NEWLINE && SlotOf(total + k) == 0
  }

  /** The bytes of one offer that reach the screen. */
  function Heard(ch: Channel, offer: seq<Byte>): seq<Byte> {
    if ch.Blocked? then []
    else
      var taken := offer[..Min(|offer|, STREAM_BUF_SIZE)];
      if Blocks(ch.total, taken) then [] else taken
  }

  function AfterOffer(ch: Channel, offer: seq<Byte>): Channel {
    if ch.Blocked? then ch
    else
      var taken := offer[..Min(|offer|, STREAM_BUF_SIZE)];
      if Blocks(ch.total, taken) then Blocked else Open(ch.total + |taken|)
  }

  /** How a ring realises a channel: an open one is empty and has no newline in slot 0 once a byte
      has been through it; a blocked one keeps a newline unread in slot 0. */
  ghost predicate Realises(r: Ring, ch: Channel) {
    && r.Valid()
    && match ch
       case Open(total) =>
         r.count == 0 && r.tail == SlotOf(total) && (total > 0 ==> r.data[0] != NEWLINE)
       case Blocked =>
         r.data[0] == NEWLINE && Ahead(r.tail, 0) < r.count
  }

  /** Rendering leaves a stream alone unless something was just written to it. */
  lemma IdleStream(r: Ring, ch: Channel)
    requires Realises(r, ch)
    ensures Drained(r) == r && DrainText(r) == []
  {
  }

  /** A blocked stream stays blocked: its newline is never delivered and never overwritten. */
  lemma BlockedForGood(r: Ring, bytes: seq<Byte>)
    requires Realises(r, Blocked) && r.count + |bytes| <= STREAM_BUF_SIZE
    ensures Realises(r.PushAll(bytes), Blocked)
    ensures Drained(r.PushAll(bytes)) == r.PushAll(bytes) && DrainText(r.PushAll(bytes)) == []
    ensures forall len :: r.PushAll(bytes).Delivers(len) == 0
  {
    PushAllSlots(r, bytes);
    UnreadStaysAhead(r.tail, r.count, |bytes|);
  }

  /** The slots a write fills never reach an unread slot 0. */
  lemma UnreadStaysAhead(tail: nat, count: nat, n: nat)
    requires tail < STREAM_BUF_SIZE && count + n <= STREAM_BUF_SIZE && Ahead(tail, 0) < count
    ensures n <= Ahead(Wrap(tail + count), 0) || n == 0
  {
  }

  /** The bytes that go to slot 0 are those whose place in the stream is a multiple of 1024. */
  lemma SlotZero(total: nat, j: nat)
    requires j < STREAM_BUF_SIZE
    ensures SlotOf(total + j) == 0 <==> j == Ahead(SlotOf(total), 0)
  {
  }

  lemma BlocksAtSlotZero(total: nat, bytes: seq<Byte>)
    requires |bytes| <= STREAM_BUF_SIZE
    ensures var k := Ahead(SlotOf(total), 0);
            Blocks(total, bytes) <==> k < |bytes| && bytes[k] == NEWLINE
  {
    SlotZero(total, Ahead(SlotOf(total), 0));
    forall j: nat | j < |bytes| && bytes[j] == NEWLINE
      ensures SlotOf(total + j) == 0 <==> j == Ahead(SlotOf(total), 0)
    {
      SlotZero(total, j);
    }
  }

  /** A write to an empty ring puts its byte number `Ahead(head, 0)` into slot 0. */
  lemma EmptyRingWrite(r: Ring, taken: seq<Byte>)
    requires r.Valid() && r.count == 0 && |taken| <= STREAM_BUF_SIZE
    ensures r.head == r.tail
    ensures var pushed, k := r.PushAll(taken), Ahead(r.head, 0);
            && pushed.Queue() == taken
            && pushed.data[0] == if k < |taken| then taken[k] else r.data[0]
  {
    PushAllSlots(r, taken);
    PushAllMeaning(r, taken);
    assert r.Queue() + taken == taken;
  }

  /** A newline for slot 0 blocks the stream together with everything written with it. */
  lemma BlockingWrite(r: Ring, total: nat, taken: seq<Byte>)
    requires Realises(r, Open(total)) && |taken| <= STREAM_BUF_SIZE && Blocks(total, taken)
    ensures Realises(Drained(r.PushAll(taken)), Blocked)
    ensures DrainText(r.PushAll(taken)) == []
  {
    BlocksAtSlotZero(total, taken);
    EmptyRingWrite(r, taken);
    hide Blocks, SlotOf, Ring.PushAll, Ring.Queue;
  }

  lemma OpenFacts(r: Ring, total: nat)
    ensures Realises(r, Open(total)) <==>
              r.Valid() && r.count == 0 && r.tail == SlotOf(total) && (total > 0 ==> r.data[0] != NEWLINE)
  {
  }

  lemma EmptyWrite(r: Ring)
    requires r.Valid()
    ensures r.PushAll([]) == r
  {
  }

  /** Any other write is delivered whole. */
  lemma DeliveredWrite(r: Ring, total: nat, taken: seq<Byte>)
    requires Realises(r, Open(total)) && |taken| <= STREAM_BUF_SIZE && !Blocks(total, taken)
    ensures Realises(Drained(r.PushAll(taken)), Open(total + |taken|))
    ensures DrainText(r.PushAll(taken)) == taken
  {
    hide Realises, Blocks, SlotOf, Ring.PushAll, Ring.Queue, DrainText, Drained;
    OpenFacts(r, total);
    if taken == [] {
      EmptyWrite(r);
      IdleStream(r, Open(total));
      assert total + |taken| == total;
    } else {
      EmptyRingWrite(r, taken);
      BlocksAtSlotZero(total, taken);
      AddWrapped(total, |taken|);
      DrainEffect(r.PushAll(taken));
      OpenFacts(Drained(r.PushAll(taken)), total + |taken|);
    }
  }

  lemma DrainEffect(p: Ring)
    requires p.Valid()
    ensures p.data[0] == NEWLINE ==> Drained(p) == p && DrainText(p) == []
    ensures p.data[0] != NEWLINE ==> DrainText(p) == p.Queue() && Drained(p).Valid() && Drained(p).data == p.data
                                     && Drained(p).count == 0 && Drained(p).tail == Wrap(p.tail + p.count)
  {
  }

  lemma AddWrapped(total: nat, n: nat)
    requires n <= STREAM_BUF_SIZE
    ensures Wrap(SlotOf(total) + n) == SlotOf(total + n)
    ensures SlotOf(0) == 0
  {
  }

  /** One write followed by rendering takes the ring where the channel goes, and delivers what is heard. */
  lemma ChannelStep(r: Ring, ch: Channel, w: Write)
    requires Realises(r, ch) && w.Legal()
    ensures var pushed := r.PushAll(w.buf[..r.Accepts(w.len)]);
            && Realises(Drained(pushed), AfterOffer(ch, w.Offer()))
            && DrainText(pushed) == Heard(ch, w.Offer())
  {
    hide Blocks, Ring.PushAll, Ring.Queue, DrainText, Drained;
    var taken := w.buf[..r.Accepts(w.len)];
    if ch.Blocked? {
      BlockedForGood(r, taken);
    } else {
      assert taken == w.Offer()[..Min(|w.Offer()|, STREAM_BUF_SIZE)];
      if Blocks(ch.total, taken) {
        BlockingWrite(r, ch.total, taken);
      } else {
        DeliveredWrite(r, ch.total, taken);
      }
    }
  }

  // ---------------------------------------------------------------- every history of writes

  /** What a history of writes shows on the page: standard output in the default color, standard
      error in red, standard input not at all. */
  function Shown(out: Channel, err: Channel, ws: seq<Write>): seq<Cell>
    requires forall i | 0 <= i < |ws| :: ws[i].Legal()
    decreases ws
  {
    if ws == [] then []
    else
      var w := ws[0];
      if w.stream == STREAM_STDOUT then
        Colored(Heard(out, w.Offer()), DEFAULT_COLOR) + Shown(AfterOffer(out, w.Offer()), err, ws[1..])
      else if w.stream == STREAM_STDERR then
        Colored(Heard(err, w.Offer()), ERROR_COLOR) + Shown(out, AfterOffer(err, w.Offer()), ws[1..])
      else
        Shown(out, err, ws[1..])
  }

  ghost predicate Tracks(s: State, width: nat, out: Channel, err: Channel) {
    s.Valid(width) && Realises(s.rings[STREAM_STDOUT], out) && Realises(s.rings[STREAM_STDERR], err)
  }

  lemma ColoredNothing(s: Screen, width: nat, color: Byte)
    requires 0 < width <= |s.cells|
    ensures s.PutAll(width, Colored([], color)) == s
  {
    assert Colored([], color) == [];
  }

  /** One write moves one channel and shows what is heard on it. */
  lemma WriteStep(s: State, width: nat, out: Channel, err: Channel, w: Write)
    requires Tracks(s, width, out, err) && w.Legal()
    ensures var r, o := AfterWrite(s, width, w), w.Offer();
            if w.stream == 1 then
              && Tracks(r, width, AfterOffer(out, o), err)
              && r.screen == s.screen.PutAll(width, Colored(Heard(out, o), 0x07))
            else if w.stream == 2 then
              && Tracks(r, width, out, AfterOffer(err, o))
              && r.screen == s.screen.PutAll(width, Colored(Heard(err, o), 0x04))
            else
              Tracks(r, width, out, err) && r.screen == s.screen
  {
    hide Realises, AfterOffer, Heard, DrainText, Drained, Screen.PutAll, Colored, Ring.PushAll, Ring.Queue;
    IdleStream(s.rings[STREAM_STDOUT], out);
    IdleStream(s.rings[STREAM_STDERR], err);
    ColoredNothing(s.screen, width, DEFAULT_COLOR);
    if w.stream == STREAM_STDOUT {
      ChannelStep(s.rings[STREAM_STDOUT], out, w);
      ColoredNothing(s.screen.PutAll(width, Colored(Heard(out, w.Offer()), DEFAULT_COLOR)), width, ERROR_COLOR);
    } else if w.stream == STREAM_STDERR {
      ChannelStep(s.rings[STREAM_STDERR], err, w);
    } else {
      ColoredNothing(s.screen, width, ERROR_COLOR);
    }
  }

  /** A write to standard input is queued there, and no other write is; the default color is set. */
  lemma StdinStep(s: State, width: nat, w: Write)
    requires s.Valid(width) && w.Legal()
    ensures var r, stdin := AfterWrite(s, width, w), s.rings[0];
            && r.rings[0].Queue() == stdin.Queue() + (if w.stream == 0 then w.buf[..stdin.Accepts(w.len)] else [])
            && (w.stream != 0 ==> r.rings[0] == stdin)
            && r.color == if 0 <= w.stream < 3 then 0x07 else s.color
  {
    hide Ring.PushAll, Ring.Queue, DrainText, Drained, Screen.PutAll, Colored;
    if w.stream == 0 {
      PushAllMeaning(s.rings[0], w.buf[..s.rings[0].Accepts(w.len)]);
    }
  }

  /** A text in a color is its characters in that color. */
  lemma ColoredCells(text: seq<Byte>, color: Byte, i: nat)
    requires i < |text|
    ensures |Colored(text, color)| == |text| && Colored(text, color)[i] == Cell(text[i], color)
  {
  }

  /** Over every history, the screen is the old screen after typing what the channels let through. */
  lemma {:induction false} OutputHistory(s: State, width: nat, out: Channel, err: Channel, ws: seq<Write>)
    requires Tracks(s, width, out, err) && forall i | 0 <= i < |ws| :: ws[i].Legal()
    ensures AfterWrites(s, width, ws).screen == s.screen.PutAll(width, Shown(out, err, ws))
    decreases ws
  {
    hide Realises, AfterWrite, AfterOffer, Heard, Screen.PutAll, Colored;
    if ws == [] {
      PutNothing(s.screen, width);
    } else {
      var w := ws[0];
      var o, r := w.Offer(), AfterWrite(s, width, w);
      WriteStep(s, width, out, err, w);
      if w.stream == STREAM_STDOUT {
        OutputHistory(r, width, AfterOffer(out, o), err, ws[1..]);
        PutAllConcat(s.screen, width, Colored(Heard(out, o), DEFAULT_COLOR), Shown(AfterOffer(out, o), err, ws[1..]));
      } else if w.stream == STREAM_STDERR {
        OutputHistory(r, width, out, AfterOffer(err, o), ws[1..]);
        PutAllConcat(s.screen, width, Colored(Heard(err, o), ERROR_COLOR), Shown(out, AfterOffer(err, o), ws[1..]));
      } else {
        OutputHistory(r, width, out, err, ws[1..]);
      }
    }
  }

  lemma PutNothing(s: Screen, width: nat)
    requires 0 < width <= |s.cells|
    ensures s.PutAll(width, []) == s
  {
  }

  /** The state `sh_init` leaves behind, whatever bytes the rings held before. */
  function Initial(width: nat, height: nat, memory: seq<seq<Byte>>): State
    requires |memory| == STREAM_COUNT
  {
    State(Screen(BlankRow(StartOf(height, width), DEFAULT_COLOR), 0), DEFAULT_COLOR,
          [Ring(memory[0], 0, 0, 0), Ring(memory[1], 0, 0, 0), Ring(memory[2], 0, 0, 0)])
  }

  /** From `sh_init` on, over every history of writes to any stream, the screen is the window on the
      page on which everything the channels let through has been typed. */
  lemma ShellShowsPage(width: nat, height: nat, memory: seq<seq<Byte>>, ws: seq<Write>)
    requires 0 < width && 0 < height
    requires |memory| == STREAM_COUNT && forall i | 0 <= i < STREAM_COUNT :: |memory[i]| == STREAM_BUF_SIZE
    requires forall i | 0 <= i < |ws| :: ws[i].Legal()
    ensures BlankPage(width, height, 0x07).Valid(width, height)
    ensures Initial(width, height, memory).Valid(width)
    ensures Shows(AfterWrites(Initial(width, height, memory), width, ws).screen,
                  BlankPage(width, height, 0x07).TypeAll(width, height, Shown(Open(0), Open(0), ws)),
                  width, height)
  {
    var s := Initial(width, height, memory);
    ClearShowsBlankPage(width, height, DEFAULT_COLOR);
    WindowIsScreenful(s.screen, BlankPage(width, height, DEFAULT_COLOR), width, height);
    MulMono(1, height, width);
    OpenFacts(s.rings[STREAM_STDOUT], 0);
    OpenFacts(s.rings[STREAM_STDERR], 0);
    assert SlotOf(0) == 0;
    OutputHistory(s, width, Open(0), Open(0), ws);
    TerminalRefinement(s.screen, BlankPage(width, height, DEFAULT_COLOR), width, height, Shown(Open(0), Open(0), ws));
  }

  // ---------------------------------------------------------------- text written a character at a time

  /** The writes `sh_putc` makes for a text. */
  function CharWrites(text: seq<Byte>): (ws: seq<Write>)
    ensures |ws| == |text| && forall i | 0 <= i < |ws| :: ws[i].Legal()
  {
    seq(|text|, i requires 0 <= i < |text| => Write.Write(STREAM_STDOUT, [text[i]], 1))
  }

  /** Character by character, what shows is the prefix before the first newline whose place in the
      stream is a multiple of 1024. */
  lemma {:induction false} CharByChar(total: nat, err: Channel, text: seq<Byte>, n: nat)
    requires n <= |text|
    requires forall i | 0 <= i < n :: !(text[i] == NEWLINE && SlotOf(total + i) == 0)
    requires n < |text| ==> text[n] == NEWLINE && SlotOf(total + n) == 0
    ensures Shown(Open(total), err, CharWrites(text)) == Colored(text[..n], DEFAULT_COLOR)
    decreases text
  {
    var ws := CharWrites(text);
    if text != [] {
      assert ws[1..] == CharWrites(text[1..]);
      OneChar(total, text[0]);
      hide Heard, AfterOffer, SlotOf;
      if n == 0 {
        BlockedChars(err, text[1..]);
        assert Shown(Open(total), err, ws) == [] + [];
      } else {
        assert forall i | 0 <= i < n - 1 :: !(text[1..][i] == NEWLINE && SlotOf(total + 1 + i) == 0) by {
          assert forall i | 0 <= i < n - 1 :: text[1..][i] == text[i + 1] && total + 1 + i == total + (i + 1);
        }
        CharByChar(total + 1, err, text[1..], n - 1);
        assert Colored(text[..n], DEFAULT_COLOR)
               == Colored([text[0]], DEFAULT_COLOR) + Colored(text[1..][..n - 1], DEFAULT_COLOR);
      }
    }
  }

  lemma OneChar(total: nat, c: Byte)
    ensures var w := Write.Write(STREAM_STDOUT, [c], 1);
            if c == NEWLINE && SlotOf(total) == 0 then
              Heard(Open(total), w.Offer()) == [] && AfterOffer(Open(total), w.Offer()) == Blocked
            else
              Heard(Open(total), w.Offer()) == [c] && AfterOffer(Open(total), w.Offer()) == Open(total + 1)
  {
    assert [c][..1] == [c];
    assert total + 0 == total;
    assert c == NEWLINE && SlotOf(total) == 0 ==> [c][0] == NEWLINE && SlotOf(total + 0) == 0;
  }

  lemma {:induction false} BlockedChars(err: Channel, text: seq<Byte>)
    ensures Shown(Blocked, err, CharWrites(text)) == []
    decreases text
  {
    if text != [] {
      BlockedChars(err, text[1..]);
      assert CharWrites(text)[1..] == CharWrites(text[1..]);
      assert Colored([], DEFAULT_COLOR) == [];
    }
  }

  /** What writing a text character by character does to the shell. */
  function Typed(s: State, width: nat, text: seq<Byte>): (r: State)
    requires s.Valid(width)
    ensures r.Valid(width)
  {
    AfterWrites(s, width, CharWrites(text))
  }

  lemma TypedNothing(s: State, width: nat)
    requires s.Valid(width)
    ensures Typed(s, width, []) == s
  {
  }

  lemma {:induction false} WritesConcat(s: State, width: nat, a: seq<Write>, b: seq<Write>)
    requires s.Valid(width) && (forall i | 0 <= i < |a| :: a[i].Legal()) && (forall i | 0 <= i < |b| :: b[i].Legal())
    ensures AfterWrites(s, width, a + b) == AfterWrites(AfterWrites(s, width, a), width, b)
    decreases a
  {
    hide AfterWrite;
    if a == [] {
      assert a + b == b;
    } else {
      WritesConcat(AfterWrite(s, width, a[0]), width, a[1..], b);
      assert (a + b)[1..] == a[1..] + b;
    }
  }

  lemma TypedConcat(s: State, width: nat, a: seq<Byte>, b: seq<Byte>)
    requires s.Valid(width)
    ensures Typed(s, width, a + b) == Typed(Typed(s, width, a), width, b)
  {
    hide AfterWrites;
    WritesConcat(s, width, CharWrites(a), CharWrites(b));
    assert CharWrites(a + b) == CharWrites(a) + CharWrites(b);
  }

  lemma TypedChar(s: State, width: nat, c: Byte)
    requires s.Valid(width)
    ensures Typed(s, width, [c]) == AfterWrite(s, width, Write.Write(STREAM_STDOUT, [c], 1))
  {
    hide AfterWrite;
    var w := Write.Write(STREAM_STDOUT, [c], 1);
    assert CharWrites([c]) == [w] && [w][1..] == [];
    assert AfterWrites(AfterWrite(s, width, w), width, []) == AfterWrite(s, width, w);
  }

  /** On an open stream, text typed character by character shows up to the first newline whose place
      in the stream is a multiple of 1024. */
  lemma TypedShows(s: State, width: nat, total: nat, err: Channel, text: seq<Byte>, n: nat)
    requires Tracks(s, width, Open(total), err)
    requires n <= |text|
    requires forall i | 0 <= i < n :: !(text[i] == NEWLINE && SlotOf(total + i) == 0)
    requires n < |text| ==> text[n] == NEWLINE && SlotOf(total + n) == 0
    ensures Typed(s, width, text).screen == s.screen.PutAll(width, Colored(text[..n], DEFAULT_COLOR))
  {
    CharByChar(total, err, text, n);
    OutputHistory(s, width, Open(total), err, CharWrites(text));
  }

  /** `sh_puts` on a fresh shell: the screen shows the page with that prefix typed on it. */
  lemma FreshPuts(width: nat, height: nat, memory: seq<seq<Byte>>, text: seq<Byte>, n: nat)
    requires 0 < width && 0 < height
    requires |memory| == STREAM_COUNT && forall i | 0 <= i < STREAM_COUNT :: |memory[i]| == STREAM_BUF_SIZE
    requires n <= |text|
    requires forall i | 0 <= i < n :: !(text[i] == '\n' as int && i % 1024 == 0)
    requires n < |text| ==> text[n] == '\n' as int && n % 1024 == 0
    ensures BlankPage(width, height, 0x07).Valid(width, height)
    ensures Initial(width, height, memory).Valid(width)
    ensures Shows(Typed(Initial(width, height, memory), width, text).screen,
                  BlankPage(width, height, 0x07).TypeAll(width, height, Colored(text[..n], 0x07)),
                  width, height)
  {
    ShellShowsPage(width, height, memory, CharWrites(text));
    CharByChar(0, Open(0), text, n);
  }

  /** So a text that begins with a newline shows nothing on a fresh shell, whatever follows. */
  lemma NewlineFirstShowsNothing(width: nat, height: nat, memory: seq<seq<Byte>>, rest: seq<Byte>)
    requires 0 < width && 0 < height
    requires |memory| == STREAM_COUNT && forall i | 0 <= i < STREAM_COUNT :: |memory[i]| == STREAM_BUF_SIZE
    ensures Initial(width, height, memory).Valid(width)
    ensures Typed(Initial(width, height, memory), width, ['\n' as int] + rest).screen
            == Initial(width, height, memory).screen
  {
    hide AfterWrites, Screen.PutAll, Realises;
    var s, text := Initial(width, height, memory), [NEWLINE] + rest;
    MulMono(1, height, width);
    OpenFacts(s.rings[STREAM_STDOUT], 0);
    OpenFacts(s.rings[STREAM_STDERR], 0);
    assert SlotOf(0) == 0;
    TypedShows(s, width, 0, Open(0), text, 0);
    ColoredNothing(s.screen, width, DEFAULT_COLOR);
    assert text[..0] == [];
  }
}
