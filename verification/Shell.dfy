/** The shell object of source/system/shell/shell.c, method by method against `ShellState`. */
module Shell {
  import opened Words
  import opened Streams
  import opened Terminal
  import opened ShellState
  import opened Numbers

  const RENDER_CHUNK: nat := 64

  class Shell {
    const memory: array<Cell>
    const size: nat
    const width: nat
    const height: nat
    const stdin: Stream
    const stdout: Stream
    const stderr: Stream
    var cursor: nat
    var color: Byte

    ghost function Footprint(): set<object> {
      {this, memory, stdin, stdin.data, stdout, stdout.data, stderr, stderr.data}
    }

    ghost predicate Separate() {
      && stdin != stdout && stdout != stderr && stderr != stdin
      && stdin.data != stdout.data && stdout.data != stderr.data && stderr.data != stdin.data
      && 0 < width && 0 < height && size == StartOf(height, width) == memory.Length && width <= size
    }

    ghost predicate Valid()
      reads Footprint()
    {
      Separate() && stdin.Valid() && stdout.Valid() && stderr.Valid() && cursor < size
    }

    ghost function Display(): Screen
      reads this, memory
    {
      Screen(memory[..], cursor)
    }

    ghost function View(): (s: State)
      requires Valid()
      reads Footprint()
      ensures s.Valid(width)
    {
      State(Display(), color, [stdin.View(), stdout.View(), stderr.View()])
    }

    /** `sh_init`; the rings start with whatever bytes memory held. */
    constructor (memory: array<Cell>, width: nat, size: nat, garbage: seq<seq<Byte>>)
      requires 0 < width <= size == memory.Length && size % width == 0
      requires |garbage| == STREAM_COUNT && forall i | 0 <= i < STREAM_COUNT :: |garbage[i]| == STREAM_BUF_SIZE
      modifies memory
      ensures Valid() && fresh(Footprint() - {memory})
      ensures this.memory == memory && this.width == width && this.height == size / width
      ensures View() == Initial(width, height, garbage)
    {
      this.memory := memory;
      this.width := width;
      this.height := size / width;
      this.size := size;
      color := DEFAULT_COLOR;
      cursor := 0;
      stdin := new Stream(garbage[0]);
      stdout := new Stream(garbage[1]);
      stderr := new Stream(garbage[2]);
      new;
      assert size == (size / width) * width;
      if height == 0 {
        assert false;
      }
      Clear();
    }

    method Clear()
      requires Separate()
      modifies this`cursor, memory
      ensures Display() == Screen(BlankRow(size, color), 0)
    {
      cursor := 0;
      for i := 0 to size
        invariant forall k | 0 <= k < i :: memory[k] == Cell(SPACE, color)
        invariant cursor == 0
      {
        memory[i] := Cell(SPACE, color);
      }
      cursor := 0;
    }

    // ---------------------------------------------------------------- the screen

    method Scroll()
      requires Separate()
      modifies memory
      ensures memory[..] == old(memory[..])[width..] + BlankRow(width, color)
    {
      hide StartOf;
      ghost var was := memory[..];
      NextStart(0, width);
      for row := 1 to height
        invariant forall k | 0 <= k < StartOf(row - 1, width) :: k + width < size && memory[k] == was[k + width]
        invariant forall k | StartOf(row - 1, width) <= k < size :: memory[k] == was[k]
      {
        RowFits(row, height, width);
        RowFits(row - 1, height, width);
        for col := 0 to width
          invariant forall k | 0 <= k < StartOf(row - 1, width) + col :: k + width < size && memory[k] == was[k + width]
          invariant forall k | StartOf(row - 1, width) + col <= k < size :: memory[k] == was[k]
        {
          var dst := StartOf(row - 1, width) + col;
          var src := StartOf(row, width) + col;
          memory[dst] := memory[src];
        }
      }
      RowFits(height - 1, height, width);
      var lastLine := StartOf(height - 1, width);
      for col := 0 to width
        invariant forall k | 0 <= k < lastLine :: memory[k] == was[k + width]
        invariant forall k | lastLine <= k < lastLine + col :: memory[k] == Cell(SPACE, color)
      {
        memory[lastLine + col] := Cell(SPACE, color);
      }
    }

    method ScrollIfNeeded()
      requires Separate() && cursor <= size
      modifies this`cursor, memory
      ensures Display() == old(Display()).Scrolled(width, color)
      ensures cursor < size
    {
      if cursor >= size {
        Scroll();
        cursor := cursor - width;
      }
    }

    /** The body of the rendering loops. */
    method Put(c: Byte)
      requires Separate() && cursor < size
      modifies this`cursor, memory
      ensures Display() == old(Display()).Put(width, Cell(c, color))
      ensures cursor < size
    {
      hide Screen.Scrolled;
      LineFeedFits(cursor, width, height);
      if c == CARRIAGE_RETURN {
        cursor := cursor - cursor % width;
      } else if c == LINE_FEED {
        cursor := cursor + (width - cursor % width);
        ScrollIfNeeded();
      } else if cursor < size {
        memory[cursor] := Cell(c, color);
        cursor := cursor + 1;
        ScrollIfNeeded();
      }
    }

    // ---------------------------------------------------------------- rendering

    method ShowChunk(buf: array<Byte>, n: nat)
      requires Separate() && cursor < size && n <= buf.Length
      modifies this`cursor, memory
      ensures Display() == old(Display()).PutAll(width, Colored(buf[..n], color))
      ensures cursor < size
    {
      hide Screen.Put;
      for i := 0 to n
        invariant Display() == old(Display()).PutAll(width, Colored(buf[..i], color))
        invariant cursor < size
      {
        Put(buf[i]);
        ghost var text := Colored(buf[..i + 1], color);
        assert text[..i] == Colored(buf[..i], color) && text[i] == Cell(buf[i], color);
      }
    }

    /** One rendering loop: it empties the stream, unless slot 0 holds a newline; then it takes nothing. */
    method RenderStream(s: Stream)
      requires Separate() && cursor < size && s.Valid()
      modifies this`cursor, memory, s
      ensures cursor < size && s.Valid() && s.View() == Drained(old(s.View()))
      ensures Display() == old(Display()).PutAll(width, Colored(DrainText(old(s.View())), color))
    {
      hide Ring.Queue, Ring.Pop, Screen.PutAll, Colored;
      ghost var ring, screen := s.View(), Display();
      PopNothing(ring);
      ColoredNothing(screen, width, color);
      var buf := new Byte[RENDER_CHUNK];
      ghost var n: nat := 0;
      var bytes: nat := ReadChunk(s, buf, ring, n);
      while bytes > 0
        invariant cursor < size && ring.Valid() && s.Valid()
        invariant n + bytes <= ring.count && s.View() == ring.Pop(n + bytes)
        invariant bytes <= RENDER_CHUNK && buf[..bytes] == ring.Queue()[n..n + bytes]
        invariant bytes == 0 <==> n == ring.count || ring.data[0] == NEWLINE
        invariant ring.data[0] == NEWLINE ==> n == 0
        invariant Display() == screen.PutAll(width, Colored(ring.Queue()[..n], color))
        decreases ring.count - n
      {
        ShowChunk(buf, bytes);
        ShowMore(screen, width, ring.Queue(), n, bytes, color);
        n := n + bytes;
        bytes := ReadChunk(s, buf, ring, n);
      }
      assert ring.Queue()[..ring.count] == ring.Queue();
    }

    /** `sh_render` */
    method Render()
      requires Valid()
      modifies this`cursor, this`color, memory, stdout, stderr
      ensures Valid() && View() == Rendered(old(View()), width)
    {
      hide Screen.PutAll, Drained, DrainText, Colored;
      RenderStream(stdout);
      var saved := color;
      color := ERROR_COLOR;
      RenderStream(stderr);
      color := saved;
    }

    // ---------------------------------------------------------------- writing

    /** `sh_write_stream` */
    method WriteStream(stream: int, buf: seq<Byte>, len: int) returns (written: int)
      requires Valid() && len <= |buf|
      modifies Footprint()
      ensures Valid() && View() == AfterWrite(old(View()), width, Write.Write(stream, buf, len))
      ensures written == if 0 <= stream < STREAM_COUNT then old(View()).rings[stream].Accepts(len) else -1
    {
      hide Rendered, Ring.PushAll;
      if stream < 0 || stream >= STREAM_COUNT {
        return -1;
      }
      color := DEFAULT_COLOR;
      if stream == STREAM_STDIN {
        written := stdin.Write(buf, len);
      } else if stream == STREAM_STDOUT {
        written := stdout.Write(buf, len);
      } else {
        written := stderr.Write(buf, len);
      }
      assert View().rings == old(View()).rings[stream := View().rings[stream]];
      assert View().screen == old(View()).screen;
      Render();
    }

    method Putc(c: Byte)
      requires Valid()
      modifies Footprint()
      ensures Valid() && View() == Typed(old(View()), width, [c])
    {
      TypedChar(View(), width, c);
      var _ := WriteStream(STREAM_STDOUT, [c], 1);
    }

    /** `str` is the memory the pointer leads into; the string ends at its first zero byte. */
    method Puts(str: seq<Byte>)
      requires Valid() && 0 in str
      modifies Footprint()
      ensures Valid() && View() == Typed(old(View()), width, CString(str))
    {
      hide Typed;
      ghost var text, was := CString(str), View();
      TypedNothing(was, width);
      var i := 0;
      while str[i] != 0
        invariant i <= |text| && Valid() && View() == Typed(was, width, text[..i])
        decreases |text| - i
      {
        Putc(str[i]);
        TypedConcat(was, width, text[..i], [text[i]]);
        assert text[..i + 1] == text[..i] + [text[i]];
        i := i + 1;
      }
      assert text[..i] == text;
    }

    method PutInt(value: I32, base: Base)
      requires Valid()
      modifies Footprint()
      ensures Valid() && View() == Typed(old(View()), width, IntText(value, base))
    {
      hide Typed, Numeral;
      ghost var was := View();
      assert [] + Digits(value, base) == Digits(value, base);
      ghost var sign: seq<Byte> := [];
      TypedNothing(was, width);
      var u: U32;
      if base == 10 && value < 0 {
        Putc(MINUS);
        sign := [MINUS];
        u := Wrap32(0 - value);
      } else {
        u := Wrap32(value);
      }
      if u == 0 {
        Putc(ZERO);
        TypedConcat(was, width, sign, [ZERO]);
        return;
      }
      var buffer := new Byte[DIGIT_LIMIT + 1];
      var i := CollectDigits(u, base, buffer);
      TypedConcat(was, width, sign, Numeral(u, base, DIGIT_LIMIT));
      PutBackwards(buffer, i);
    }

    /** The last loop of `sh_putint`. */
    method PutBackwards(buffer: array<Byte>, n: nat)
      requires Valid() && n <= buffer.Length && buffer !in Footprint()
      modifies Footprint()
      ensures Valid() && View() == Typed(old(View()), width, Reversed(old(buffer[..n])))
    {
      hide Typed;
      ghost var was, digits := View(), buffer[..n];
      ghost var text: seq<Byte> := [];
      TypedNothing(was, width);
      var i := n;
      assert buffer[..i] == digits[..i];
      while i > 0
        invariant i <= n && Valid() && View() == Typed(was, width, text)
        invariant buffer[..n] == digits
        invariant Reversed(digits) == text + Reversed(digits[..i])
      {
        i := i - 1;
        Putc(buffer[i]);
        TypedConcat(was, width, text, [digits[i]]);
        assert digits[..i + 1][..i] == digits[..i];
        text := text + [digits[i]];
      }
      assert text + Reversed(digits[..0]) == text;
    }

    /** The cases of `sh_printf` that take an argument. */
    method PutConversion(c: Byte, arg: Arg)
      requires Valid()
      requires if c == CONV_S then arg.IsString() else TakesWord(c) && arg.Word?
      modifies Footprint()
      ensures Valid() && View() == Typed(old(View()), width, Conversion(c, arg))
    {
      hide Typed, IntText, CString;
      if c == CONV_S {
        Puts(if arg.s.Some? then arg.s.value else NULL_TEXT);
      } else if c == CONV_X {
        PutInt(AsSigned(arg.w), 16);
      } else if c == CONV_P {
        TypedConcat(View(), width, CString(HEX_PREFIX), IntText(AsSigned(arg.w), 16));
        Puts(HEX_PREFIX);
        PutInt(AsSigned(arg.w), 16);
      } else if c == CONV_C {
        Putc(arg.w % 0x100);
      } else {
        PutInt(AsSigned(arg.w), 10);
      }
    }

    /** One turn of the loop of `sh_printf`, at a format character that is not the end. */
    method PutPiece(fmt: seq<Byte>, args: seq<Arg>)
      requires Valid() && fmt != [] && StepFits(fmt, args)
      modifies Footprint()
      ensures Valid() && View() == Typed(old(View()), width, Piece(fmt, args))
    {
      hide Typed, Conversion;
      if fmt[0] == PERCENT {
        if fmt[1] == CONV_S || TakesWord(fmt[1]) {
          PutConversion(fmt[1], args[0]);
        } else if fmt[1] == PERCENT {
          Putc(PERCENT);
        } else {
          TypedConcat(View(), width, [PERCENT], [fmt[1]]);
          assert [PERCENT] + [fmt[1]] == [PERCENT, fmt[1]];
          Putc(PERCENT);
          Putc(fmt[1]);
        }
      } else {
        Putc(fmt[0]);
      }
    }

    /** `fmt` is the memory the pointer leads into, as for `Puts`. */
    method Printf(fmt: seq<Byte>, args: seq<Arg>)
      requires Valid() && 0 in fmt && Fits(CString(fmt), args)
      modifies Footprint()
      ensures Valid() && View() == Typed(old(View()), width, Format(CString(fmt), args))
    {
      hide Typed, Piece, Width, Arity, StepFits;
      ghost var text, was := CString(fmt), View();
      ghost var emitted: seq<Byte> := [];
      TypedNothing(was, width);
      var j, k := 0, 0;
      assert text[0..] == text && args[0..] == args;
      while fmt[j] != 0
        invariant 0 <= j <= |text| && 0 <= k <= |args|
        invariant Fits(text[j..], args[k..])
        invariant Format(text, args) == emitted + Format(text[j..], args[k..])
        invariant Valid() && View() == Typed(was, width, emitted)
        decreases |text| - j
      {
        var w, n := Width(fmt[j..]), Arity(fmt[j..]);
        StepStays(fmt, j, args[k..]);
        PutPiece(fmt[j..], args[k..]);
        ghost var piece := Piece(text[j..], args[k..]);
        TypedConcat(was, width, emitted, piece);
        assert text[j..][w..] == text[j + w..] && args[k..][n..] == args[k + n..];
        ghost var rest := Format(text[j + w..], args[k + n..]);
        assert emitted + (piece + rest) == emitted + piece + rest;
        emitted := emitted + piece;
        j := j + w;
        k := k + n;
      }
      assert emitted + Format([], []) == emitted;
    }
  }

  /** The step at position `j` is decided by the string alone, not by what follows its end in memory. */
  lemma StepStays(fmt: seq<Byte>, j: nat, args: seq<Arg>)
    requires 0 in fmt && j < |CString(fmt)| && Fits(CString(fmt)[j..], args)
    ensures var text := CString(fmt)[j..];
            && 1 <= Width(fmt[j..]) == Width(text) <= |text| && Arity(fmt[j..]) == Arity(text) <= |args|
            && StepFits(text, args) && StepFits(fmt[j..], args)
            && Piece(fmt[j..], args) == Piece(text, args)
  {
    hide Conversion;
    var text := CString(fmt)[j..];
    assert text[0] == fmt[j..][0];
    if text[0] == PERCENT {
      assert text[1] == fmt[j..][1];
    }
  }

  function Reversed(s: seq<Byte>): seq<Byte> {
    if s == [] then [] else [s[|s| - 1]] + Reversed(s[..|s| - 1])
  }

  /** `u / base` */
  function Quotient(u: nat, base: Base): nat {
    u / base
  }

  /** `u % base` */
  function LastDigit(u: nat, base: Base): (d: nat)
    ensures d < base
  {
    u % base
  }

  lemma CollectStep(u: nat, base: Base, limit: nat, digits: seq<Byte>)
    requires u > 0 && limit > 0
    ensures Numeral(u, base, limit) + Reversed(digits)
            == Numeral(Quotient(u, base), base, limit - 1) + Reversed(digits + [DigitChar(LastDigit(u, base))])
  {
    hide Numeral;
    Unfold(u, base, limit);
    assert (digits + [DigitChar(u % base)])[..|digits|] == digits;
  }

  /** The digit loop of `sh_putint`: the buffer holds the digits, lowest first. */
  method CollectDigits(value: U32, base: Base, buffer: array<Byte>) returns (i: nat)
    requires buffer.Length == DIGIT_LIMIT + 1
    modifies buffer
    ensures i <= DIGIT_LIMIT && Numeral(value, base, DIGIT_LIMIT) == Reversed(buffer[..i])
  {
    var u: nat := value;
    i := 0;
    assert Reversed(buffer[..0]) == [];
    hide Quotient, LastDigit, Numeral, DigitChar, Reversed;
    while u != 0 && i < buffer.Length - 1
      invariant i <= DIGIT_LIMIT
      invariant Numeral(value, base, DIGIT_LIMIT) == Numeral(u, base, DIGIT_LIMIT - i) + Reversed(buffer[..i])
      decreases DIGIT_LIMIT - i
    {
      CollectStep(u, base, DIGIT_LIMIT - i, buffer[..i]);
      ghost var digits := buffer[..i];
      buffer[i] := DigitChar(LastDigit(u, base));
      assert buffer[..i + 1] == digits + [DigitChar(LastDigit(u, base))];
      u := Quotient(u, base);
      i := i + 1;
    }
    NumeralEnds(u, base, DIGIT_LIMIT - i);
  }

  lemma NumeralEnds(u: nat, base: Base, limit: nat)
    requires u == 0 || limit == 0
    ensures Numeral(u, base, limit) == []
  {
  }

  /** The next read of a rendering loop that has taken `n` bytes of `ring` so far. */
  method ReadChunk(s: Stream, buf: array<Byte>, ghost ring: Ring, ghost n: nat) returns (bytes: nat)
    requires ring.Valid() && n <= ring.count && s.View() == ring.Pop(n)
    requires buf.Length == RENDER_CHUNK && buf != s.data
    modifies s, buf
    ensures bytes <= RENDER_CHUNK && n + bytes <= ring.count
    ensures s.Valid() && s.View() == ring.Pop(n + bytes)
    ensures buf[..bytes] == ring.Queue()[n..n + bytes]
    ensures bytes == 0 <==> n == ring.count || ring.data[0] == NEWLINE
  {
    hide Ring.Queue, Ring.Pop, Ring.Delivers;
    PopMeaning(ring, n);
    bytes := s.Read(buf, RENDER_CHUNK);
    PopTwice(ring, n, bytes);
    PopMeaning(ring, n + bytes);
  }

  lemma ShowMore(s: Screen, width: nat, queue: seq<Byte>, n: nat, m: nat, color: Byte)
    requires 0 < width <= |s.cells| && n + m <= |queue|
    ensures s.PutAll(width, Colored(queue[..n], color)).PutAll(width, Colored(queue[n..n + m], color))
            == s.PutAll(width, Colored(queue[..n + m], color))
  {
    PutAllConcat(s, width, Colored(queue[..n], color), Colored(queue[n..n + m], color));
    assert Colored(queue[..n], color) + Colored(queue[n..n + m], color) == Colored(queue[..n + m], color);
  }

  /** A line feed moves the cursor at most to the end of the screen. */
  lemma LineFeedFits(cursor: nat, width: nat, height: nat)
    requires 0 < width && cursor < StartOf(height, width)
    ensures cursor % width <= cursor
    ensures cursor + (width - cursor % width) <= StartOf(height, width)
  {
    var row := Div(cursor, width);
    DivMod(cursor, width);
    if row >= height {
      MulMono(height, row, width);
    }
    RowFits(row, height, width);
  }

  /** Numbers contain no newline, so on an open stream they always reach the screen whole. */
  lemma NumbersAlwaysShow(s: State, width: nat, total: nat, err: Channel, value: I32, base: Base)
    requires Tracks(s, width, Open(total), err)
    ensures Typed(s, width, IntText(value, base)).screen
            == s.screen.PutAll(width, Colored(IntText(value, base), DEFAULT_COLOR))
  {
    hide IntText, Typed;
    var text := IntText(value, base);
    NoNewline(value, base);
    TypedShows(s, width, total, err, text, |text|);
    assert text[..|text|] == text;
  }

  lemma NoNewline(value: I32, base: Base)
    ensures NEWLINE !in IntText(value, base)
  {
    hide Numeral;
    NumeralHasNoNewline(Magnitude(value, base), base, DIGIT_LIMIT);
  }

  lemma {:induction false} NumeralHasNoNewline(u: nat, base: Base, limit: nat)
    ensures NEWLINE !in Numeral(u, base, limit)
    decreases limit
  {
    if u > 0 && limit > 0 {
      NumeralHasNoNewline(u / base, base, limit - 1);
    }
  }
}
