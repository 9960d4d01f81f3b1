/** The shell loop of the kernel: input buffer and screen kept in step. */
module Shell {
  import opened Word32
  import opened TextTape
  import opened LineEditing
  import VgaBuffer

  const INPUT_SIZE: nat := 1024

  /** What the loop prints before the next line is read. */
  const PROMPT: seq<byte> := [10, 62, 32]

  /** What a command does to the screen. */
  datatype Output = Text(cs: seq<byte>) | ClearScreen

  function ReplyView(v: View, outs: seq<Output>): (w: View)
    requires OnScreen(v)
    ensures OnScreen(w)
    decreases |outs|
  {
    if outs == [] then v else ReplyView(if outs[0].Text? then PutAllView(v, outs[0].cs) else CLEARED, outs[1..])
  }

  /** The same on the tape; clearing starts a new one. */
  function ReplyTape(t: Tape, outs: seq<Output>): Tape
    decreases |outs|
  {
    if outs == [] then t else ReplyTape(if outs[0].Text? then PutAll(t, outs[0].cs) else Tape([], 0), outs[1..])
  }

  /** A line as it is typed, and what the command prints. */
  datatype Line = Line(keys: seq<byte>, reply: seq<Output>)

  function LineView(v: View, line: Line): (w: View)
    requires OnScreen(v)
    ensures OnScreen(w)
  {
    PutAllView(ReplyView(PutAllView(PutAllView(v, Echo([], line.keys)), [NEWLINE]), line.reply), PROMPT)
  }

  function LineTape(t: Tape, line: Line): Tape {
    PutAll(ReplyTape(PutAll(PutAll(t, Echo([], line.keys)), [NEWLINE]), line.reply), PROMPT)
  }

  function SessionView(v: View, lines: seq<Line>): (w: View)
    requires OnScreen(v)
    ensures OnScreen(w)
    decreases |lines|
  {
    if lines == [] then v else SessionView(LineView(v, lines[0]), lines[1..])
  }

  function SessionTape(t: Tape, lines: seq<Line>): Tape
    decreases |lines|
  {
    if lines == [] then t else SessionTape(LineTape(t, lines[0]), lines[1..])
  }

  /** The lines a session hands to the commands. */
  function Handed(lines: seq<Line>): seq<seq<byte>>
    decreases |lines|
  {
    if lines == [] then [] else [Edit([], lines[0].keys)] + Handed(lines[1..])
  }

  lemma {:induction false} HandedAt(lines: seq<Line>)
    ensures |Handed(lines)| == |lines|
    ensures forall i :: 0 <= i < |lines| ==> Handed(lines)[i] == Edit([], lines[i].keys)
    decreases |lines|
  {
    hide Edit;
    if lines != [] { HandedAt(lines[1..]); }
  }

  lemma {:induction false} ReplyConcat(v: View, outs: seq<Output>, more: seq<Output>)
    requires OnScreen(v)
    ensures ReplyView(v, outs + more) == ReplyView(ReplyView(v, outs), more)
    decreases |outs|
  {
    hide PutAllView;
    if outs == [] {
      assert outs + more == more;
    } else {
      assert (outs + more)[1..] == outs[1..] + more;
      ReplyConcat(if outs[0].Text? then PutAllView(v, outs[0].cs) else CLEARED, outs[1..], more);
    }
  }

  /** Whatever was on the screen and whatever was printed before: behind a clear, the text stands on a blank screen. */
  lemma ClearForgets(v: View, outs: seq<Output>, cs: seq<byte>)
    requires OnScreen(v)
    ensures ReplyView(v, outs + [ClearScreen, Text(cs)]) ==
            PutAllView(View(seq(2000, _ => Cell(32, 0x0F)), 0, 0), cs)
  {
    hide PutAllView;
    ReplyConcat(v, outs, [ClearScreen, Text(cs)]);
    assert [ClearScreen, Text(cs)][1..] == [Text(cs)] && [Text(cs)][1..] == [];
    assert CLEARED.cells == seq(2000, _ => Cell(32, 0x0F));
    assert ReplyView(CLEARED, [Text(cs)]) == ReplyView(PutAllView(CLEARED, cs), []);
  }

  ghost predicate NoNewlines(lines: seq<Line>) {
    forall line :: line in lines ==> NEWLINE !in line.keys
  }

  class LineEditor {
    const screen: VgaBuffer.VGABuffer
    const input: array<byte>
    var length: nat

    ghost predicate Valid()
      reads this, screen
    {
      screen.Valid() && input.Length == INPUT_SIZE && length <= MAX_LENGTH
    }

    /** The text typed so far. */
    ghost function Text(): (text: seq<byte>)
      requires Valid()
      reads this, screen, input
      ensures |text| == length
    {
      input[..length]
    }

    constructor (screen: VgaBuffer.VGABuffer)
      requires screen.Valid()
      ensures Valid() && this.screen == screen && fresh(input) && Text() == []
    {
      this.screen := screen;
      input := new byte[INPUT_SIZE](_ => 0);
      length := 0;
    }

    /** One turn of the loop for a key other than the newline. */
    method HandleKey(c: byte)
      requires Valid() && c != NEWLINE && input != screen.buffer
      modifies this`length, input, screen, screen.buffer
      ensures Valid()
      ensures Text() == EditKey(old(Text()), c)
      ensures screen.Screen() == PutAllView(old(screen.Screen()), EchoKey(old(Text()), c))
    {
      hide PutView;
      ghost var v := screen.Screen();
      ghost var text := Text();
      if c == BACKSPACE {
        if length > 0 {
          length := length - 1;
          screen.Putchar(BACKSPACE);
          screen.Putchar(SPACE);
          screen.Putchar(BACKSPACE);
          PutThree(v, BACKSPACE, SPACE, BACKSPACE);
        }
        return;
      }
      if c >= 32 && c <= 126 && length < MAX_LENGTH {
        input[length] := c;
        length := length + 1;
        screen.Putchar(c);
        PutThree(v, c, c, c);
      }
    }

    static lemma PutThree(v: View, a: byte, b: byte, c: byte)
      requires OnScreen(v)
      ensures OnScreen(PutView(v, a)) && OnScreen(PutView(PutView(v, a), b))
      ensures PutAllView(v, [a, b, c]) == PutView(PutView(PutView(v, a), b), c)
      ensures PutAllView(v, [a]) == PutView(v, a)
    {
      hide PutView;
      PutStaysOnScreen(v, a);
      PutStaysOnScreen(PutView(v, a), b);
      PutStaysOnScreen(PutView(PutView(v, a), b), c);
      assert [a, b, c][1..] == [b, c] && [b, c][1..] == [c] && [c][1..] == [] && [a][1..] == [];
      var v1 := PutView(v, a);
      var v2 := PutView(v1, b);
      assert PutAllView(v, [a, b, c]) == PutAllView(v1, [b, c]);
      assert PutAllView(v1, [b, c]) == PutAllView(v2, [c]);
      assert PutAllView(v2, [c]) == PutAllView(PutView(v2, c), []);
      assert PutAllView(v, [a]) == PutAllView(v1, []);
    }

    /** The loop over keys up to the next newline. */
    method HandleKeys(keys: seq<byte>)
      requires Valid() && input != screen.buffer && NEWLINE !in keys
      modifies this`length, input, screen, screen.buffer
      ensures Valid()
      ensures Text() == Edit(old(Text()), keys)
      ensures screen.Screen() == PutAllView(old(screen.Screen()), Echo(old(Text()), keys))
    {
      hide EditKey, EchoKey, PutView, Edit, Echo, PutAllView;
      ghost var v := screen.Screen();
      ghost var text := Text();
      assert keys[0..] == keys;
      for i := 0 to |keys|
        invariant Valid()
        invariant Edit(Text(), keys[i..]) == Edit(text, keys)
        invariant PutAllView(screen.Screen(), Echo(Text(), keys[i..])) == PutAllView(v, Echo(text, keys))
      {
        EditStep(Text(), keys, i);
        PutAllViewConcat(screen.Screen(), EchoKey(Text(), keys[i]), Echo(EditKey(Text(), keys[i]), keys[i + 1..]));
        HandleKey(keys[i]);
      }
      EditEnds(Text(), screen.Screen(), keys);
    }

    static lemma EditEnds(text: seq<byte>, v: View, keys: seq<byte>)
      requires OnScreen(v)
      ensures Edit(text, keys[|keys|..]) == text && PutAllView(v, Echo(text, keys[|keys|..])) == v
    {}

    static lemma {:induction false} PutAllViewConcat(v: View, xs: seq<byte>, ys: seq<byte>)
      requires OnScreen(v)
      ensures PutAllView(v, xs + ys) == PutAllView(PutAllView(v, xs), ys)
      decreases |xs|
    {
      hide PutView;
      if xs == [] {
        assert xs + ys == ys;
      } else {
        assert (xs + ys)[1..] == xs[1..] + ys;
        PutStaysOnScreen(v, xs[0]);
        PutAllViewConcat(PutView(v, xs[0]), xs[1..], ys);
      }
    }

    /** What a command prints or clears. */
    method Reply(outs: seq<Output>)
      requires Valid()
      modifies screen, screen.buffer
      ensures Valid() && screen.Screen() == ReplyView(old(screen.Screen()), outs)
    {
      hide PutView, PutAllView;
      ghost var v := screen.Screen();
      assert outs[0..] == outs && outs[|outs|..] == [];
      for i := 0 to |outs|
        invariant Valid() && ReplyView(screen.Screen(), outs[i..]) == ReplyView(v, outs)
      {
        assert outs[i..][0] == outs[i] && outs[i..][1..] == outs[i + 1..];
        match outs[i]
        case Text(cs) => screen.Print(cs);
        case ClearScreen => screen.Clear();
      }
    }

    /** The newline: the line is closed with a zero byte and handed over to a command. */
    method Enter(reply: seq<Output>) returns (line: seq<byte>)
      requires Valid() && input != screen.buffer
      modifies this`length, input, screen, screen.buffer
      ensures Valid() && Text() == []
      ensures line == old(Text()) && input[old(length)] == 0 && input[..old(length)] == line
      ensures screen.Screen() == PutAllView(ReplyView(PutAllView(old(screen.Screen()), [NEWLINE]), reply), PROMPT)
    {
      hide PutView, ReplyView;
      ghost var v := screen.Screen();
      line := input[..length];
      input[length] := 0;
      screen.Putchar(NEWLINE);
      PutThree(v, NEWLINE, NEWLINE, NEWLINE);
      Reply(reply);
      screen.Print(PROMPT);
      length := 0;
    }

    /** One line: the keys up to the newline, and the newline. */
    method HandleLine(line: Line) returns (text: seq<byte>)
      requires Valid() && input != screen.buffer && NEWLINE !in line.keys && Text() == []
      modifies this`length, input, screen, screen.buffer
      ensures Valid() && Text() == [] && text == Edit([], line.keys)
      ensures screen.Screen() == LineView(old(screen.Screen()), line)
    {
      hide PutView, PutAllView, ReplyView, Edit, Echo;
      HandleKeys(line.keys);
      text := Enter(line.reply);
    }

    /** The shell loop over any number of lines. */
    method Session(lines: seq<Line>) returns (handed: seq<seq<byte>>)
      requires Valid() && input != screen.buffer && NoNewlines(lines) && Text() == []
      modifies this`length, input, screen, screen.buffer
      ensures Valid() && Text() == [] && handed == Handed(lines)
      ensures |handed| == |lines| && forall i :: 0 <= i < |lines| ==> handed[i] == Edit([], lines[i].keys)
      ensures screen.Screen() == SessionView(old(screen.Screen()), lines)
    {
      hide LineView, Edit;
      ghost var v := screen.Screen();
      assert lines[0..] == lines && lines[|lines|..] == [];
      handed := [];
      for i := 0 to |lines|
        invariant Valid() && Text() == []
        invariant SessionView(screen.Screen(), lines[i..]) == SessionView(v, lines)
        invariant handed + Handed(lines[i..]) == Handed(lines)
      {
        assert lines[i..][0] == lines[i] && lines[i..][1..] == lines[i + 1..];
        var text := HandleLine(lines[i]);
        handed := handed + [text];
      }
      HandedAt(lines);
    }
  }

  lemma {:induction false} ReplyRefines(v: View, t: Tape, outs: seq<Output>)
    requires Shows(v, t)
    ensures Shows(ReplyView(v, outs), ReplyTape(t, outs))
    decreases |outs|
  {
    hide Shows, PutAllView, PutAll;
    OnScreenOf(v, t);
    if outs != [] {
      if outs[0].Text? {
        RunRefines(v, t, outs[0].cs);
        ReplyRefines(PutAllView(v, outs[0].cs), PutAll(t, outs[0].cs), outs[1..]);
      } else {
        ClearedShowsEmpty();
        ReplyRefines(CLEARED, Tape([], 0), outs[1..]);
      }
    }
  }

  lemma LineRefines(v: View, t: Tape, line: Line)
    requires Shows(v, t)
    ensures Shows(LineView(v, line), LineTape(t, line))
  {
    hide Shows, PutAllView, PutAll, ReplyView, ReplyTape, Echo;
    OnScreenOf(v, t);
    var v1, t1 := PutAllView(v, Echo([], line.keys)), PutAll(t, Echo([], line.keys));
    RunRefines(v, t, Echo([], line.keys));
    RunRefines(v1, t1, [NEWLINE]);
    var v2, t2 := PutAllView(v1, [NEWLINE]), PutAll(t1, [NEWLINE]);
    ReplyRefines(v2, t2, line.reply);
    RunRefines(ReplyView(v2, line.reply), ReplyTape(t2, line.reply), PROMPT);
  }

  lemma {:induction false} SessionRefines(v: View, t: Tape, lines: seq<Line>)
    requires Shows(v, t)
    ensures Shows(SessionView(v, lines), SessionTape(t, lines))
    decreases |lines|
  {
    hide Shows, LineView, LineTape;
    OnScreenOf(v, t);
    if lines != [] {
      LineRefines(v, t, lines[0]);
      SessionRefines(LineView(v, lines[0]), LineTape(t, lines[0]), lines[1..]);
    }
  }

  /**
   Between two newlines, whatever the keys: the input buffer holds the edited text,
   and the screen, which showed the tape `start` when the prompt was printed, shows
   that tape followed by exactly this text.
   */
  lemma ScreenAgrees(v: View, start: Tape, keys: seq<byte>)
    requires Shows(v, start)
    ensures var t := PutAll(start, Echo([], keys));
            && Shows(PutAllView(v, Echo([], keys)), t)
            && Agrees(start, t, Edit([], keys))
  {
    RunRefines(v, start, Echo([], keys));
    assert start.text == start.text + Shown([]);
    EditingAgrees(start, start, [], keys);
  }

  /**
   The same in the middle of a session: after any lines, with commands that print or
   clear the screen, and whatever keys since the last newline, the screen shows the
   tape of the session followed by exactly the edited text.
   */
  lemma SessionAgrees(v: View, t: Tape, lines: seq<Line>, keys: seq<byte>)
    requires Shows(v, t)
    ensures var start := SessionTape(t, lines);
            var now := PutAll(start, Echo([], keys));
            && Shows(PutAllView(SessionView(v, lines), Echo([], keys)), now)
            && Agrees(start, now, Edit([], keys))
  {
    hide Shows, SessionView, SessionTape, PutAllView, PutAll, Echo, Edit, Agrees;
    OnScreenOf(v, t);
    SessionRefines(v, t, lines);
    ScreenAgrees(SessionView(v, lines), SessionTape(t, lines), keys);
  }
}
