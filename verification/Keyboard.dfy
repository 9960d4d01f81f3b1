/** The keyboard driver: scan codes become characters, characters wait in a ring of 256 slots. */
module Keyboard {
  import opened Word32
  import opened KeyRing

  const EXTENDED: byte := 0xE0
  const LEFT_SHIFT: byte := 0x2A
  const RIGHT_SHIFT: byte := 0x36
  const LEFT_SHIFT_UP: byte := 0xAA
  const RIGHT_SHIFT_UP: byte := 0xB6

  /** `keymap`: the codes behind the table's end are 0. */
  const KEYMAP: seq<byte> :=
    [0, 27, 49, 50, 51, 52, 53, 54, 55, 56, 57, 48, 45, 61, 8, 9] +
    [113, 119, 101, 114, 116, 121, 117, 105, 111, 112, 91, 93, 10, 0, 97, 115] +
    [100, 102, 103, 104, 106, 107, 108, 59, 39, 96, 0, 92, 122, 120, 99, 118] +
    [98, 110, 109, 44, 46, 47, 0, 42, 0, 32]

  /** `keymap_shift` */
  const KEYMAP_SHIFT: seq<byte> :=
    [0, 27, 33, 64, 35, 36, 37, 94, 38, 42, 40, 41, 95, 43, 8, 9] +
    [81, 87, 69, 82, 84, 89, 85, 73, 79, 80, 123, 125, 10, 0, 65, 83] +
    [68, 70, 71, 72, 74, 75, 76, 58, 34, 126, 0, 124, 90, 88, 67, 86] +
    [66, 78, 77, 60, 62, 63, 0, 42, 0, 32]

  function Lookup(shift: bool, code: byte): byte
    requires code < 128
  {
    var map_ := if shift then KEYMAP_SHIFT else KEYMAP;
    if code as int < |map_| then map_[code] else 0
  }

  // ----- decoding -----

  datatype Decoder = Decoder(shift: bool, extended: bool)

  /** One scan code: the flags behind it and the character it types, if any. */
  function Decode(d: Decoder, code: byte): (Decoder, seq<byte>) {
    if code == EXTENDED then (d.(extended := true), [])
    else if d.extended then (d.(extended := false), [])
    else if code == LEFT_SHIFT || code == RIGHT_SHIFT then (d.(shift := true), [])
    else if code == LEFT_SHIFT_UP || code == RIGHT_SHIFT_UP then (d.(shift := false), [])
    else if code >= 128 then (d, [])
    else
      var c := Lookup(d.shift, code);
      (d, if c == 0 then [] else [c])
  }

  function DecodeAll(d: Decoder, codes: seq<byte>): (Decoder, seq<byte>)
    decreases |codes|
  {
    if codes == [] then (d, [])
    else
      var (d1, out) := Decode(d, codes[0]);
      var (d2, rest) := DecodeAll(d1, codes[1..]);
      (d2, out + rest)
  }

  /** The codes of ordinary keys: each 0xE0, and the first other code behind it, is left out. */
  function Ordinary(codes: seq<byte>, extended: bool): seq<byte>
    decreases |codes|
  {
    if codes == [] then []
    else if codes[0] == EXTENDED then Ordinary(codes[1..], true)
    else if extended then Ordinary(codes[1..], false)
    else [codes[0]] + Ordinary(codes[1..], false)
  }

  predicate ShiftCode(code: byte) { code in {LEFT_SHIFT, RIGHT_SHIFT, LEFT_SHIFT_UP, RIGHT_SHIFT_UP} }

  /** Shift is held after a stream of ordinary codes if the last shift code in it, if any, is a press. */
  function ShiftAfter(codes: seq<byte>, before: bool): bool
    decreases |codes|
  {
    if codes == [] then before
    else
      var last := codes[|codes| - 1];
      if ShiftCode(last) then last == LEFT_SHIFT || last == RIGHT_SHIFT else ShiftAfter(codes[..|codes| - 1], before)
  }

  /** What ordinary codes type: each press of a key on the map in force, nothing for shift codes and releases. */
  function Typed(codes: seq<byte>, before: bool): seq<byte>
    decreases |codes|
  {
    if codes == [] then []
    else
      var last := codes[|codes| - 1];
      var earlier := codes[..|codes| - 1];
      Typed(earlier, before) +
      if ShiftCode(last) || last >= 128 || Lookup(ShiftAfter(earlier, before), last) == 0 then []
      else [Lookup(ShiftAfter(earlier, before), last)]
  }

  lemma {:induction false} ShiftAfterCons(c: byte, codes: seq<byte>, before: bool)
    ensures ShiftAfter([c] + codes, before) == ShiftAfter(codes, ShiftAfter([c], before))
    decreases |codes|
  {
    if codes == [] {
      assert [c] + codes == [c];
    } else {
      assert ([c] + codes)[..|codes|] == [c] + codes[..|codes| - 1];
      ShiftAfterCons(c, codes[..|codes| - 1], before);
    }
  }

  lemma {:induction false} TypedCons(c: byte, codes: seq<byte>, before: bool)
    ensures Typed([c] + codes, before) == Typed([c], before) + Typed(codes, ShiftAfter([c], before))
    decreases |codes|
  {
    if codes == [] {
      assert [c] + codes == [c];
    } else {
      var earlier := codes[..|codes| - 1];
      assert ([c] + codes)[..|codes|] == [c] + earlier;
      ShiftAfterCons(c, earlier, before);
      TypedCons(c, earlier, before);
    }
  }

  /** The driver's flags and output over any stream are those of the ordinary codes in it. */
  lemma {:induction false} DecodingIgnoresExtended(d: Decoder, codes: seq<byte>)
    ensures var (e, out) := DecodeAll(d, codes);
            var plain := Ordinary(codes, d.extended);
            e.shift == ShiftAfter(plain, d.shift) && out == Typed(plain, d.shift)
    decreases |codes|
  {
    if codes != [] {
      var (d1, out) := Decode(d, codes[0]);
      DecodingIgnoresExtended(d1, codes[1..]);
      if codes[0] != EXTENDED && !d.extended {
        OneCode(d.shift, codes[0]);
        ShiftAfterCons(codes[0], Ordinary(codes[1..], false), d.shift);
        TypedCons(codes[0], Ordinary(codes[1..], false), d.shift);
      }
    }
  }

  lemma OneCode(shift: bool, code: byte)
    requires code != EXTENDED
    ensures var (d, out) := Decode(Decoder(shift, false), code);
            !d.extended && d.shift == ShiftAfter([code], shift) && out == Typed([code], shift)
  {
    assert [code][..0] == [];
    assert ShiftAfter([], shift) == shift && Typed([], shift) == [];
  }

  // ----- what can be typed -----

  /** The keys of a US keyboard that type the characters from 32 to 126. */
  const TYPED_BY: seq<byte> :=
    [57, 2, 40, 4, 5, 6, 8, 40, 10, 11, 9, 13, 51, 12, 52, 53] +
    [11, 2, 3, 4, 5, 6, 7, 8, 9, 10, 39, 39, 51, 13, 52, 53] +
    [3, 30, 48, 46, 32, 18, 33, 34, 35, 23, 36, 37, 38, 50, 49, 24] +
    [25, 16, 19, 31, 20, 22, 47, 17, 45, 21, 44, 26, 43, 27, 7, 12] +
    [41, 30, 48, 46, 32, 18, 33, 34, 35, 23, 36, 37, 38, 50, 49, 24] +
    [25, 16, 19, 31, 20, 22, 47, 17, 45, 21, 44, 26, 43, 27, 41]

  /** Escape, backspace, tab, newline and the printable characters. */
  predicate Typeable(c: byte) {
    c == 27 || c == 8 || c == 9 || c == 10 || 32 <= c <= 126
  }

  /** The characters that need shift: capitals, and the upper signs of the other keys. */
  predicate NeedsShift(c: byte) {
    || 65 <= c <= 90
    || 33 <= c <= 38 || 40 <= c <= 43 || c == 58 || c == 60 || 62 <= c <= 64
    || c == 94 || c == 95 || 123 <= c <= 126
  }

  function KeyOf(c: byte): byte
    requires Typeable(c)
  {
    if c == 27 then 1 else if c == 8 then 14 else if c == 9 then 15 else if c == 10 then 28 else TYPED_BY[c - 32]
  }

  /** Pressing and releasing the key of a character, between a press and a release of shift where it needs one. */
  function Strokes(c: byte): seq<byte>
    requires Typeable(c)
  {
    var key := KeyOf(c) % 128;
    if NeedsShift(c) then [LEFT_SHIFT, key, key + 128, LEFT_SHIFT_UP] else [key, key + 128]
  }

  function StrokesOf(text: seq<byte>): seq<byte>
    requires forall c :: c in text ==> Typeable(c)
    decreases |text|
  {
    if text == [] then [] else Strokes(text[0]) + StrokesOf(text[1..])
  }

  /** The maps say what is printed on the keys. */
  ghost predicate PrintedOn(c: byte)
    requires Typeable(c)
  {
    var key := KeyOf(c);
    0 < key < 64 && !ShiftCode(key) && Lookup(NeedsShift(c), key) == c
  }

  lemma PrintedFrom32(c: byte)
    requires 32 <= c < 48
    ensures PrintedOn(c)
  {}

  lemma PrintedFrom48(c: byte)
    requires 48 <= c < 64
    ensures PrintedOn(c)
  {}

  lemma PrintedFrom64(c: byte)
    requires 64 <= c < 80
    ensures PrintedOn(c)
  {}

  lemma PrintedFrom80(c: byte)
    requires 80 <= c < 96
    ensures PrintedOn(c)
  {}

  lemma PrintedFrom96(c: byte)
    requires 96 <= c < 112
    ensures PrintedOn(c)
  {}

  lemma PrintedFrom112(c: byte)
    requires 112 <= c <= 126
    ensures PrintedOn(c)
  {}

  lemma PrintedControls(c: byte)
    requires Typeable(c) && c < 32
    ensures PrintedOn(c)
  {}

  /** Every such character is printed on a key: with or without shift, the key types it. */
  lemma KeyTypes(c: byte)
    requires Typeable(c)
    ensures PrintedOn(c)
  {
    hide PrintedOn;
    if c < 32 {
      PrintedControls(c);
    } else if c < 48 {
      PrintedFrom32(c);
    } else if c < 64 {
      PrintedFrom48(c);
    } else if c < 80 {
      PrintedFrom64(c);
    } else if c < 96 {
      PrintedFrom80(c);
    } else if c < 112 {
      PrintedFrom96(c);
    } else {
      PrintedFrom112(c);
    }
  }

  /** Pressing the key of a character types it, letting it go types nothing. */
  lemma KeyDecodes(c: byte)
    requires Typeable(c)
    ensures KeyOf(c) < 64
    ensures var d := Decoder(NeedsShift(c), false);
            Decode(d, KeyOf(c)) == (d, [c]) && Decode(d, KeyOf(c) + 128) == (d, [])
  {
    hide KeyOf, NeedsShift, Lookup, Typeable;
    KeyTypes(c);
    assert c != 0 by { NotNul(c); }
  }

  lemma NotNul(c: byte)
    requires Typeable(c)
    ensures c != 0
  {}

  lemma ShiftDecodes(d: Decoder)
    requires !d.extended
    ensures Decode(d, LEFT_SHIFT) == (Decoder(true, false), [])
    ensures Decode(d, LEFT_SHIFT_UP) == (Decoder(false, false), [])
  {}

  /** One character typed. */
  lemma StrokesType(c: byte)
    requires Typeable(c)
    ensures DecodeAll(Decoder(false, false), Strokes(c)) == (Decoder(false, false), [c])
  {
    hide Decode, KeyOf, NeedsShift, Lookup, Typeable, DecodeAll;
    var idle, held := Decoder(false, false), Decoder(true, false);
    var key := KeyOf(c);
    KeyDecodes(c);
    PressAndRelease(Decoder(NeedsShift(c), false), key, c);
    if NeedsShift(c) {
      ShiftDecodes(idle);
      ShiftDecodes(held);
      OneCodeDecoded(idle, LEFT_SHIFT);
      OneCodeDecoded(held, LEFT_SHIFT_UP);
      var press: seq<byte> := [LEFT_SHIFT];
      DecodeConcat(idle, press, [key, key + 128]);
      DecodeConcat(idle, press + [key, key + 128], [LEFT_SHIFT_UP]);
      assert Strokes(c) == press + [key, key + 128] + [LEFT_SHIFT_UP];
      assert [] + [c] == [c] && [c] + [] == [c];
    }
  }

  lemma PressAndRelease(d: Decoder, key: byte, c: byte)
    requires key < 128 && Decode(d, key) == (d, [c]) && Decode(d, key + 128) == (d, [])
    ensures DecodeAll(d, [key, key + 128]) == (d, [c])
  {
    hide Decode;
    OneCodeDecoded(d, key);
    OneCodeDecoded(d, key + 128);
    DecodeConcat(d, [key], [key + 128]);
    assert [key] + [key + 128] == [key, key + 128];
  }

  lemma OneCodeDecoded(d: Decoder, code: byte)
    ensures DecodeAll(d, [code]) == Decode(d, code)
  {
    hide Decode;
    var (d1, out) := Decode(d, code);
    assert [code][1..] == [];
    assert out + [] == out;
  }

  lemma {:induction false} DecodeConcat(d: Decoder, xs: seq<byte>, ys: seq<byte>)
    ensures var (d1, out) := DecodeAll(d, xs);
            DecodeAll(d, xs + ys) == (DecodeAll(d1, ys).0, out + DecodeAll(d1, ys).1)
    decreases |xs|
  {
    hide Decode;
    if xs == [] {
      assert xs + ys == ys && [] + DecodeAll(d, ys).1 == DecodeAll(d, ys).1;
    } else {
      assert (xs + ys)[1..] == xs[1..] + ys;
      var (d1, out) := Decode(d, xs[0]);
      DecodeConcat(d1, xs[1..], ys);
      var (d2, rest) := DecodeAll(d1, xs[1..]);
      assert out + (rest + DecodeAll(d2, ys).1) == out + rest + DecodeAll(d2, ys).1;
    }
  }

  /** The driver decodes what a typist does: any text of such characters comes out as it was typed. */
  lemma {:induction false} TypingIsDecoded(text: seq<byte>)
    requires forall c :: c in text ==> Typeable(c)
    ensures DecodeAll(Decoder(false, false), StrokesOf(text)) == (Decoder(false, false), text)
    decreases |text|
  {
    hide Strokes, Typeable;
    if text != [] {
      StrokesType(text[0]);
      TypingIsDecoded(text[1..]);
      DecodeConcat(Decoder(false, false), Strokes(text[0]), StrokesOf(text[1..]));
      assert [text[0]] + text[1..] == text;
    }
  }

  /** So what the ring is given, in the words of the stream theorem, is the text. */
  lemma TypingIsTyped(text: seq<byte>)
    requires forall c :: c in text ==> Typeable(c)
    ensures Typed(Ordinary(StrokesOf(text), false), false) == text
  {
    hide StrokesOf, Ordinary, Typed, Typeable;
    TypingIsDecoded(text);
    DecodingIgnoresExtended(Decoder(false, false), StrokesOf(text));
  }

  /** Each letter's key types it in lower case, and with shift held in upper case. */
  lemma LettersAndShift(letter: byte)
    requires 97 <= letter <= 122
    ensures Decode(Decoder(false, false), KeyOf(letter)).1 == [letter]
    ensures Decode(Decoder(true, false), KeyOf(letter)).1 == [letter - 32]
  {
    hide Decode, KeyOf, NeedsShift;
    KeyDecodes(letter);
    KeyDecodes(letter - 32);
    assert !NeedsShift(letter) && NeedsShift(letter - 32) by { OnlyCapitals(letter); }
    if letter < 112 { SameKeyUpTo111(letter); } else { SameKeyFrom112(letter); }
  }

  lemma OnlyCapitals(letter: byte)
    requires 97 <= letter <= 122
    ensures !NeedsShift(letter) && NeedsShift(letter - 32)
  {}

  lemma SameKeyUpTo111(letter: byte)
    requires 97 <= letter < 112
    ensures KeyOf(letter) == KeyOf(letter - 32)
  {}

  lemma SameKeyFrom112(letter: byte)
    requires 112 <= letter <= 122
    ensures KeyOf(letter) == KeyOf(letter - 32)
  {}

  /** The remaining keys: escape, backspace, tab, enter and space with shift, the keypad's star, and the silent ones. */
  lemma OtherKeys(shift: bool, code: byte)
    requires code < 128
    ensures Lookup(true, 1) == 27 && Lookup(true, 14) == 8 && Lookup(true, 15) == 9
    ensures Lookup(true, 28) == 10 && Lookup(true, 57) == 32 && Lookup(shift, 55) == 42
    ensures code == 0 || code == 29 || code == 42 || code == 54 || code == 56 || code >= 58 ==> Lookup(shift, code) == 0
  {}

  /** Without a press of shift no stream of scan codes types a capital. */
  lemma {:induction false} NoCapitalsWithoutShift(d: Decoder, codes: seq<byte>)
    requires !d.shift && 0x2A !in codes && 0x36 !in codes
    ensures forall c :: c in DecodeAll(d, codes).1 ==> !(65 <= c <= 90)
    decreases |codes|
  {
    if codes != [] {
      PlainCode(d, codes[0]);
      hide Decode;
      var (d1, out) := Decode(d, codes[0]);
      NoCapitalsWithoutShift(d1, codes[1..]);
    }
  }

  lemma PlainCode(d: Decoder, code: byte)
    requires !d.shift && code != 0x2A && code != 0x36
    ensures var (d1, out) := Decode(d, code); !d1.shift && forall c :: c in out ==> !(65 <= c <= 90)
  {}

  // ----- from scan codes to the reader -----

  /** What the ring keeps of characters that nobody reads: the first 255. */
  function Kept(q: seq<byte>): seq<byte> {
    if |q| < SIZE then q else q[..SIZE - 1]
  }

  lemma KeptTwice(q: seq<byte>, xs: seq<byte>, ys: seq<byte>)
    ensures Kept(Kept(q + xs) + ys) == Kept(q + (xs + ys))
  {
    assert q + (xs + ys) == (q + xs) + ys;
    if |q + xs| >= SIZE {
      assert (q + xs + ys)[..SIZE - 1] == (q + xs)[..SIZE - 1] == (Kept(q + xs) + ys)[..SIZE - 1];
    }
  }

  /** The keyboard sends a scan code, or the reader takes one of its steps. */
  datatype Input = Scan(code: byte) | ReaderStep

  function Codes(inputs: seq<Input>): seq<byte>
    decreases |inputs|
  {
    if inputs == [] then [] else (if inputs[0].Scan? then [inputs[0].code] else []) + Codes(inputs[1..])
  }

  /** The same as events of the ring: a scan code pushes the character it types, if any. */
  function RingEvents(d: Decoder, inputs: seq<Input>): seq<Event>
    decreases |inputs|
  {
    if inputs == [] then []
    else if inputs[0].ReaderStep? then [ConsumerStep] + RingEvents(d, inputs[1..])
    else
      var (d1, out) := Decode(d, inputs[0].code);
      (if out == [] then [] else [Key(out[0])]) + RingEvents(d1, inputs[1..])
  }

  lemma AtMostOne(d: Decoder, code: byte)
    ensures var out := Decode(d, code).1; out == [] || out == [out[0]]
  {}

  lemma {:induction false} EventsTypeCodes(d: Decoder, inputs: seq<Input>)
    ensures KeyRing.Pressed(RingEvents(d, inputs)) == DecodeAll(d, Codes(inputs)).1
    decreases |inputs|
  {
    hide Decode;
    if inputs != [] {
      var rest := inputs[1..];
      if inputs[0].ReaderStep? {
        EventsTypeCodes(d, rest);
        PressedFirst(RingEvents(d, inputs));
        assert Codes(inputs) == Codes(rest);
        assert RingEvents(d, inputs)[1..] == RingEvents(d, rest);
      } else {
        var (d1, out) := Decode(d, inputs[0].code);
        AtMostOne(d, inputs[0].code);
        EventsTypeCodes(d1, rest);
        CodesFirst(d, inputs[0].code, Codes(rest));
        assert Codes(inputs) == [inputs[0].code] + Codes(rest);
        if out == [] {
          assert RingEvents(d, inputs) == RingEvents(d1, rest);
          assert out + DecodeAll(d1, Codes(rest)).1 == DecodeAll(d1, Codes(rest)).1;
        } else {
          PressedFirst(RingEvents(d, inputs));
          assert RingEvents(d, inputs)[1..] == RingEvents(d1, rest);
          assert KeyRing.Pressed([Key(out[0])]) == [out[0]] == out;
        }
      }
    }
  }

  lemma CodesFirst(d: Decoder, code: byte, codes: seq<byte>)
    ensures var (d1, out) := Decode(d, code);
            DecodeAll(d, [code] + codes) == (DecodeAll(d1, codes).0, out + DecodeAll(d1, codes).1)
  {
    assert ([code] + codes)[1..] == codes;
  }

  /**
   From `keyboard_init` on, scan codes arriving between any two steps of the reader:
   what has been read, then what waits, is in order, and as long as fewer than 256
   characters are typed it is exactly what the ordinary codes type.
   */
  lemma CodesReachReader(slots: seq<byte>, inputs: seq<Input>)
    requires |slots| == SIZE
    ensures var t := HappenAll(Empty(slots), RingEvents(Decoder(false, false), inputs));
            var typed := Typed(Ordinary(Codes(inputs), false), false);
            && t.popped + Queue(t.ring) == t.accepted && |t.accepted| <= |typed|
            && (|typed| < SIZE ==> t.accepted == typed)
  {
    hide Queue, Decode, RingEvents, Ordinary, Typed;
    NothingLostFromInit(slots, RingEvents(Decoder(false, false), inputs));
    EventsTypeCodes(Decoder(false, false), inputs);
    DecodingIgnoresExtended(Decoder(false, false), Codes(inputs));
  }

  // ----- the driver -----

  class Driver {
    const keyBuffer: array<byte>
    var bufHead: nat
    var bufTail: nat
    var shiftPressed: bool
    var extendedScancode: bool

    ghost predicate Valid()
      reads this
    {
      keyBuffer.Length == SIZE && bufHead < SIZE && bufTail < SIZE
    }

    /** The ring between two runs of the consumer. */
    ghost function View(): Ring
      reads this, keyBuffer
    {
      Ring(keyBuffer[..], bufHead, bufTail, Waiting)
    }

    ghost function Flags(): Decoder
      reads this
    {
      Decoder(shiftPressed, extendedScancode)
    }

    constructor ()
      ensures Valid() && fresh(keyBuffer) && Queue(View()) == [] && Flags() == Decoder(false, false)
    {
      keyBuffer := new byte[SIZE](_ => 0);
      bufHead := 0;
      bufTail := 0;
      shiftPressed := false;
      extendedScancode := false;
    }

    method KeyboardInit()
      requires Valid()
      modifies this
      ensures Valid() && Queue(View()) == [] && Flags() == Decoder(false, false)
    {
      bufHead := 0;
      bufTail := 0;
      shiftPressed := false;
      extendedScancode := false;
    }

    method PushChar(c: byte)
      requires Valid()
      modifies this`bufTail, keyBuffer
      ensures Valid() && View() == Push(old(View()), c)
      ensures Queue(View()) == old(if |Queue(View())| < SIZE - 1 then Queue(View()) + [c] else Queue(View()))
    {
      PushAppends(View(), c);
      var next := (bufTail + 1) % 256;
      if next == bufHead {
        return;
      }
      keyBuffer[bufTail] := c;
      bufTail := next;
    }

    method KeyboardAvailable() returns (available: bool)
      requires Valid()
      ensures available <==> Queue(View()) != []
    {
      available := bufHead != bufTail;
    }

    /** The consumer's read and advance in one go, after a successful check. */
    method PopChar() returns (c: byte)
      requires Valid() && Queue(View()) != []
      modifies this`bufHead
      ensures Valid() && [c] + Queue(View()) == old(Queue(View()))
    {
      ThreeStepsPop(View());
      ghost var r := View();
      c := keyBuffer[bufHead];
      bufHead := (bufHead + 1) % 256;
      assert View() == Consume(Consume(Consume(r).0).0).0;
    }

    /** A run of interrupts that nobody reads: the ring holds the first 255 characters that the ordinary codes type. */
    method HandleScancodes(codes: seq<byte>)
      requires Valid()
      modifies this, keyBuffer
      ensures Valid() && Flags() == DecodeAll(old(Flags()), codes).0
      ensures Queue(View()) ==
              Kept(old(Queue(View())) + Typed(Ordinary(codes, old(extendedScancode)), old(shiftPressed)))
    {
      hide Decode, Typed, Ordinary, Kept, Queue;
      ghost var d, q := Flags(), Queue(View());
      assert codes[0..] == codes && codes[|codes|..] == [];
      DecodingIgnoresExtended(d, codes);
      FullQueue(View());
      assert q + [] == q;
      ghost var typed := [];
      for i := 0 to |codes|
        invariant Valid() && Queue(View()) == Kept(q + typed)
        invariant DecodeAll(Flags(), codes[i..]).0 == DecodeAll(d, codes).0
        invariant typed + DecodeAll(Flags(), codes[i..]).1 == DecodeAll(d, codes).1
      {
        assert codes[i..] == [codes[i]] + codes[i + 1..];
        CodesFirst(Flags(), codes[i], codes[i + 1..]);
        ghost var out := Decode(Flags(), codes[i]).1;
        KeyboardHandleScancode(codes[i]);
        KeptTwice(q, typed, out);
        typed := typed + out;
      }
      assert typed + [] == typed;
    }

    static lemma PushKeeps(r: Ring, c: byte)
      requires |r.slots| == SIZE && r.head < SIZE && r.tail < SIZE
      ensures Kept(Queue(r) + [c]) == if |Queue(r)| < SIZE - 1 then Queue(r) + [c] else Queue(r)
    {
      FullAt255(r);
      assert |Queue(r)| == SIZE - 1 ==> (Queue(r) + [c])[..SIZE - 1] == Queue(r);
    }

    static lemma FullQueue(r: Ring)
      requires |r.slots| == SIZE && r.head < SIZE && r.tail < SIZE
      ensures Kept(Queue(r)) == Queue(r)
    {
      FullAt255(r);
    }

    /** The interrupt handler's scan code. */
    method KeyboardHandleScancode(scancode: byte)
      requires Valid()
      modifies this, keyBuffer
      ensures Valid()
      ensures Flags() == Decode(old(Flags()), scancode).0
      ensures View() == old(var out := Decode(Flags(), scancode).1; if out == [] then View() else Push(View(), out[0]))
      ensures Queue(View()) == Kept(old(Queue(View())) + Decode(old(Flags()), scancode).1)
    {
      hide Queue, Kept;
      FullQueue(View());
      assert Queue(View()) + [] == Queue(View());
      if scancode == EXTENDED {
        extendedScancode := true;
        return;
      }
      if extendedScancode {
        extendedScancode := false;
        return;
      }
      if scancode == 0x2A || scancode == 0x36 {
        shiftPressed := true;
        return;
      }
      if scancode == 0xAA || scancode == 0xB6 {
        shiftPressed := false;
        return;
      }
      if scancode >= 128 {
        return;
      }
      var c := Lookup(shiftPressed, scancode);
      if c != 0 {
        PushKeeps(View(), c);
        PushChar(c);
      }
    }
  }
}
