/** The line editor of the shell loop as a value: the edited text and what is echoed to the screen. */
module LineEditing {
  import opened Word32
  import opened TextTape

  /** `length < 1023`: one byte of the input buffer is kept for the final zero. */
  const MAX_LENGTH: nat := 1023

  predicate Printable(c: byte) { 32 <= c <= 126 }

  /** One key on the text typed so far. */
  function EditKey(text: seq<byte>, key: byte): (r: seq<byte>)
    ensures |text| <= MAX_LENGTH ==> |r| <= MAX_LENGTH
  {
    if key == BACKSPACE then (if text == [] then text else text[..|text| - 1])
    else if Printable(key) && |text| < MAX_LENGTH then text + [key]
    else text
  }

  /** What the key prints: erase by backspace, space, backspace; echo a character that was taken. */
  function EchoKey(text: seq<byte>, key: byte): seq<byte> {
    if key == BACKSPACE then (if text == [] then [] else [BACKSPACE, SPACE, BACKSPACE])
    else if Printable(key) && |text| < MAX_LENGTH then [key]
    else []
  }

  function Edit(text: seq<byte>, keys: seq<byte>): (r: seq<byte>)
    ensures |text| <= MAX_LENGTH ==> |r| <= MAX_LENGTH
    decreases |keys|
  {
    if keys == [] then text else Edit(EditKey(text, keys[0]), keys[1..])
  }

  function Echo(text: seq<byte>, keys: seq<byte>): seq<byte>
    decreases |keys|
  {
    if keys == [] then [] else EchoKey(text, keys[0]) + Echo(EditKey(text, keys[0]), keys[1..])
  }

  /** One key of a longer input. */
  lemma EditStep(text: seq<byte>, keys: seq<byte>, i: nat)
    requires i < |keys|
    ensures Edit(text, keys[i..]) == Edit(EditKey(text, keys[i]), keys[i + 1..])
    ensures Echo(text, keys[i..]) == EchoKey(text, keys[i]) + Echo(EditKey(text, keys[i]), keys[i + 1..])
  {
    assert keys[i..][0] == keys[i] && keys[i..][1..] == keys[i + 1..];
  }

  function Shown(text: seq<byte>): (cells: seq<Cell>)
    ensures |cells| == |text|
  {
    seq(|text|, k requires 0 <= k < |text| => Cell(text[k], VGA_COLOR))
  }

  /**
   The tape behind the prompt holds exactly the edited text, and the window has not
   moved past the place where the editing began: the input spans fewer rows than
   the screen has.
   */
  ghost predicate Agrees(start: Tape, t: Tape, text: seq<byte>) {
    && InWindow(start) && InWindow(t)
    && |text| <= MAX_LENGTH
    && t.text == start.text + Shown(text)
    && start.base <= t.base
    && t.base * VGA_WIDTH <= |start.text|
  }

  lemma PrintAgrees(start: Tape, t: Tape, text: seq<byte>, key: byte)
    requires Agrees(start, t, text) && Printable(key) && |text| < MAX_LENGTH
    ensures Agrees(start, Put(t, key), text + [key])
  {
    assert Shown(text + [key]) == Shown(text) + [Cell(key, VGA_COLOR)];
    assert t.text + [Cell(key, VGA_COLOR)] == start.text + Shown(text + [key]);
  }

  /** Each erase undoes its echo exactly, across wraps and scrolls. */
  lemma EraseAgrees(start: Tape, t: Tape, text: seq<byte>)
    requires Agrees(start, t, text) && text != []
    ensures var e := Put(Put(Put(t, BACKSPACE), SPACE), BACKSPACE);
            Agrees(start, e, text[..|text| - 1]) && e.base == t.base && e.text == t.text[..|t.text| - 1]
  {
    var less := text[..|text| - 1];
    var t1 := Put(t, BACKSPACE);
    assert Shown(text)[..|text| - 1] == Shown(less);
    assert t1.text == start.text + Shown(less);
    var t2 := Put(t1, SPACE);
    assert t2.base == t.base && t2.text == t1.text + [BLANK];
    assert Put(t2, BACKSPACE).text == t1.text;
  }

  lemma PutAllThree(t: Tape, a: byte, b: byte, c: byte)
    ensures PutAll(t, [a, b, c]) == Put(Put(Put(t, a), b), c)
    ensures PutAll(t, [a]) == Put(t, a)
  {
    hide Put;
    assert [a, b, c][1..] == [b, c] && [b, c][1..] == [c] && [c][1..] == [] && [a][1..] == [];
    assert PutAll(t, [a, b, c]) == PutAll(Put(t, a), [b, c]);
    assert PutAll(Put(t, a), [b, c]) == PutAll(Put(Put(t, a), b), [c]);
    assert PutAll(Put(Put(t, a), b), [c]) == PutAll(Put(Put(Put(t, a), b), c), []);
    assert PutAll(t, [a]) == PutAll(Put(t, a), []);
  }

  lemma KeyAgrees(start: Tape, t: Tape, text: seq<byte>, key: byte)
    requires Agrees(start, t, text)
    ensures Agrees(start, PutAll(t, EchoKey(text, key)), EditKey(text, key))
  {
    hide Agrees, Put, Shown;
    PutAllThree(t, BACKSPACE, SPACE, BACKSPACE);
    PutAllThree(t, key, key, key);
    if key == BACKSPACE {
      if text != [] { EraseAgrees(start, t, text); }
    } else {
      AgreesLength(start, t, text);
      if Printable(key) && |text| < MAX_LENGTH { PrintAgrees(start, t, text, key); }
    }
  }

  lemma AgreesLength(start: Tape, t: Tape, text: seq<byte>)
    requires Agrees(start, t, text)
    ensures |text| <= MAX_LENGTH
  {}

  lemma {:induction false} PutAllConcat(t: Tape, xs: seq<byte>, ys: seq<byte>)
    ensures PutAll(t, xs + ys) == PutAll(PutAll(t, xs), ys)
    decreases |xs|
  {
    hide Put;
    if xs == [] {
      assert xs + ys == ys;
    } else {
      assert (xs + ys)[1..] == xs[1..] + ys;
      PutAllConcat(Put(t, xs[0]), xs[1..], ys);
    }
  }

  /** Between newlines: whatever keys are pressed, the screen behind the prompt shows exactly the edited text. */
  lemma {:induction false} EditingAgrees(start: Tape, t: Tape, text: seq<byte>, keys: seq<byte>)
    requires Agrees(start, t, text)
    ensures Agrees(start, PutAll(t, Echo(text, keys)), Edit(text, keys))
    decreases |keys|
  {
    hide Agrees, EchoKey, EditKey;
    if keys != [] {
      KeyAgrees(start, t, text, keys[0]);
      var t' := PutAll(t, EchoKey(text, keys[0]));
      PutAllConcat(t, EchoKey(text, keys[0]), Echo(EditKey(text, keys[0]), keys[1..]));
      EditingAgrees(start, t', EditKey(text, keys[0]), keys[1..]);
    }
  }

  // ----- the edited text in closed form -----

  /** The keys that still find room. */
  function Taken(text: seq<byte>, keys: seq<byte>): seq<byte>
    requires |text| <= MAX_LENGTH
  {
    if |keys| <= MAX_LENGTH - |text| then keys else keys[..MAX_LENGTH - |text|]
  }

  /** Typing printable keys appends them, up to 1023 characters in all; what does not fit is dropped. */
  lemma {:induction false} TypingAppends(text: seq<byte>, keys: seq<byte>)
    requires |text| <= MAX_LENGTH && forall k :: k in keys ==> Printable(k)
    ensures Edit(text, keys) == text + Taken(text, keys)
    decreases |keys|
  {
    if keys != [] {
      assert Printable(keys[0]) && keys[0] != BACKSPACE;
      var text' := EditKey(text, keys[0]);
      TypingAppends(text', keys[1..]);
      hide Printable;
      TakenStep(text, keys);
    }
  }

  /** One key: backspace drops the last character, the bytes from 32 to 126 are taken while there is room. */
  lemma OneKey(text: seq<byte>, key: byte)
    ensures Edit(text, [key]) ==
            if key == 8 then (if text == [] then text else text[..|text| - 1])
            else if 32 <= key <= 126 && |text| < 1023 then text + [key]
            else text
  {
    assert [key][1..] == [];
  }

  /** Whatever the keys, the text holds only bytes from 32 to 126, at most 1023 of them. */
  lemma {:induction false} TextIsPrintable(text: seq<byte>, keys: seq<byte>)
    requires |text| <= 1023 && forall c :: c in text ==> 32 <= c <= 126
    ensures |Edit(text, keys)| <= 1023 && forall c :: c in Edit(text, keys) ==> 32 <= c <= 126
    decreases |keys|
  {
    if keys != [] {
      KeyIsPrintable(text, keys[0]);
      TextIsPrintable(EditKey(text, keys[0]), keys[1..]);
    }
  }

  lemma KeyIsPrintable(text: seq<byte>, key: byte)
    requires forall c :: c in text ==> 32 <= c <= 126
    ensures forall c :: c in EditKey(text, key) ==> 32 <= c <= 126
  {
    forall c | c in EditKey(text, key) ensures 32 <= c <= 126 { assert c in text || c == key; }
  }

  /** Every text of such bytes can be entered, by typing it. */
  lemma TypedIsEntered(text: seq<byte>)
    requires |text| <= 1023 && forall c :: c in text ==> 32 <= c <= 126
    ensures Edit([], text) == text
  {
    TypingAppends([], text);
    assert [] + Taken([], text) == text;
  }

  lemma TakenStep(text: seq<byte>, keys: seq<byte>)
    requires |text| <= MAX_LENGTH && keys != []
    ensures if |text| < MAX_LENGTH then text + [keys[0]] + Taken(text + [keys[0]], keys[1..]) ==
            text + Taken(text, keys)
            else Taken(text, keys) == []
    ensures |text| == MAX_LENGTH ==> Taken(text, keys[1..]) == []
  {
    if |text| < MAX_LENGTH {
      TakenFirst(text, keys);
      hide Taken;
      var rest := Taken(text + [keys[0]], keys[1..]);
      assert text + [keys[0]] + rest == text + ([keys[0]] + rest);
    }
  }

  lemma TakenFirst(text: seq<byte>, keys: seq<byte>)
    requires |text| < MAX_LENGTH && keys != []
    ensures Taken(text, keys) == [keys[0]] + Taken(text + [keys[0]], keys[1..])
  {
    assert keys == [keys[0]] + keys[1..];
  }

  /** A character that fits, followed by a backspace, leaves no trace. */
  lemma BackspaceUndoes(text: seq<byte>, key: byte)
    requires |text| < MAX_LENGTH && Printable(key)
    ensures Edit(text, [key, BACKSPACE]) == text
  {
    assert [key, BACKSPACE][1..] == [BACKSPACE] && [BACKSPACE][1..] == [];
    assert Edit(text, [key, BACKSPACE]) == Edit(text + [key], [BACKSPACE]);
    assert Edit(text + [key], [BACKSPACE]) == Edit((text + [key])[..|text|], []);
    assert (text + [key])[..|text|] == text;
  }
}
