/**
 The text side of the calculator: reading "left op right" with a cursor into
 a NUL-terminated string, and printing an int32 through an 11-byte buffer.

 A C string is modelled by the characters in front of its terminator, so
 reading at the end of the text yields NUL.  Int arithmetic in the reader
 wraps at 32 bits.
 */
module CalcText {
  import opened Calc

  const NUL: char := '\0'

  predicate IsSpace(c: char) {
    c == ' ' || c == '\t' || c == '\n' || c == '\r'
  }

  predicate IsDigit(c: char) {
    '0' <= c <= '9'
  }

  predicate IsOperator(c: char) {
    c == '+' || c == '-' || c == '*' || c == '/'
  }

  function Wrap32(v: int): (r: int)
    ensures Int32(r)
    ensures Int32(v) ==> r == v
  {
    (v + 0x8000_0000) % 0x1_0000_0000 - 0x8000_0000
  }

  function DigitValue(c: char): (d: int)
    requires IsDigit(c)
    ensures 0 <= d < 10
  {
    c as int - '0' as int
  }

  // ---------- Numerals ----------

  predicate All(s: string, p: char -> bool) {
    forall i :: 0 <= i < |s| ==> p(s[i])
  }

  /** The number a string of digits denotes, without any bound. */
  function Number(ds: string): (n: nat)
    requires All(ds, IsDigit)
  {
    if ds == "" then 0 else Number(ds[..|ds| - 1]) * 10 + DigitValue(ds[|ds| - 1])
  }

  /** The same fold in 32-bit arithmetic, which is what the reader computes. */
  function Accumulated(ds: string): (n: int)
    requires All(ds, IsDigit)
  {
    if ds == "" then 0 else Wrap32(Accumulated(ds[..|ds| - 1]) * 10 + DigitValue(ds[|ds| - 1]))
  }

  /** Wrapping at every step is the same as wrapping once at the end. */
  lemma {:induction false} AccumulatedWrapsOnce(ds: string)
    requires All(ds, IsDigit)
    ensures Accumulated(ds) == Wrap32(Number(ds))
  {
    if ds == "" {
    } else {
      var front := ds[..|ds| - 1];
      AccumulatedWrapsOnce(front);
      WrapStep(Number(front), DigitValue(ds[|ds| - 1]));
    }
  }

  lemma WrapStep(n: int, d: int)
    ensures Wrap32(Wrap32(n) * 10 + d) == Wrap32(n * 10 + d)
  {
    WrapIs(n);
    var q := (n + 0x8000_0000) / 0x1_0000_0000;
    WrapShift(n * 10 + d, -10 * q);
  }

  lemma WrapIs(n: int)
    ensures Wrap32(n) == n - (n + 0x8000_0000) / 0x1_0000_0000 * 0x1_0000_0000
  {}

  lemma WrapShift(n: int, k: int)
    ensures Wrap32(n + k * 0x1_0000_0000) == Wrap32(n)
  {
    ModShift(n + 0x8000_0000, k);
  }

  lemma ModShift(n: int, k: int)
    ensures (n + k * 0x1_0000_0000) % 0x1_0000_0000 == n % 0x1_0000_0000
  {}

  lemma WrapNegated(n: int)
    ensures Wrap32(-Wrap32(n)) == Wrap32(-n)
  {
    WrapIs(n);
    WrapShift(-n, (n + 0x8000_0000) / 0x1_0000_0000);
  }

  // ---------- Reading, as functions of the text left to read ----------

  /** The length of the longest prefix of s whose characters all satisfy p. */
  function Span(s: string, p: char -> bool): (n: nat)
    ensures n <= |s|
    ensures forall i :: 0 <= i < n ==> p(s[i])
    ensures n < |s| ==> !p(s[n])
  {
    if s == "" || !p(s[0]) then 0 else 1 + Span(s[1..], p)
  }

  function Skipped(s: string): string {
    s[Span(s, IsSpace)..]
  }

  function Sign(t: string): int {
    if t != "" && t[0] == '-' then -1 else 1
  }

  function Unsigned(t: string): string {
    if t != "" && (t[0] == '-' || t[0] == '+') then t[1..] else t
  }

  datatype Token = Token(value: int, rest: string)

  function ReadDigits(u: string, sign: int): Option<Token> {
    var n := Span(u, IsDigit);
    if n == 0 then None else Some(Token(Wrap32(Accumulated(u[..n]) * sign), u[n..]))
  }

  function ReadInt(s: string): Option<Token> {
    var t := Skipped(s);
    ReadDigits(Unsigned(t), Sign(t))
  }

  datatype Expression = Expression(left: int, op: char, right: int)

  function ReadExpression(s: string): Option<Expression> {
    match ReadInt(s)
    case None => None
    case Some(l) =>
      var t := Skipped(l.rest);
      if t == "" || !IsOperator(t[0]) then None
      else
        match ReadInt(t[1..])
        case None => None
        case Some(r) =>
          if Skipped(r.rest) == "" then Some(Expression(l.value, t[0], r.value)) else None
  }

  // ---------- The grammar ----------

  datatype Numeral = Numeral(before: string, sign: string, digits: string) {
    predicate Proper() {
      All(before, IsSpace) && (sign == "" || sign == "-" || sign == "+") && digits != "" && All(digits, IsDigit)
    }

    function Spelling(): string {
      before + sign + digits
    }

    /** What is written, without any bound. */
    function TrueValue(): int
      requires Proper()
    {
      if sign == "-" then -(Number(digits) as int) else Number(digits)
    }

    /** What is read. */
    function Amount(): int
      requires Proper()
    {
      Wrap32(TrueValue())
    }
  }

  datatype Sentence = Sentence(left: Numeral, gap: string, op: char, right: Numeral, after: string) {
    predicate Proper() {
      left.Proper() && All(gap, IsSpace) && IsOperator(op) && right.Proper() && All(after, IsSpace)
    }

    function Spelling(): string {
      left.Spelling() + (gap + ([op] + (right.Spelling() + after)))
    }

    function Meaning(): Expression
      requires Proper()
    {
      Expression(left.Amount(), op, right.Amount())
    }
  }

  lemma SpanIs(a: string, b: string, p: char -> bool)
    requires All(a, p) && (b == "" || !p(b[0]))
    ensures Span(a + b, p) == |a| && (a + b)[..|a|] == a && (a + b)[|a|..] == b
  {
    var s := a + b;
    assert forall i :: 0 <= i < |a| ==> s[i] == a[i];
    assert b != "" ==> s[|a|] == b[0];
  }

  lemma ReadDigitsSpelled(ds: string, rest: string, sign: int)
    requires ds != "" && All(ds, IsDigit) && (rest == "" || !IsDigit(rest[0]))
    requires sign == 1 || sign == -1
    ensures ReadDigits(ds + rest, sign) == Some(Token(Wrap32(Number(ds) * sign), rest))
  {
    hide Number, Wrap32, Accumulated, Span;
    SpanIs(ds, rest, IsDigit);
    AccumulatedWrapsOnce(ds);
    WrapNegated(Number(ds));
  }

  lemma ReadIntSpelled(n: Numeral, rest: string)
    requires n.Proper() && (rest == "" || !IsDigit(rest[0]))
    ensures ReadInt(n.Spelling() + rest) == Some(Token(n.Amount(), rest))
  {
    hide Span, Wrap32, Number, Accumulated, ReadDigits;
    var u := n.digits + rest;
    var t := n.sign + u;
    Regroup(n.before, n.sign, n.digits, rest);
    assert u[0] == n.digits[0];
    SignedDigits(n.sign, u);
    hide Sign, Unsigned;
    SpanIs(n.before, t, IsSpace);
    ReadDigitsSpelled(n.digits, rest, Sign(t));
  }

  lemma SignedDigits(sign: string, u: string)
    requires (sign == "" || sign == "-" || sign == "+") && u != "" && IsDigit(u[0])
    ensures Unsigned(sign + u) == u && Sign(sign + u) == (if sign == "-" then -1 else 1)
    ensures !IsSpace((sign + u)[0])
  {
    if sign == "" {
      assert sign + u == u;
    } else {
      assert (sign + u)[1..] == u;
    }
  }

  /** Everything the grammar spells is read, and read as what it means. */
  lemma GrammarIsRead(e: Sentence)
    requires e.Proper()
    ensures ReadExpression(e.Spelling()) == Some(e.Meaning())
  {
    hide Span, Wrap32, Number, Accumulated, ReadInt, Numeral.Amount, Numeral.Spelling;
    var afterOp := e.right.Spelling() + e.after;
    var fromOp := [e.op] + afterOp;
    ReadIntSpelled(e.left, e.gap + fromOp);
    SpanIs(e.gap, fromOp, IsSpace);
    assert fromOp[1..] == afterOp;
    ReadIntSpelled(e.right, e.after);
    SpanIs(e.after, "", IsSpace);
    assert e.after + "" == e.after;
  }

  ghost predicate Spells(n: Numeral, s: string, rest: string) {
    n.Proper() && s == n.Spelling() + rest
  }

  lemma ReadIntSpells(s: string)
    requires ReadInt(s).Some?
    ensures exists n :: Spells(n, s, ReadInt(s).value.rest)
  {
    var k := Span(s, IsSpace);
    var n := DigitsSpell(s[..k], s[k..]);
    Cut(s, k);
    assert Spells(n, s, ReadInt(s).value.rest);
  }

  lemma DigitsSpell(before: string, t: string) returns (n: Numeral)
    requires All(before, IsSpace) && ReadDigits(Unsigned(t), Sign(t)).Some?
    ensures Spells(n, before + t, ReadDigits(Unsigned(t), Sign(t)).value.rest)
  {
    hide Span, Wrap32, Number, Accumulated, Sign;
    var u := Unsigned(t);
    var sign := if u == t then "" else [t[0]];
    var m := Span(u, IsDigit);
    n := Numeral(before, sign, u[..m]);
    Cut(u, m);
    assert t == sign + u;
    Regroup(before, sign, u[..m], u[m..]);
  }

  lemma Cut(s: string, k: nat)
    requires k <= |s|
    ensures s == s[..k] + s[k..]
  {}

  lemma Regroup(a: string, b: string, c: string, d: string)
    ensures a + b + c + d == a + (b + (c + d))
  {}

  /** The reader accepts exactly the texts the grammar spells. */
  lemma ReadsExactlyTheGrammar(text: string)
    ensures ReadExpression(text).Some? <==> exists e: Sentence :: e.Proper() && e.Spelling() == text
  {
    hide Span, Wrap32, Number, Accumulated, ReadInt, Numeral.Amount;
    if e: Sentence :| e.Proper() && e.Spelling() == text {
      GrammarIsRead(e);
    }
    if ReadExpression(text).Some? {
      ReadIntSpells(text);
      var rest := ReadInt(text).value.rest;
      var l :| Spells(l, text, rest);
      var t := Skipped(rest);
      ReadIntSpells(t[1..]);
      var after := ReadInt(t[1..]).value.rest;
      var r :| Spells(r, t[1..], after);
      var k := Span(rest, IsSpace);
      assert rest == rest[..k] + ([t[0]] + t[1..]);
      var e := Sentence(l, rest[..k], t[0], r, after);
      assert e.Proper() && e.Spelling() == text;
    }
  }

  // ---------- Printing ----------

  function Digit(d: int): (c: char)
    requires 0 <= d < 10
    ensures IsDigit(c) && DigitValue(c) == d
  {
    ('0' as int + d) as char
  }

  function Decimal(n: nat): (s: string)
    ensures s != "" && All(s, IsDigit)
  {
    if n < 10 then [Digit(n)] else Decimal(n / 10) + [Digit(n % 10)]
  }

  function IntText(v: int): string {
    if v < 0 then "-" + Decimal(-v) else Decimal(v)
  }

  lemma {:induction false} DecimalDenotes(n: nat)
    ensures Number(Decimal(n)) == n
  {
    if n < 10 {
      assert Decimal(n)[..0] == "";
    } else {
      DecimalDenotes(n / 10);
      var s := Decimal(n / 10) + [Digit(n % 10)];
      assert s[..|s| - 1] == Decimal(n / 10);
    }
  }

  /** A numeral without sign or leading zero. */
  predicate Canonical(s: string) {
    s != "" && All(s, IsDigit) && (s == "0" || s[0] != '0')
  }

  lemma {:induction false} DecimalIsCanonical(n: nat)
    ensures Canonical(Decimal(n)) && (Decimal(n) == "0" <==> n == 0)
  {
    if n >= 10 {
      DecimalIsCanonical(n / 10);
      assert Decimal(n)[0] == Decimal(n / 10)[0];
      assert |Decimal(n)| > 1;
    }
  }

  lemma {:induction false} CanonicalIsPositive(s: string)
    requires All(s, IsDigit) && s != "" && s[0] != '0'
    ensures Number(s) > 0
  {
    if |s| > 1 { CanonicalIsPositive(s[..|s| - 1]); }
  }

  /** There is one such numeral for each number. */
  lemma {:induction false} CanonicalIsDecimal(s: string)
    requires Canonical(s)
    ensures Decimal(Number(s)) == s
  {
    var front, last := s[..|s| - 1], s[|s| - 1];
    assert s == front + [last];
    DigitBack(last);
    if |s| == 1 {
      assert front == "";
    } else {
      CanonicalIsPositive(front);
      CanonicalIsDecimal(front);
      assert Number(s) / 10 == Number(front) && Number(s) % 10 == DigitValue(last);
    }
  }

  lemma DigitBack(c: char)
    requires IsDigit(c)
    ensures Digit(DigitValue(c)) == c
  {}

  /** What is printed: the one canonical numeral of the value, behind a minus if and only if it is negative. */
  lemma PrintedTextIs(v: int, s: string)
    ensures s == IntText(v) <==>
            if v < 0 then s != "" && s[0] == '-' && Canonical(s[1..]) && Number(s[1..]) == -v
            else Canonical(s) && Number(s) == v
  {
    hide Number, Decimal;
    var n: nat := if v < 0 then -v else v;
    DecimalIsCanonical(n);
    DecimalDenotes(n);
    if v < 0 {
      assert ("-" + Decimal(n))[1..] == Decimal(n);
      if s != "" && s[0] == '-' && Canonical(s[1..]) && Number(s[1..]) == -v {
        CanonicalIsDecimal(s[1..]);
        assert s == "-" + s[1..];
      }
    } else if Canonical(s) && Number(s) == v {
      CanonicalIsDecimal(s);
    }
  }

  function PowerOfTen(k: nat): (p: nat)
    ensures p > 0
  {
    if k == 0 then 1 else 10 * PowerOfTen(k - 1)
  }

  lemma {:induction false} DecimalLength(n: nat, k: nat)
    requires 0 < k && n < PowerOfTen(k)
    ensures |Decimal(n)| <= k
  {
    if n >= 10 {
      assert k > 1;
      DecimalLength(n / 10, k - 1);
    }
  }

  /**
   The parser undoes the printer: whatever the spacing, the printed operands
   around an operator are read back as they were.
   */
  lemma ParserUndoesPrinter(l: int, op: char, r: int, s0: string, s1: string, s2: string, s3: string)
    requires Int32(l) && Int32(r) && IsOperator(op)
    requires All(s0, IsSpace) && All(s1, IsSpace) && All(s2, IsSpace) && All(s3, IsSpace)
    ensures ReadExpression(s0 + IntText(l) + s1 + [op] + s2 + IntText(r) + s3) == Some(Expression(l, op, r))
  {
    hide Span, Wrap32, Number, Accumulated, ReadInt, ReadExpression, IntText, NumeralOf, Decimal;
    hide Numeral.Amount, Numeral.Spelling;
    var e := Sentence(NumeralOf(s0, l), s1, op, NumeralOf(s2, r), s3);
    NumeralOfDenotes(s0, l);
    NumeralOfDenotes(s2, r);
    GrammarIsRead(e);
    assert e.Spelling() == s0 + IntText(l) + s1 + [op] + s2 + IntText(r) + s3;
  }

  function NumeralOf(before: string, v: int): Numeral {
    if v < 0 then Numeral(before, "-", Decimal(-v)) else Numeral(before, "", Decimal(v))
  }

  lemma NumeralOfDenotes(before: string, v: int)
    requires Int32(v) && All(before, IsSpace)
    ensures NumeralOf(before, v).Proper() && NumeralOf(before, v).Amount() == v
    ensures NumeralOf(before, v).Spelling() == before + IntText(v)
  {
    DecimalDenotes(if v < 0 then -v else v);
  }

  /** No prefix of a numeral denotes more than the whole of it. */
  lemma {:induction false} PrefixesAreSmaller(ds: string, k: nat)
    requires All(ds, IsDigit) && k <= |ds|
    ensures Number(ds[..k]) <= Number(ds)
  {
    if k < |ds| {
      PrefixesAreSmaller(ds[..|ds| - 1], k);
      assert ds[..|ds| - 1][..k] == ds[..k];
    } else {
      assert ds[..k] == ds;
    }
  }

  /**
   On the way to a value of at most INT32_MAX the reader never leaves int32, so
   up to there nothing depends on what overflow does.
   */
  lemma NoStepOverflows(ds: string, k: nat)
    requires All(ds, IsDigit) && Number(ds) <= INT32_MAX && k < |ds|
    ensures Accumulated(ds[..k]) == Number(ds[..k])
    ensures Accumulated(ds[..k]) * 10 + DigitValue(ds[k]) == Number(ds[..k + 1]) <= INT32_MAX
  {
    PrefixesAreSmaller(ds, k);
    PrefixesAreSmaller(ds, k + 1);
    AccumulatedWrapsOnce(ds[..k]);
    assert ds[..k + 1][..k] == ds[..k];
  }

  // ---------- Reading what was written ----------

  /** The reader returns the value that is written if and only if that value fits int32. */
  lemma NumeralReadRight(n: Numeral, rest: string)
    requires n.Proper() && (rest == "" || !IsDigit(rest[0]))
    ensures ReadInt(n.Spelling() + rest) == Some(Token(n.TrueValue(), rest)) <==> Int32(n.TrueValue())
  {
    hide Number, Wrap32, Accumulated, ReadInt, Numeral.Spelling;
    ReadIntSpelled(n, rest);
  }

  /** An expression is read as it is written if and only if both operands fit int32. */
  lemma ExpressionReadRight(e: Sentence)
    requires e.Proper()
    ensures ReadExpression(e.Spelling()) == Some(Expression(e.left.TrueValue(), e.op, e.right.TrueValue())) <==>
            Int32(e.left.TrueValue()) && Int32(e.right.TrueValue())
  {
    hide Number, Wrap32, Accumulated, ReadExpression, Sentence.Spelling;
    GrammarIsRead(e);
  }

  /** The decimal text of any natural number, in range or not, is read as that number wrapped to 32 bits. */
  lemma TextIsReadWrapped(v: nat, op: char, w: nat)
    requires IsOperator(op)
    ensures ReadExpression(Decimal(v) + [op] + Decimal(w)) == Some(Expression(Wrap32(v), op, Wrap32(w)))
  {
    var e := Sentence(Numeral("", "", Decimal(v)), "", op, Numeral("", "", Decimal(w)), "");
    DecimalDenotes(v);
    DecimalDenotes(w);
    hide Number, Decimal, Accumulated, Wrap32, ReadExpression;
    GrammarIsRead(e);
    assert e.Spelling() == Decimal(v) + [op] + Decimal(w);
  }

  /** A text that is not read as it is written: 4294967297 (2^32 + 1) times 7 is read as 1 times 7. */
  lemma OverflowIsMisread()
    ensures Decimal(4294967297) == "4294967297"
    ensures ReadExpression("4294967297*7") == Some(Expression(1, '*', 7))
  {
    hide Decimal, ReadExpression;
    SomeDecimals();
    TextIsReadWrapped(4294967297, '*', 7);
    assert "4294967297" + ['*'] + "7" == "4294967297*7";
  }

  lemma SomeDecimals()
    ensures Decimal(7) == "7" && Decimal(4294967297) == "4294967297"
  {
    OneDigit(7);
    OneDigit(4);
    hide Decimal;
    OneMore(4, 2);
    OneMore(42, 9);
    OneMore(429, 4);
    OneMore(4294, 9);
    OneMore(42949, 6);
    OneMore(429496, 7);
    OneMore(4294967, 2);
    OneMore(42949672, 9);
    OneMore(429496729, 7);
  }

  lemma OneDigit(d: nat)
    requires d < 10
    ensures Decimal(d) == [Digit(d)]
  {}

  lemma OneMore(n: nat, d: nat)
    requires 0 < n && d < 10
    ensures Decimal(10 * n + d) == Decimal(n) + [Digit(d)]
  {}

  // ---------- Which characters count ----------

  /** Between two numerals exactly the four signs are taken for an operator. */
  lemma OperatorsAre(c: char)
    ensures ReadExpression("1" + [c] + "1").Some? <==> c in "+-*/"
  {
    hide Number, Wrap32, Accumulated, Span, ReadInt;
    var one := Numeral("", "", "1");
    var text := "1" + [c] + "1";
    if IsOperator(c) {
      var e := Sentence(one, "", c, one, "");
      hide ReadExpression;
      GrammarIsRead(e);
      assert e.Spelling() == text;
    } else if IsDigit(c) {
      var n := Numeral("", "", text);
      ReadIntSpelled(n, "");
      assert n.Spelling() + "" == text;
      SpanIs("", "", IsSpace);
    } else {
      ReadIntSpelled(one, [c] + "1");
      assert one.Spelling() + ([c] + "1") == text;
      if IsSpace(c) {
        SpanIs([c], "1", IsSpace);
      } else {
        SpanIs("", [c] + "1", IsSpace);
        assert "" + ([c] + "1") == [c] + "1";
      }
    }
  }

  /** In front of a numeral exactly four blanks are skipped; a sign or a digit belongs to the numeral. */
  lemma SpacesAre(c: char)
    ensures ReadExpression([c] + "1+1").Some? <==> c in " \t\n\r" || c in "+-" || '0' <= c <= '9'
  {
    hide ReadExpression;
    if c in " \t\n\r" || c in "+-" || '0' <= c <= '9' { LeadIsRead(c); } else { LeadIsRefused(c); }
  }

  lemma LeadIsRead(c: char)
    requires IsSpace(c) || IsDigit(c) || c == '+' || c == '-'
    ensures ReadExpression([c] + "1+1").Some?
  {
    hide ReadExpression, Number, Wrap32, Accumulated, Span;
    var n := if IsSpace(c) then Numeral([c], "", "1")
             else if IsDigit(c) then Numeral("", "", [c] + "1")
             else Numeral("", [c], "1");
    assert n.Spelling() == [c] + "1";
    var e := Sentence(n, "", '+', Numeral("", "", "1"), "");
    GrammarIsRead(e);
    assert e.Spelling() == [c] + "1+1";
  }

  lemma LeadIsRefused(c: char)
    requires !IsSpace(c) && !IsDigit(c) && c != '+' && c != '-'
    ensures ReadExpression([c] + "1+1").None?
  {
    hide Number, Wrap32, Accumulated, Span;
    var text := [c] + "1+1";
    assert text[0] == c && "" + text == text;
    SpanIs("", text, IsSpace);
    SpanIs("", text, IsDigit);
    assert ReadInt(text).None?;
  }

  // ---------- The cursor loops ----------

  function At(text: string, p: nat): char
    requires p <= |text|
  {
    if p < |text| then text[p] else NUL
  }

  method SkipSpaces(text: string, start: nat) returns (p: nat)
    requires start <= |text|
    ensures start <= p <= |text| && text[p..] == Skipped(text[start..])
  {
    hide Span;
    p := start;
    while At(text, p) != NUL && IsSpace(At(text, p))
      invariant start <= p <= |text|
      invariant forall i :: start <= i < p ==> IsSpace(text[i])
      decreases |text| - p
    {
      p := p + 1;
    }
    assert text[start..] == text[start..p] + text[p..];
    SpanIs(text[start..p], text[p..], IsSpace);
  }

  /** The digit loop of a numeral. */
  method ParseDigits(text: string, start: nat, sign: int) returns (p: nat, value: int)
    requires start < |text| && IsDigit(text[start])
    ensures start <= p <= |text|
    ensures ReadDigits(text[start..], sign) == Some(Token(value, text[p..]))
  {
    hide Span, Wrap32;
    p := start;
    var result := 0;
    while '0' <= At(text, p) && At(text, p) <= '9'
      invariant start <= p <= |text|
      invariant forall i :: start <= i < p ==> IsDigit(text[i])
      invariant result == Accumulated(text[start..p])
      invariant p == start ==> p < |text| && IsDigit(text[p])
      decreases |text| - p
    {
      assert text[start..p + 1][..p - start] == text[start..p];
      result := Wrap32(result * 10 + (At(text, p) as int - '0' as int));
      p := p + 1;
    }
    assert text[start..] == text[start..p] + text[p..];
    SpanIs(text[start..p], text[p..], IsDigit);
    value := Wrap32(result * sign);
  }

  method ParseIntToken(text: string, start: nat) returns (ok: bool, p: nat, value: int)
    requires start <= |text| && NUL !in text
    ensures start <= p <= |text|
    ensures ok == ReadInt(text[start..]).Some?
    ensures ok ==> ReadInt(text[start..]) == Some(Token(value, text[p..]))
  {
    hide Span, Wrap32, Accumulated;
    p := SkipSpaces(text, start);
    value := 0;
    var sign := 1;
    ghost var t := text[p..];
    if At(text, p) == '-' {
      sign := -1;
      p := p + 1;
    } else if At(text, p) == '+' {
      p := p + 1;
    }
    assert text[p..] == Unsigned(t) && sign == Sign(t);
    ok := '0' <= At(text, p) && At(text, p) <= '9';
    if ok {
      p, value := ParseDigits(text, p, sign);
    }
  }

  /**
   No args at all (the null pointer) is an error; otherwise the operands and
   the operator are those of ReadExpression.
   */
  method ParseExpression(args: Option<string>) returns (ok: bool, left: int, op: char, right: int)
    requires args.Some? ==> NUL !in args.value
    ensures ok == (args.Some? && ReadExpression(args.value).Some?)
    ensures ok ==> ReadExpression(args.value) == Some(Expression(left, op, right))
  {
    hide Span, ReadInt;
    ok, left, op, right := false, 0, NUL, 0;
    if args.None? {
      return;
    }
    var text := args.value;
    assert text[0..] == text;
    var found, p, l := ParseIntToken(text, 0);
    if !found {
      return;
    }
    left := l;
    p := SkipSpaces(text, p);
    if At(text, p) != '+' && At(text, p) != '-' && At(text, p) != '*' && At(text, p) != '/' {
      return;
    }
    op := At(text, p);
    assert text[p..][1..] == text[p + 1..];
    p := p + 1;
    found, p, right := ParseIntToken(text, p);
    if !found {
      return;
    }
    p := SkipSpaces(text, p);
    ok := At(text, p) == NUL;
  }

  function Reversed(s: string): (r: string) {
    if s == "" then "" else [s[|s| - 1]] + Reversed(s[..|s| - 1])
  }

  /** What the digit loop still has to write when it is down to n. */
  function Pending(n: nat): string {
    if n == 0 then "" else Decimal(n)
  }

  lemma PendingStep(n: nat, written: string)
    requires n > 0
    ensures |Pending(n)| == |Pending(n / 10)| + 1
    ensures Pending(n) + Reversed(written) == Pending(n / 10) + Reversed(written + [Digit(n % 10)])
  {
    var c := Digit(n % 10);
    PendingSplit(n);
    ReversedSnoc(written, c);
    hide Pending, Decimal, Reversed;
    Reassociate(Pending(n / 10), [c], Reversed(written));
  }

  lemma PendingSplit(n: nat)
    requires n > 0
    ensures Pending(n) == Pending(n / 10) + [Digit(n % 10)]
  {}

  lemma Reassociate(a: string, b: string, c: string)
    ensures a + b + c == a + (b + c)
  {}

  /** The digit loop: least significant first.  A uint32 has at most ten digits. */
  method FillDigits(buffer: array<char>, value: nat) returns (index: nat)
    requires buffer.Length == 11 && 0 < value < 0x1_0000_0000
    modifies buffer
    ensures index <= 10 && Reversed(buffer[..index]) == Decimal(value)
  {
    hide PowerOfTen, Decimal, Reversed;
    TenDigits(value);
    var number := value;
    index := 0;
    assert Reversed(buffer[..index]) == "" by {
      ReversedEmpty();
      assert buffer[..0] == "";
    }
    while number > 0
      invariant index + |Pending(number)| == |Pending(value)| <= 10
      invariant Pending(value) == Pending(number) + Reversed(buffer[..index])
      decreases number
    {
      ghost var was := buffer[..index];
      PendingStep(number, was);
      buffer[index] := Digit(number % 10);
      index := index + 1;
      assert buffer[..index] == was + [Digit(number % 10)];
      number := number / 10;
    }
  }

  lemma ReversedEmpty()
    ensures Reversed("") == ""
  {}

  lemma TenDigits(n: nat)
    requires n < 0x1_0000_0000
    ensures |Decimal(n)| <= 10
  {
    DecimalLength(n, 10);
  }

  lemma ReversedSnoc(s: string, c: char)
    ensures Reversed(s + [c]) == [c] + Reversed(s)
  {
    assert (s + [c])[..|s|] == s;
  }

  method EmitDigits(buffer: array<char>, count: nat) returns (output: string)
    requires count <= buffer.Length
    ensures output == Reversed(buffer[..count])
  {
    output := "";
    var index := count;
    while index > 0
      invariant 0 <= index <= count
      invariant output + Reversed(buffer[..index]) == Reversed(buffer[..count])
    {
      index := index - 1;
      ReversedSnoc(buffer[..index], buffer[index]);
      assert buffer[..index + 1] == buffer[..index] + [buffer[index]];
      output := output + [buffer[index]];
    }
  }

  /** Printing an int32: the digits go into the buffer backwards and come out forwards. */
  method PrintInt32(value: int) returns (output: string)
    requires Int32(value)
    ensures output == IntText(value)
  {
    if value == 0 {
      return "0";
    }
    hide Decimal, Reversed;
    var buffer := new char[11];
    var count := FillDigits(buffer, if value < 0 then -value else value);
    output := EmitDigits(buffer, count);
    if value < 0 {
      output := "-" + output;
    }
  }
}
