/** The format state machine of the logging printf, proved to render every format built from directives. */
module Formats {
  import opened Options
  import opened Numerals
  import opened Printers

  /** An argument, as a word or as the string it points to. */
  datatype Arg = Arg(word: nat, text: string)

  datatype Mode = Chars | FirstFmtChar | OtherFmtChar

  type Base = b: nat | 2 <= b <= 16 witness 10

  /** Everything alt_log_private_printf keeps while it walks the format; arg counts the arguments taken. */
  datatype State = State(out: string, mode: Mode, zero: bool, long: bool, base: Base, signed: bool, upper: bool,
                         before: int, after: int, arg: nat)

  function Word(a: Arg): nat {
    a.word % WORD
  }

  function IntegerText(s: State, a: Arg): string {
    IntText(Meaning(Word(a), s.signed), s.base, s.upper, s.zero, s.before)
  }

  /** The letter that ends a conversion; an unknown one takes no argument and prints nothing. */
  function Convert(s: State, c: char, args: nat -> Arg): State {
    var a := args(s.arg);
    match c
    case 'd' => Integer(s, a)
    case 'i' => Integer(s, a)
    case 'u' => Integer(s.(signed := false), a)
    case 'o' => Integer(s.(base := 8, signed := false), a)
    case 'x' => Integer(s.(base := 16, signed := false), a)
    case 'X' => Integer(s.(base := 16, signed := false, upper := true), a)
    case 'c' => s.(out := s.out + Repeat(' ', s.before - 1) + [CharOf(a)], arg := s.arg + 1)
    case 's' => s.(out := s.out + Repeat(' ', s.before - |a.text|) + a.text, arg := s.arg + 1)
    case _ => s
  }

  function CharOf(a: Arg): char {
    (a.word % 256) as char
  }

  function Integer(s: State, a: Arg): State {
    s.(out := s.out + IntegerText(s, a), arg := s.arg + 1)
  }

  function Other(s: State, c: char, args: nat -> Arg): State {
    if c == '.' then s.(after := 0)
    else if '0' <= c <= '9' then
      var d := (c - '0') as int;
      if s.after < 0 then s.(before := (if s.before < 0 then 0 else s.before * 10) + d)
      else s.(after := s.after * 10 + d)
    else if c == 'l' then s.(long := true)
    else Convert(s, c, args).(mode := Chars)
  }

  function Step(s: State, c: char, args: nat -> Arg): State {
    match s.mode
    case Chars =>
      if c == '%' then
        State(s.out, FirstFmtChar, false, false, 10, true, false, -1, -1, s.arg)
      else s.(out := s.out + [c])
    case FirstFmtChar =>
      if c == '0' then s.(zero := true, mode := OtherFmtChar)
      else if c == '%' then s.(out := s.out + [c], mode := Chars)
      else Other(s.(mode := OtherFmtChar), c, args)
    case OtherFmtChar => Other(s, c, args)
  }

  function Run(s: State, fmt: string, args: nat -> Arg): State {
    if fmt == "" then s else Step(Run(s, fmt[..|fmt| - 1], args), fmt[|fmt| - 1], args)
  }

  // ----- formats as directives -----

  datatype Conversion = ConvD | ConvI | ConvU | ConvO | ConvX | ConvUpperX | ConvC | ConvS

  datatype Directive =
    | Literal(c: char)
    | Percent
    | Field(zero: bool, width: Option<nat>, precision: Option<nat>, long: bool, conv: Conversion)

  function Letter(c: Conversion): char {
    match c
    case ConvD => 'd' case ConvI => 'i' case ConvU => 'u' case ConvO => 'o'
    case ConvX => 'x' case ConvUpperX => 'X' case ConvC => 'c' case ConvS => 's'
  }

  /** A width of zero can only be written after the zero flag. */
  predicate Writable(d: Directive) {
    match d
    case Literal(c) => c != '%'
    case Percent => true
    case Field(zero, width, _, _, _) => width == Some(0) ==> zero
  }

  function Number(n: Option<nat>): string {
    if n.Some? then Digits(n.value, 10, false) else ""
  }

  /** What follows the percent sign and the zero flag. */
  function Tail(width: Option<nat>, precision: Option<nat>, long: bool, conv: Conversion): string {
    Number(width)
    + ((if precision.Some? then "." + Number(precision) else "") + ((if long then "l" else "") + [Letter(conv)]))
  }

  function Text(d: Directive): string {
    match d
    case Literal(c) => [c]
    case Percent => "%%"
    case Field(zero, width, precision, long, conv) =>
      "%" + ((if zero then "0" else "") + Tail(width, precision, long, conv))
  }

  /** What a directive prints. */
  function Rendered(d: Directive, a: Arg): string {
    match d
    case Literal(c) => [c]
    case Percent => "%"
    case Field(zero, width, _, _, conv) =>
      var w: int := if width.Some? then width.value else -1;
      match conv
      case ConvC => Repeat(' ', w - 1) + [CharOf(a)]
      case ConvS => Repeat(' ', w - |a.text|) + a.text
      case ConvD => IntText(Meaning(Word(a), true), 10, false, zero, w)
      case ConvI => IntText(Meaning(Word(a), true), 10, false, zero, w)
      case ConvU => IntText(Word(a), 10, false, zero, w)
      case ConvO => IntText(Word(a), 8, false, zero, w)
      case ConvX => IntText(Word(a), 16, false, zero, w)
      case ConvUpperX => IntText(Word(a), 16, true, zero, w)
  }

  function TextAll(ds: seq<Directive>): string {
    if ds == [] then "" else TextAll(ds[..|ds| - 1]) + Text(ds[|ds| - 1])
  }

  /** The arguments taken by the directives, each field taking the next. */
  function Fields(ds: seq<Directive>): nat {
    if ds == [] then 0 else Fields(ds[..|ds| - 1]) + if ds[|ds| - 1].Field? then 1 else 0
  }

  function RenderedAll(ds: seq<Directive>, args: nat -> Arg, first: nat): string {
    if ds == [] then ""
    else
      var init := ds[..|ds| - 1];
      RenderedAll(init, args, first) + Rendered(ds[|ds| - 1], args(first + Fields(init)))
  }

  lemma {:induction false} RunAppend(s: State, a: string, b: string, args: nat -> Arg)
    ensures Run(s, a + b, args) == Run(Run(s, a, args), b, args)
    decreases |b|
  {
    if b == "" {
      assert a + b == a;
    } else {
      assert (a + b)[..|a + b| - 1] == a + b[..|b| - 1];
      RunAppend(s, a, b[..|b| - 1], args);
    }
  }

  lemma RunOne(s: State, c: char, args: nat -> Arg)
    ensures Run(s, [c], args) == Step(s, c, args)
  {
    assert [c][..0] == "";
  }

  lemma DigitStep(s: State, d: nat, args: nat -> Arg)
    requires s.mode == OtherFmtChar && d < 10
    ensures Step(s, DigitChar(d, false), args)
         == if s.after < 0 then s.(before := if s.before < 0 then d else s.before * 10 + d)
            else s.(after := s.after * 10 + d)
  {
  }

  /** The width digits build up exactly the width. */
  lemma {:induction false} RunWidth(s: State, n: nat, args: nat -> Arg)
    requires s.mode == OtherFmtChar && s.before == -1 && s.after < 0
    ensures Run(s, Digits(n, 10, false), args) == s.(before := n)
    decreases n
  {
    hide Step, Div, Mod, DigitChar, Run;
    if n < 10 {
      RunOne(s, DigitChar(n, false), args);
      DigitStep(s, n, args);
    } else {
      var q, r := Div(n, 10), Mod(n, 10);
      RunWidth(s, q, args);
      DivMod(n, 10);
      RunAppend(s, Digits(q, 10, false), [DigitChar(r, false)], args);
      RunOne(s.(before := q), DigitChar(r, false), args);
      DigitStep(s.(before := q), r, args);
    }
  }

  lemma {:induction false} RunPrecision(s: State, n: nat, args: nat -> Arg)
    requires s.mode == OtherFmtChar && s.after == 0
    ensures Run(s, Digits(n, 10, false), args) == s.(after := n)
    decreases n
  {
    hide Step, Div, Mod, DigitChar, Run;
    if n < 10 {
      RunOne(s, DigitChar(n, false), args);
      DigitStep(s, n, args);
    } else {
      var q, r := Div(n, 10), Mod(n, 10);
      RunPrecision(s, q, args);
      DivMod(n, 10);
      RunAppend(s, Digits(q, 10, false), [DigitChar(r, false)], args);
      RunOne(s.(after := q), DigitChar(r, false), args);
      DigitStep(s.(after := q), r, args);
    }
  }

  /** Directly after the percent sign a character other than '0' and '%' is treated as any later one. */
  lemma RunFirst(s: State, t: string, args: nat -> Arg)
    requires s.mode == FirstFmtChar && t != "" && t[0] != '0' && t[0] != '%'
    ensures Run(s, t, args) == Run(s.(mode := OtherFmtChar), t, args)
  {
    assert t == [t[0]] + t[1..];
    RunAppend(s, [t[0]], t[1..], args);
    RunAppend(s.(mode := OtherFmtChar), [t[0]], t[1..], args);
    RunOne(s, t[0], args);
    RunOne(s.(mode := OtherFmtChar), t[0], args);
  }

  // ----- one directive -----

  /** What the machine has collected when it reaches the letter. */
  function Collected(s: State, width: Option<nat>, precision: Option<nat>, long: bool): State {
    s.(before := if width.Some? then width.value else -1,
       after := if precision.Some? then precision.value else s.after, long := long)
  }

  /** From behind the flag to the letter. */
  lemma RunTail(s: State, width: Option<nat>, precision: Option<nat>, long: bool, conv: Conversion, args: nat -> Arg)
    requires s.mode == OtherFmtChar && s.before == -1 && s.after < 0 && !s.long
    ensures Run(s, Tail(width, precision, long, conv), args)
         == Step(Collected(s, width, precision, long), Letter(conv), args)
  {
    hide Run, Step, Digits;
    var e := [Letter(conv)];
    var l := (if long then "l" else "") + e;
    var p := (if precision.Some? then "." + Number(precision) else "") + l;
    var s1 := s.(before := if width.Some? then width.value else -1);
    RunAppend(s, Number(width), p, args);
    RunNumber(s, width, args);
    RunAppend(s1, if precision.Some? then "." + Number(precision) else "", l, args);
    RunDot(s1, precision, args);
    var s2 := s1.(after := if precision.Some? then precision.value else s1.after);
    RunAppend(s2, if long then "l" else "", e, args);
    RunLong(s2, long, args);
    RunOne(s2.(long := long), Letter(conv), args);
  }

  lemma RunNumber(s: State, width: Option<nat>, args: nat -> Arg)
    requires s.mode == OtherFmtChar && s.before == -1 && s.after < 0
    ensures Run(s, Number(width), args) == s.(before := if width.Some? then width.value else -1)
  {
    hide Step, Digits;
    if width.Some? {
      RunWidth(s, width.value, args);
    }
  }

  lemma RunDot(s: State, precision: Option<nat>, args: nat -> Arg)
    requires s.mode == OtherFmtChar
    ensures Run(s, if precision.Some? then "." + Number(precision) else "", args)
         == s.(after := if precision.Some? then precision.value else s.after)
  {
    hide Digits;
    if precision.Some? {
      RunAppend(s, ".", Number(precision), args);
      RunOne(s, '.', args);
      RunPrecision(s.(after := 0), precision.value, args);
    }
  }

  lemma RunLong(s: State, long: bool, args: nat -> Arg)
    requires s.mode == OtherFmtChar && !s.long
    ensures Run(s, if long then "l" else "", args) == s.(long := long)
  {
    if long {
      RunOne(s, 'l', args);
    }
  }

  /** The first character behind the percent sign of a field without zero flag starts neither of the other two
      cases. */
  lemma TailStarts(width: Option<nat>, precision: Option<nat>, long: bool, conv: Conversion)
    requires width != Some(0)
    ensures var t := Tail(width, precision, long, conv); t != "" && t[0] != '0' && t[0] != '%'
  {
    if width.Some? {
      FirstDigit(width.value, 10, false);
      NotPercent(width.value);
    }
  }

  lemma {:induction false} NotPercent(v: nat)
    ensures Digits(v, 10, false)[0] != '%'
    decreases v
  {
    if v >= 10 {
      NotPercent(Div(v, 10));
    }
  }

  /** What the letter does with the collected fields. */
  lemma ConvertRenders(s: State, d: Directive, args: nat -> Arg)
    requires d.Field? && s.mode == OtherFmtChar && s.base == 10 && s.signed && !s.upper && s.zero == d.zero
    requires s.before == if d.width.Some? then d.width.value else -1
    ensures var r := Step(s, Letter(d.conv), args);
      r.mode == Chars && r.out == s.out + Rendered(d, args(s.arg)) && r.arg == s.arg + 1
  {
    hide IntText, Repeat, Meaning, Word, CharOf, Step, Convert, Rendered;
    LetterConverts(s, d.conv, args);
    if d.conv == ConvC || d.conv == ConvS {
      TextRenders(s, d, args);
    } else if d.conv == ConvD || d.conv == ConvI {
      SignedRenders(s, d, args);
    } else {
      UnsignedRenders(s, d, args);
    }
  }

  lemma TextRenders(s: State, d: Directive, args: nat -> Arg)
    requires d.Field? && s.before == (if d.width.Some? then d.width.value else -1)
    requires d.conv == ConvC || d.conv == ConvS
    ensures var r := Convert(s, Letter(d.conv), args);
      r.out == s.out + Rendered(d, args(s.arg)) && r.arg == s.arg + 1
  {
    hide IntText, Repeat, Meaning, Word, CharOf;
    var w: int := if d.width.Some? then d.width.value else -1;
    var a := args(s.arg);
    Joined(s.out, Repeat(' ', w - 1), [CharOf(a)]);
    Joined(s.out, Repeat(' ', w - |a.text|), a.text);
  }

  lemma SignedRenders(s: State, d: Directive, args: nat -> Arg)
    requires d.Field? && s.before == (if d.width.Some? then d.width.value else -1) && s.zero == d.zero
    requires s.base == 10 && s.signed && !s.upper && (d.conv == ConvD || d.conv == ConvI)
    ensures var r := Convert(s, Letter(d.conv), args);
      r.out == s.out + Rendered(d, args(s.arg)) && r.arg == s.arg + 1
  {
    hide IntText, Repeat, Meaning, Word, CharOf;
  }

  lemma UnsignedRenders(s: State, d: Directive, args: nat -> Arg)
    requires d.Field? && s.before == (if d.width.Some? then d.width.value else -1) && s.zero == d.zero && !s.upper
    requires s.base == 10 && (d.conv == ConvU || d.conv == ConvO || d.conv == ConvX || d.conv == ConvUpperX)
    ensures var r := Convert(s, Letter(d.conv), args);
      r.out == s.out + Rendered(d, args(s.arg)) && r.arg == s.arg + 1
  {
    hide IntText, Repeat, Meaning, Word, CharOf;
    Unsigned(args(s.arg));
  }

  lemma LetterConverts(s: State, conv: Conversion, args: nat -> Arg)
    requires s.mode == OtherFmtChar
    ensures Step(s, Letter(conv), args) == Convert(s, Letter(conv), args).(mode := Chars)
  {
    hide Convert;
  }

  lemma Unsigned(a: Arg)
    ensures Meaning(Word(a), false) == Word(a)
  {
  }

  lemma RunField(s: State, d: Directive, args: nat -> Arg)
    requires s.mode == Chars && d.Field? && Writable(d)
    ensures var r := Run(s, Text(d), args);
      r.mode == Chars && r.out == s.out + Rendered(d, args(s.arg)) && r.arg == s.arg + 1
  {
    hide Rendered, Digits, Tail, Other, Run;
    var t := Tail(d.width, d.precision, d.long, d.conv);
    var s1 := State(s.out, FirstFmtChar, false, false, 10, true, false, -1, -1, s.arg);
    RunAppend(s, "%", (if d.zero then "0" else "") + t, args);
    RunOne(s, '%', args);
    var s2 := s1.(zero := d.zero, mode := OtherFmtChar);
    if d.zero {
      RunAppend(s1, "0", t, args);
      RunOne(s1, '0', args);
    } else {
      assert "" + t == t;
      TailStarts(d.width, d.precision, d.long, d.conv);
      RunFirst(s1, t, args);
    }
    assert Run(s, Text(d), args) == Run(s2, t, args);
    FinishField(s2, d, args);
  }

  lemma FinishField(s: State, d: Directive, args: nat -> Arg)
    requires d.Field? && s.mode == OtherFmtChar && s.base == 10 && s.signed && !s.upper && s.zero == d.zero
    requires s.before == -1 && s.after < 0 && !s.long
    ensures var r := Run(s, Tail(d.width, d.precision, d.long, d.conv), args);
      r.mode == Chars && r.out == s.out + Rendered(d, args(s.arg)) && r.arg == s.arg + 1
  {
    hide Rendered, Digits, Tail, Step, Run;
    RunTail(s, d.width, d.precision, d.long, d.conv, args);
    ConvertRenders(Collected(s, d.width, d.precision, d.long), d, args);
  }

  lemma RunDirective(s: State, d: Directive, args: nat -> Arg)
    requires s.mode == Chars && Writable(d)
    ensures var r := Run(s, Text(d), args);
      && r.mode == Chars && r.out == s.out + Rendered(d, args(s.arg))
      && r.arg == s.arg + if d.Field? then 1 else 0
  {
    match d
    case Literal(c) => RunOne(s, c, args);
    case Percent =>
      assert "%%" == "%" + "%";
      RunAppend(s, "%", "%", args);
      RunOne(s, '%', args);
      RunOne(Step(s, '%', args), '%', args);
    case Field(_, _, _, _, _) => RunField(s, d, args);
  }

  lemma Joined(a: string, b: string, c: string)
    ensures (a + b) + c == a + (b + c)
  {
  }

  lemma RunNothing(s: State, args: nat -> Arg)
    ensures Run(s, "", args) == s && s.out + "" == s.out
  {
  }

  /** Every format written from directives prints what the directives say, in order, each field with its own
      argument. */
  lemma {:induction false} FormatsRender(s: State, ds: seq<Directive>, args: nat -> Arg)
    requires s.mode == Chars && forall i | 0 <= i < |ds| :: Writable(ds[i])
    ensures var r := Run(s, TextAll(ds), args);
      r.mode == Chars && r.out == s.out + RenderedAll(ds, args, s.arg) && r.arg == s.arg + Fields(ds)
    decreases |ds|
  {
    hide Rendered, Text, Writable, Run;
    if ds != [] {
      var init, d := ds[..|ds| - 1], ds[|ds| - 1];
      FormatsRender(s, init, args);
      RunAppend(s, TextAll(init), Text(d), args);
      var r := Run(s, TextAll(init), args);
      RunDirective(r, d, args);
      Joined(s.out, RenderedAll(init, args, s.arg), Rendered(d, args(r.arg)));
    } else {
      RunNothing(s, args);
    }
  }

  // ----- the code -----

  const INITIAL: State := State("", Chars, false, false, 10, false, false, 0, 0, 0)

  /** alt_log_private_printf: walks the format once, printing as it goes. */
  method LogPrivatePrintf(port: Port, fmt: string, args: nat -> Arg)
    modifies port
    ensures port.out == Run(INITIAL.(out := old(port.out)), fmt, args).out
  {
    hide Run, Other;
    ghost var start := INITIAL.(out := port.out);
    var i, mode := 0, Chars;
    var zero, long, signed, upper := false, false, false, false;
    var base: Base, before: int, after: int, arg: nat := 10, 0, 0, 0;
    RunNothing(start, args);
    assert fmt[..0] == "";
    while i < |fmt|
      invariant 0 <= i <= |fmt|
      invariant Run(start, fmt[..i], args) == State(port.out, mode, zero, long, base, signed, upper, before, after, arg)
    {
      var c := fmt[i];
      ghost var s := State(port.out, mode, zero, long, base, signed, upper, before, after, arg);
      assert fmt[..i + 1] == fmt[..i] + [c];
      RunAppend(start, fmt[..i], [c], args);
      RunOne(s, c, args);
      var other := false;
      match mode {
        case Chars =>
          if c == '%' {
            zero, long, base, signed, upper, before, after := false, false, 10, true, false, -1, -1;
            mode := FirstFmtChar;
          } else {
            port.TxChar(c);
          }
        case FirstFmtChar =>
          if c == '0' {
            zero := true;
            mode := OtherFmtChar;
          } else if c == '%' {
            port.TxChar(c);
            mode := Chars;
          } else {
            mode := OtherFmtChar;
            other := true;
          }
        case OtherFmtChar =>
          other := true;
      }
      if other {
        mode, long, base, signed, upper, before, after, arg :=
          OtherChar(port, c, args, zero, long, base, signed, upper, before, after, arg);
      }
      i := i + 1;
    }
    assert fmt[..|fmt|] == fmt;
  }

  /** A character of a field after the first: precision point, digit, length modifier or type letter. */
  method OtherChar(port: Port, c: char, args: nat -> Arg, zero: bool, long0: bool, base0: Base, signed0: bool,
                   upper0: bool, before0: int, after0: int, arg0: nat)
    returns (mode: Mode, long: bool, base: Base, signed: bool, upper: bool, before: int, after: int, arg: nat)
    modifies port
    ensures State(port.out, mode, zero, long, base, signed, upper, before, after, arg)
         == Other(State(old(port.out), OtherFmtChar, zero, long0, base0, signed0, upper0, before0, after0, arg0),
                  c, args)
  {
    hide Convert;
    mode, long, base, signed, upper := OtherFmtChar, long0, base0, signed0, upper0;
    before, after, arg := before0, after0, arg0;
    if c == '.' {
      after := 0;
    } else if '0' <= c <= '9' {
      var digit := (c - '0') as int;
      if after < 0 {
        if before < 0 {
          before := 0;
        } else {
          before := before * 10;
        }
        before := before + digit;
      } else {
        after := after * 10 + digit;
      }
    } else if c == 'l' {
      long := true;
    } else {
      base, signed, upper, arg :=
        PrintConversion(port, c, args, mode, zero, long, base, signed, upper, before, after, arg);
      mode := Chars;
    }
  }

  /** The inner switch, on the letter that determines the type. */
  method PrintConversion(port: Port, c: char, args: nat -> Arg, ghost mode: Mode, zero: bool, ghost long: bool,
                         base0: Base, signed0: bool, upper0: bool, before: int, ghost after: int, arg0: nat)
    returns (base: Base, signed: bool, upper: bool, arg: nat)
    modifies port
    ensures State(port.out, mode, zero, long, base, signed, upper, before, after, arg)
         == Convert(State(old(port.out), mode, zero, long, base0, signed0, upper0, before, after, arg0), c, args)
  {
    hide IntText, Repeat, Meaning;
    base, signed, upper, arg := base0, signed0, upper0, arg0;
    match c {
      case 'd' =>
      case 'i' =>
      case 'u' => signed := false;
      case 'o' => base, signed := 8, false;
      case 'x' => base, signed := 16, false;
      case 'X' => base, signed, upper := 16, false, true;
      case 'c' =>
        port.RepChar(' ', before - 1);
        port.TxChar((args(arg).word % 256) as char);
        arg := arg + 1;
        return;
      case 's' =>
        var s := args(arg).text;
        port.RepChar(' ', before - |s|);
        PutString(port, s);
        arg := arg + 1;
        return;
      case _ => return;
    }
    port.PrintInteger(args(arg).word % WORD, base, signed, upper, zero, before);
    arg := arg + 1;
  }

  method PutString(port: Port, s: string)
    modifies port
    ensures port.out == old(port.out) + s
  {
    var i := 0;
    while i < |s|
      invariant 0 <= i <= |s| && port.out == old(port.out) + s[..i]
    {
      port.TxChar(s[i]);
      i := i + 1;
    }
  }
}
