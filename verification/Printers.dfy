/** The logging printf and the small printf: integer conversion in place, and the format state machine. */
module Printers {
  import opened Numerals

  // ----- what an integer conversion should print -----

  function Repeat(c: char, n: int): (s: string)
    ensures |s| == if n > 0 then n else 0
    ensures forall i | 0 <= i < |s| :: s[i] == c
  {
    seq(if n > 0 then n else 0, _ => c)
  }

  /** A 32-bit word read as signed or unsigned. */
  function Meaning(v: nat, signed: bool): int {
    if signed && v >= 0x8000_0000 then v - WORD else v
  }

  function Magnitude(n: int): nat {
    if n < 0 then -n else n
  }

  /** width is -1 when the format gives none.  Zeros go between the sign and the digits, spaces before the sign. */
  function IntText(n: int, b: nat, upper: bool, zero: bool, width: int): string
    requires 2 <= b <= 16
  {
    var body := Digits(Magnitude(n), b, upper);
    var sign := if n < 0 then "-" else "";
    var pad := width - |body| - |sign|;
    if zero then sign + Repeat('0', pad) + body else Repeat(' ', pad) + sign + body
  }

  /** A reader: leading spaces, a sign, digits. */
  function ReadInt(s: string, b: nat): int {
    if s == "" then 0
    else if s[0] == ' ' then ReadInt(s[1..], b)
    else if s[0] == '-' then -(Parse(s[1..], b) as int)
    else Parse(s, b)
  }

  lemma {:induction false} ParseZeros(n: nat, s: string, b: nat)
    ensures Parse(Repeat('0', n) + s, b) == Parse(s, b)
    decreases |s|, n
  {
    var t := Repeat('0', n) + s;
    if s != "" {
      assert t[..|t| - 1] == Repeat('0', n) + s[..|s| - 1];
      ParseZeros(n, s[..|s| - 1], b);
    } else if n > 0 {
      assert t[..|t| - 1] == Repeat('0', n - 1) + s;
      ParseZeros(n - 1, s, b);
    } else {
      assert t == s;
    }
  }

  lemma {:induction false} ReadSpaces(n: nat, s: string, b: nat)
    ensures ReadInt(Repeat(' ', n) + s, b) == ReadInt(s, b)
    decreases n
  {
    var t := Repeat(' ', n) + s;
    if n == 0 {
      assert t == s;
    } else {
      assert t[1..] == Repeat(' ', n - 1) + s;
      ReadSpaces(n - 1, s, b);
    }
  }

  lemma {:induction false} FirstDigit(v: nat, b: nat, upper: bool)
    requires 2 <= b <= 16
    ensures Digits(v, b, upper)[0] != ' ' && Digits(v, b, upper)[0] != '-'
    ensures v > 0 ==> Digits(v, b, upper)[0] != '0'
    decreases v
  {
    if v < b {
      CharDigitInverse(v, upper);
    } else {
      FirstDigit(Div(v, b), b, upper);
      DivMod(v, b);
    }
  }

  /** What is printed reads back as the value, for every value, base, flag and width. */
  lemma IntTextReads(n: int, b: nat, upper: bool, zero: bool, width: int)
    requires 2 <= b <= 16
    ensures ReadInt(IntText(n, b, upper, zero, width), b) == n
  {
    hide Digits, Parse, Repeat;
    var body := Digits(Magnitude(n), b, upper);
    ParseDigits(Magnitude(n), b, upper);
    FirstDigit(Magnitude(n), b, upper);
    var pad := width - |body| - if n < 0 then 1 else 0;
    var z := Repeat('0', pad) + body;
    ParseRepeat(pad, body, b);
    if n < 0 {
      assert ("-" + body)[1..] == body && ("-" + z)[1..] == z;
      assert "-" + Repeat('0', pad) + body == "-" + z;
      ReadRepeat(pad, "-" + body, b);
      assert Repeat(' ', pad) + "-" + body == Repeat(' ', pad) + ("-" + body);
    } else {
      ReadRepeat(pad, body, b);
      assert "" + Repeat('0', pad) + body == z;
      assert Repeat(' ', pad) + "" + body == Repeat(' ', pad) + body;
    }
  }

  lemma ParseRepeat(n: int, s: string, b: nat)
    ensures Parse(Repeat('0', n) + s, b) == Parse(s, b)
  {
    ParseZeros(if n > 0 then n else 0, s, b);
  }

  lemma ReadRepeat(n: int, s: string, b: nat)
    ensures ReadInt(Repeat(' ', n) + s, b) == ReadInt(s, b)
  {
    ReadSpaces(if n > 0 then n else 0, s, b);
  }

  /** It is as long as the width asks, unless digits and sign need more. */
  lemma IntTextLength(n: int, b: nat, upper: bool, zero: bool, width: int)
    requires 2 <= b <= 16
    ensures var need := |Digits(Magnitude(n), b, upper)| + (if n < 0 then 1 else 0);
      |IntText(n, b, upper, zero, width)| == if width > need then width else need
  {
  }

  /** With the zero flag nothing is padded with spaces; without it the number is preceded by spaces only, and stands as
      it would without a width. */
  lemma IntTextPads(n: int, b: nat, upper: bool, zero: bool, width: int)
    requires 2 <= b <= 16
    ensures var s := IntText(n, b, upper, zero, width); var bare := IntText(n, b, upper, zero, -1);
      if zero then forall i | 0 <= i < |s| :: s[i] != ' '
      else
        var pad := |s| - |bare|;
        pad >= 0 && s[pad..] == bare && bare[0] != ' ' && forall i | 0 <= i < pad :: s[i] == ' '
  {
    hide Digits, Repeat;
    DigitsCase(Magnitude(n), b, upper);
    var body := Digits(Magnitude(n), b, upper);
    var sign := if n < 0 then "-" else "";
    var pad := width - |body| - |sign|;
    if zero {
      WithoutSpaces(sign, Repeat('0', pad), body);
    } else {
      var none := Repeat(' ', -1 - |body| - |sign|);
      assert none + sign + body == sign + body;
      Behind(Repeat(' ', pad), sign, body);
    }
  }

  lemma WithoutSpaces(sign: string, zeros: string, body: string)
    requires ' ' !in sign && ' ' !in body && forall i | 0 <= i < |zeros| :: zeros[i] == '0'
    ensures forall i | 0 <= i < |sign + zeros + body| :: (sign + zeros + body)[i] != ' '
  {
    var s := sign + zeros;
    assert ' ' !in s + body;
  }

  lemma Behind(pad: string, sign: string, body: string)
    ensures var s := pad + sign + body; |s| == |pad| + |sign + body| && s[|pad|..] == sign + body
    ensures forall i | 0 <= i < |pad| :: (pad + sign + body)[i] == pad[i]
  {
  }

  /** With no width, the logging printf's %x prints what the small printf's does. */
  lemma HexAgrees(v: nat)
    requires v < WORD
    ensures IntText(Meaning(v, false), 16, false, false, -1) == Digits(v, 16, false)
  {
    assert Repeat(' ', -1 - |Digits(v, 16, false)|) == "";
  }

  // ----- the printers -----

  class Port {
    var out: string

    method TxChar(c: char)
      modifies `out
      ensures out == old(out) + [c]
    {
      out := out + [c];
    }

    /** alt_log_repchar. */
    method RepChar(c: char, r: int)
      modifies `out
      ensures out == old(out) + Repeat(c, r)
    {
      var left := r;
      while left > 0
        invariant if r <= 0 then left == r && out == old(out)
                  else 0 <= left <= r && out == old(out) + Repeat(c, r - left)
        decreases left
      {
        ghost var n := r - left;
        assert Repeat(c, n + 1) == Repeat(c, n) + [c];
        left := left - 1;
        TxChar(c);
      }
    }

    /** The integer conversion of alt_log_private_printf: v is the 32-bit word taken from the arguments. */
    method PrintInteger(word: nat, b: nat, signed: bool, upper: bool, zero: bool, width: int)
      requires word < WORD && 2 <= b <= 16
      modifies `out
      ensures out == old(out) + IntText(Meaning(word, signed), b, upper, zero, width)
    {
      hide Digits, Repeat;
      var v, sign := word, false;
      if signed && v >= 0x8000_0000 {
        v := (WORD - v) % WORD;
        sign := true;
      }
      var p, digitCount := PlaceValue(v, b, upper);
      var before := width - digitCount;
      if zero {
        if sign {
          TxChar('-');
          before := before - 1;
        }
        RepChar('0', before);
      } else {
        if sign {
          before := before - 1;
        }
        RepChar(' ', before);
        if sign {
          TxChar('-');
        }
      }
      PrintDigits(v, p, b, digitCount, upper);
      PutTogether(old(out), Meaning(word, signed), b, upper, zero, width, before);
    }

    /** Counts the digits and finds the largest place value, which never exceeds the value itself. */
    method PlaceValue(v: nat, b: nat, ghost upper: bool) returns (p: nat, digitCount: nat)
      requires v < WORD && 2 <= b <= 16
      ensures digitCount == |Digits(v, b, upper)| && p == Pow(b, digitCount - 1) && p < WORD
      ensures v < Pow(b, digitCount) && (digitCount > 1 ==> p <= v)
    {
      hide Div, Mod, Pow, Digits;
      var vShrink := v;
      p, digitCount := 1, 1;
      PowSteps(v, b, 0);
      vShrink := Div(vShrink, b);
      while vShrink > 0
        invariant digitCount >= 1 && p == Pow(b, digitCount - 1) && vShrink == Div(v, Pow(b, digitCount))
        invariant (digitCount > 1 ==> p <= v) && p < WORD
        decreases vShrink
      {
        PowSteps(v, b, digitCount);
        PowSteps(v, b, digitCount - 1);
        digitCount := digitCount + 1;
        p := p * b;
        vShrink := Div(vShrink, b);
      }
      ZeroQuotient(v, Pow(b, digitCount));
      DigitsAreFixed(v, b, digitCount - 1, upper);
    }

    /** The loop over place values. */
    method PrintDigits(value: nat, place: nat, b: nat, ghost count: nat, upper: bool)
      requires 2 <= b <= 16 && count >= 1 && place == Pow(b, count - 1) && value < Pow(b, count)
      requires count > 1 ==> place <= value
      modifies `out
      ensures out == old(out) + Digits(value, b, upper)
    {
      hide Div, Mod, Pow, Digits, Fixed;
      DigitsAreFixed(value, b, count - 1, upper);
      var v: nat, p: nat := value, place;
      ghost var k: nat := count;
      ghost var done := "";
      while p != 0
        invariant out == old(out) + done && Fixed(value, b, count, upper) == done + Fixed(v, b, k, upper)
        invariant p == (if k == 0 then 0 else Pow(b, k - 1)) && (k > 0 ==> v < Pow(b, k))
        modifies `out
        decreases k
      {
        FixedHead(v, b, k - 1, upper);
        PlaceDown(b, k - 1);
        var d := Div(v, p);
        TxChar(DigitChar(d, upper));
        ghost var rest := Fixed(Mod(v, p), b, k - 1, upper);
        assert done + ([DigitChar(d, upper)] + rest) == (done + [DigitChar(d, upper)]) + rest;
        done := done + [DigitChar(d, upper)];
        v := Mod(v, p);
        p := Div(p, b);
        k := k - 1;
      }
      NoDigits(v, b, upper);
    }

    /** alt_printf's %x: skips leading zero digits and prints the rest from the top. */
    method AltPrintHex(v: nat)
      requires v < WORD
      modifies `out
      ensures out == old(out) + Digits(v, 16, false)
    {
      hide Div, Mod, Pow, Digits, Fixed;
      HexFacts(v);
      if v == 0 {
        TxChar('0');
        return;
      }
      var digit: int := 7;
      while Nibble(v, digit) == 0
        invariant 0 <= digit <= 7 && v < Pow(16, digit + 1) && out == old(out)
        decreases digit
      {
        NibbleZero(v, digit);
        digit := digit - 1;
      }
      NibbleTop(v, digit);
      DigitsAreFixed(v, 16, digit, false);
      ghost var done := "";
      ghost var n := digit + 1;
      WholeMod(v, Pow(16, n));
      while digit >= 0
        invariant -1 <= digit <= 7 && out == old(out) + done
        invariant Fixed(v, 16, n, false) == done + Fixed(Mod(v, Pow(16, digit + 1)), 16, digit + 1, false)
        modifies `out
        decreases digit
      {
        NibbleHead(v, digit);
        var d := Nibble(v, digit);
        var c := if d <= 9 then '0' + d as char else 'a' + (d - 10) as char;
        TxChar(c);
        ghost var rest := Fixed(Mod(v, Pow(16, digit)), 16, digit, false);
        assert done + ([c] + rest) == (done + [c]) + rest;
        done := done + [c];
        digit := digit - 1;
      }
      NoDigits(Mod(v, Pow(16, 0)), 16, false);
    }
  }

  /** Four bits of v: (v & (0xF << 4k)) >> 4k. */
  function Nibble(v: nat, k: nat): (d: nat)
    ensures d < 16
  {
    Mod(Div(v, Pow(16, k)), 16)
  }

  lemma PlaceDown(b: nat, k: nat)
    requires b >= 2
    ensures Div(Pow(b, k), b) == if k == 0 then 0 else Pow(b, k - 1)
  {
    if k == 0 {
      Unique(1, b, 0, 1);
    } else {
      Unique(Pow(b, k), b, Pow(b, k - 1), 0);
    }
  }

  lemma NoDigits(v: nat, b: nat, upper: bool)
    requires 2 <= b <= 16
    ensures Fixed(v, b, 0, upper) == ""
  {
  }

  lemma ZeroQuotient(v: nat, m: nat)
    requires m > 0 && Div(v, m) == 0
    ensures v < m
  {
    DivMod(v, m);
  }

  lemma WholeMod(v: nat, m: nat)
    requires v < m
    ensures Mod(v, m) == v
  {
    Unique(v, m, 0, v);
  }

  /** One round of counting: the next place value divides out, and if anything is left it does not exceed v. */
  lemma PowSteps(v: nat, b: nat, k: nat)
    requires b >= 2
    ensures Pow(b, 0) == 1 && Div(v, Pow(b, 0)) == v && Pow(b, k + 1) == Pow(b, k) * b
    ensures Div(v, Pow(b, k + 1)) == Div(Div(v, Pow(b, k)), b)
    ensures Div(v, Pow(b, k)) > 0 ==> Pow(b, k) <= v
  {
    hide Div, Mod;
    Unique(v, 1, v, 0);
    DivDiv(v, Pow(b, k), b);
    assert Pow(b, k) * b == b * Pow(b, k);
    DivMod(v, Pow(b, k));
    if Div(v, Pow(b, k)) > 0 {
      Times(1, Div(v, Pow(b, k)), Pow(b, k));
    }
  }

  lemma PutTogether(out: string, n: int, b: nat, upper: bool, zero: bool, width: int, before: int)
    requires 2 <= b <= 16
    requires before == width - |Digits(Magnitude(n), b, upper)| - if n < 0 then 1 else 0
    ensures var body := Digits(Magnitude(n), b, upper);
      out + IntText(n, b, upper, zero, width)
      == if zero then (if n < 0 then out + ['-'] else out) + Repeat('0', before) + body
         else (if n < 0 then out + Repeat(' ', before) + ['-'] else out + Repeat(' ', before)) + body
  {
    hide Digits, Repeat;
    var body := Digits(Magnitude(n), b, upper);
    if zero {
      assert out + ("-" + Repeat('0', before) + body) == out + ['-'] + Repeat('0', before) + body;
      assert out + ("" + Repeat('0', before) + body) == out + Repeat('0', before) + body;
    } else {
      assert out + (Repeat(' ', before) + "-" + body) == out + Repeat(' ', before) + ['-'] + body;
      assert out + (Repeat(' ', before) + "" + body) == out + Repeat(' ', before) + body;
    }
  }

  lemma HexFacts(v: nat)
    requires v < WORD
    ensures v < Pow(16, 8) && Digits(0, 16, false) == "0"
  {
    assert Pow(16, 2) == 256;
    assert Pow(16, 4) == 65536;
    assert Pow(16, 6) == 16777216;
  }

  lemma NibbleHead(v: nat, k: nat)
    ensures var r := Mod(v, Pow(16, k + 1));
      Fixed(r, 16, k + 1, false) == [DigitChar(Nibble(v, k), false)] + Fixed(Mod(v, Pow(16, k)), 16, k, false)
  {
    hide Div, Mod;
    var p := Pow(16, k);
    assert Pow(16, k + 1) == p * 16;
    DivDiv(v, p, 16);
    FixedHead(Mod(v, Pow(16, k + 1)), 16, k, false);
  }

  lemma NibbleZero(v: nat, k: nat)
    requires 0 < v < Pow(16, k + 1) && Nibble(v, k) == 0
    ensures k > 0 && v < Pow(16, k)
  {
    hide Div, Mod;
    var p := Pow(16, k);
    assert Pow(16, k + 1) == 16 * p;
    BelowQuotient(v, p, 16);
    WholeMod(Div(v, p), 16);
    ZeroQuotient(v, p);
  }

  lemma NibbleTop(v: nat, k: nat)
    requires v < Pow(16, k + 1) && Nibble(v, k) != 0
    ensures Pow(16, k) <= v
  {
    hide Mod;
    DivMod(v, Pow(16, k));
    if v < Pow(16, k) {
      Unique(v, Pow(16, k), 0, v);
      WholeMod(0, 16);
      assert false;
    }
  }
}
