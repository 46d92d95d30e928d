/** Positional notation: what the digit loops of the two printers compute, and its inverse. */
module Numerals {
  const WORD: nat := 0x1_0000_0000

  /** The digit characters after '9' start at 'a' or 'A'. */
  function DigitChar(d: nat, upper: bool): char
    requires d < 16
  {
    if d < 10 then '0' + d as char else (if upper then 'A' else 'a') + (d - 10) as char
  }

  function CharDigit(c: char): nat {
    if '0' <= c <= '9' then (c - '0') as int
    else if 'a' <= c <= 'f' then (c - 'a') as int + 10
    else if 'A' <= c <= 'F' then (c - 'A') as int + 10
    else 0
  }

  lemma CharDigitInverse(d: nat, upper: bool)
    requires d < 16
    ensures CharDigit(DigitChar(d, upper)) == d && DigitChar(d, upper) != '-' && DigitChar(d, upper) != ' '
    ensures DigitChar(d, upper) == '0' <==> d == 0
  {
  }

  /** v in base b, most significant digit first, without leading zeros. */
  function Digits(v: nat, b: nat, upper: bool): (s: string)
    requires 2 <= b <= 16
    ensures |s| >= 1
    decreases v
  {
    if v < b then [DigitChar(v, upper)] else Digits(Div(v, b), b, upper) + [DigitChar(Mod(v, b), upper)]
  }

  /** Every character is a decimal digit or a letter of the case asked for. */
  lemma {:induction false} DigitsCase(v: nat, b: nat, upper: bool)
    requires 2 <= b <= 16
    ensures forall i | 0 <= i < |Digits(v, b, upper)| :: var c := Digits(v, b, upper)[i];
      '0' <= c <= '9' || (if upper then 'A' <= c <= 'F' else 'a' <= c <= 'f')
    decreases v
  {
    if v >= b {
      DigitsCase(Div(v, b), b, upper);
    }
  }

  /** A reader of positional notation. */
  function Parse(s: string, b: nat): nat {
    if s == "" then 0 else b * Parse(s[..|s| - 1], b) + CharDigit(s[|s| - 1])
  }

  function Div(v: nat, b: nat): (q: nat)
    requires b > 0
    ensures b >= 2 && v > 0 ==> q < v
    ensures q <= v
  {
    Smaller(v, b);
    v / b
  }

  lemma Smaller(v: nat, b: nat)
    requires b > 0
    ensures v / b <= v && (b >= 2 && v > 0 ==> v / b < v)
  {
    var q := v / b;
    assert v == b * q + v % b;
    if b >= 2 {
      assert b * q >= 2 * q;
    } else {
      assert b * q == q;
    }
  }

  function Mod(v: nat, b: nat): (r: nat)
    requires b > 0
    ensures r < b
  {
    v % b
  }

  lemma DivMod(v: nat, b: nat)
    requires b > 0
    ensures v == b * Div(v, b) + Mod(v, b)
  {
  }

  lemma Unique(v: nat, b: nat, q: nat, r: nat)
    requires b > 0 && v == b * q + r && r < b
    ensures Div(v, b) == q && Mod(v, b) == r
  {
    var q', r' := v / b, v % b;
    assert v == b * q' + r';
    if q' < q {
      Times(q' + 1, q, b);
      assert false;
    } else if q' > q {
      Times(q + 1, q', b);
      assert false;
    }
  }

  lemma Times(x: nat, y: nat, b: nat)
    requires x <= y
    ensures b * x <= b * y
  {
  }

  lemma {:induction false} ParseDigits(v: nat, b: nat, upper: bool)
    requires 2 <= b <= 16
    ensures Parse(Digits(v, b, upper), b) == v
    decreases v
  {
    hide Div, Mod;
    if v < b {
      CharDigitInverse(v, upper);
      assert [DigitChar(v, upper)][..0] == "";
    } else {
      var s := Digits(Div(v, b), b, upper);
      ParseDigits(Div(v, b), b, upper);
      CharDigitInverse(Mod(v, b), upper);
      DivMod(v, b);
      assert (s + [DigitChar(Mod(v, b), upper)])[..|s|] == s;
    }
  }

  function Pow(b: nat, k: nat): (p: nat)
    requires b > 0
    ensures p > 0
  {
    if k == 0 then 1 else b * Pow(b, k - 1)
  }

  /** The last k digits of v. */
  function Fixed(v: nat, b: nat, k: nat, upper: bool): (s: string)
    requires 2 <= b <= 16
    ensures |s| == k
  {
    if k == 0 then "" else Fixed(Div(v, b), b, k - 1, upper) + [DigitChar(Mod(v, b), upper)]
  }

  lemma Distribute(b: nat, m: nat, q: nat, r: nat)
    ensures b * (m * q + r) == (b * m) * q + b * r && b * (r + 1) == b * r + b && (b > 0 && m > 0 ==> b * m > 0)
  {
  }

  /** Dividing by b and then by m. */
  lemma DivDiv(v: nat, b: nat, m: nat)
    requires b > 0 && m > 0
    ensures b * m > 0
    ensures Div(Div(v, b), m) == Div(v, b * m)
    ensures Div(Mod(v, b * m), b) == Mod(Div(v, b), m)
    ensures Mod(Mod(v, b * m), b) == Mod(v, b)
  {
    hide Div, Mod;
    var x, y := Div(v, b), Mod(v, b);
    var q, r := Div(x, m), Mod(x, m);
    DivMod(v, b);
    DivMod(x, m);
    Distribute(b, m, q, r);
    Times(r + 1, m, b);
    Unique(v, b * m, q, b * r + y);
    Unique(b * r + y, b, r, y);
  }

  /** The leading digit is the quotient by the place value, the rest the remainder's. */
  lemma {:induction false} FixedHead(v: nat, b: nat, k: nat, upper: bool)
    requires 2 <= b <= 16 && v < Pow(b, k + 1)
    ensures Div(v, Pow(b, k)) < b
    ensures Fixed(v, b, k + 1, upper) == [DigitChar(Div(v, Pow(b, k)), upper)] + Fixed(Mod(v, Pow(b, k)), b, k, upper)
    decreases k
  {
    hide Div, Mod;
    var y := DigitChar(Mod(v, b), upper);
    if k == 0 {
      Unique(v, 1, v, 0);
      Unique(v, b, 0, v);
      assert Pow(b, 1) == b * Pow(b, 0);
      assert Fixed(v, b, 1, upper) == Fixed(Div(v, b), b, 0, upper) + [y];
    } else {
      var x := Div(v, b);
      DivMod(v, b);
      assert Pow(b, k + 1) == b * Pow(b, k);
      BelowQuotient(v, b, Pow(b, k));
      FixedHead(x, b, k - 1, upper);
      DivDiv(v, b, Pow(b, k - 1));
      assert Pow(b, k) == b * Pow(b, k - 1);
      var r := Mod(v, Pow(b, k));
      assert Fixed(r, b, k, upper) == Fixed(Div(r, b), b, k - 1, upper) + [DigitChar(Mod(r, b), upper)];
    }
  }

  lemma BelowQuotient(v: nat, b: nat, m: nat)
    requires b > 0 && v < b * m
    ensures Div(v, b) < m
  {
    hide Div, Mod;
    DivMod(v, b);
    if Div(v, b) >= m {
      Times(m, Div(v, b), b);
      assert false;
    }
  }

  /** The number of digits counted by repeated division. */
  lemma {:induction false} DigitsAreFixed(v: nat, b: nat, k: nat, upper: bool)
    requires 2 <= b <= 16 && v < Pow(b, k + 1) && (k > 0 ==> Pow(b, k) <= v)
    ensures Digits(v, b, upper) == Fixed(v, b, k + 1, upper)
    decreases k
  {
    hide Div, Mod;
    if k == 0 {
      assert Pow(b, 1) == b * Pow(b, 0);
      Unique(v, b, 0, v);
      assert Fixed(v, b, 1, upper) == Fixed(Div(v, b), b, 0, upper) + [DigitChar(Mod(v, b), upper)];
    } else {
      assert Pow(b, k) == b * Pow(b, k - 1);
      assert Pow(b, k + 1) == b * Pow(b, k);
      Times(1, Pow(b, k - 1), b);
      BelowQuotient(v, b, Pow(b, k));
      DivMod(v, b);
      if Div(v, b) < Pow(b, k - 1) {
        Times(Div(v, b) + 1, Pow(b, k - 1), b);
        assert false;
      }
      DigitsAreFixed(Div(v, b), b, k - 1, upper);
    }
  }
}
