/** Time of day: settimeofday stores an offset computed with a 32-bit product, gettimeofday adds the elapsed time
    computed with a 64-bit one and normalises. */
module Clock {
  const WRAP: nat := 0x1_0000_0000
  const US: nat := 1000000
  const ENOSYS: int := 88
  const ENOTSUP: int := 134

  /** Conversion of an int to a signed 32-bit variable. */
  function S32(n: int): (r: int)
    ensures -0x8000_0000 <= r < 0x8000_0000
    ensures -0x8000_0000 <= n < 0x8000_0000 ==> r == n
  {
    (n + 0x8000_0000) % WRAP - 0x8000_0000
  }

  datatype Time = Time(sec: int, usec: int)
  datatype Zone = Zone(minuteswest: int, dsttime: int)

  /** As settimeofday's callers pass it. */
  ghost predicate Normal(t: Time) {
    0 <= t.sec < 0x8000_0000 && 0 <= t.usec < US
  }

  function Micros(t: Time): int {
    t.sec * US + t.usec
  }

  function Seconds(n: nat, rate: nat): nat
    requires rate > 0
  {
    n / rate
  }

  /** Microseconds in n ticks of US / rate microseconds each. */
  function Product(n: nat, rate: nat): nat
    requires rate > 0
  {
    n * (US / rate)
  }

  /** What each of the two functions keeps of the product: settimeofday's has passed through 32 bits. */
  function Digits(p: nat): (d: nat)
    ensures d < US
  {
    p % US
  }

  function Digits32(p: nat): (d: nat)
    ensures d < US
  {
    p % WRAP % US
  }

  /** alt_resettime after settimeofday(t) at tick n. */
  function Offset(t: Time, n: nat, rate: nat): Time
    requires rate > 0
  {
    Time(S32(t.sec - Seconds(n, rate)), S32(t.usec - Digits32(Product(n, rate))))
  }

  /** What gettimeofday adds up at tick n, before normalising. */
  function Raw(offset: Time, n: nat, rate: nat): Time
    requires rate > 0
  {
    Time(S32(offset.sec + Seconds(n, rate)), S32(offset.usec + Digits(Product(n, rate))))
  }

  /** The normalised form: the same instant, except that an instant before time 0 that needs a borrow is 0, and
      that the seconds are kept in 32 bits. */
  function Normalise(raw: Time): (r: Time)
    ensures 0 <= r.usec < US
    ensures Micros(raw) < 0x8000_0000 * US && raw.sec >= -0x8000_0000 ==>
      Micros(r) == if raw.usec < 0 && Micros(raw) < 0 then 0 else Micros(raw)
  {
    if raw.usec < 0 && Micros(raw) < 0 then Time(0, 0) else Time(S32(Micros(raw) / US), Micros(raw) % US)
  }

  /** What gettimeofday returns at tick n after settimeofday(t) at tick n0. */
  function Reading(t: Time, n0: nat, n: nat, rate: nat): Time
    requires rate > 0
  {
    Normalise(Raw(Offset(t, n0, rate), n, rate))
  }

  class SystemClock {
    var nticks: nat
    var tickRate: nat
    var resetTime: Time
    var timezone: Zone
    var errno: int

    /** ALT_SETTIMEOFDAY. */
    method SetTimeOfDay(t: Time, tz: Zone) returns (r: int)
      modifies `resetTime, `timezone, `errno
      ensures if tickRate == 0 then
                r == -1 && errno == ENOSYS && resetTime == old(resetTime) && timezone == old(timezone)
              else
                r == 0 && errno == old(errno) && resetTime == Offset(t, nticks, tickRate) && timezone == tz
    {
      if tickRate != 0 {
        resetTime := Time(S32(t.sec - nticks / tickRate), resetTime.usec);
        resetTime := resetTime.(usec := S32(t.usec - (nticks * (US / tickRate) % WRAP) % US));
        timezone := tz;
        return 0;
      }
      errno := ENOSYS;
      return -1;
    }

    /** ALT_GETTIMEOFDAY: both normalisation loops end, and their result is the same instant in normal form. */
    method GetTimeOfDay() returns (r: int, t: Time, tz: Zone)
      ensures if tickRate == 0 then r == -ENOTSUP
              else r == 0 && tz == timezone && t == Normalise(Raw(resetTime, nticks, tickRate))
    {
      t, tz := Time(0, 0), Zone(0, 0);
      if tickRate != 0 {
        ghost var raw := Raw(resetTime, nticks, tickRate);
        t := t.(sec := S32(resetTime.sec + nticks / tickRate));
        t := t.(usec := S32(resetTime.usec + nticks * (US / tickRate) % US));
        while t.usec < 0
          invariant Micros(t) == Micros(raw) || (raw.usec < 0 && Micros(raw) < 0 && t == Time(0, 0))
          invariant t == raw || (raw.usec < 0 && 0 <= t.sec < 0x8000_0000 && t.usec < US)
          decreases -t.usec
        {
          if t.sec <= 0 {
            t := Time(0, 0);
            break;
          } else {
            t := t.(sec := t.sec - 1);
            t := t.(usec := t.usec + US);
          }
        }
        ghost var exact := t;
        while t.usec >= US
          invariant 0 <= t.usec && t == Time(S32(exact.sec), exact.usec)
          invariant Micros(exact) == if raw.usec < 0 && Micros(raw) < 0 then 0 else Micros(raw)
          decreases t.usec
        {
          S32Sum(exact.sec, 1);
          exact := Time(exact.sec + 1, exact.usec - US);
          t := t.(sec := S32(t.sec + 1));
          t := t.(usec := t.usec - US);
        }
        MicrosOne(exact, Time(Micros(exact) / US, Micros(exact) % US));
        tz := timezone;
        return 0, t, tz;
      }
      return -ENOTSUP, t, tz;
    }
  }

  // ----- set, then get -----

  lemma S32Sum(a: int, b: int)
    ensures S32(S32(a) + b) == S32(a + b)
  {
    var x := a + 0x8000_0000;
    assert S32(a) + b + 0x8000_0000 == x % WRAP + b;
    assert (x % WRAP + b) % WRAP == (x + b) % WRAP;
  }

  lemma MicrosOne(t: Time, r: Time)
    requires 0 <= t.usec < US && 0 <= r.usec < US && Micros(t) == Micros(r)
    ensures t == r
  {
  }

  /** 2^32 and 15625 have no common factor. */
  lemma Coprime(q: nat, m: nat)
    requires 67108864 * q == 15625 * m
    ensures q == 15625 * (INVERSE * m - QUOTIENT * q)
  {
  }

  // INVERSE * 2^26 == QUOTIENT * 15625 + 1
  const INVERSE: nat := 12659
  const QUOTIENT: nat := 54369991

  /** The low word of a product has the same last six decimal digits exactly if the high word is a multiple of
      15625, since 2^32 is 2^26 * 64 and 10^6 is 15625 * 64. */
  lemma LowWordDigits(p: nat)
    ensures Digits(p) == Digits32(p) <==> p / WRAP % 15625 == 0
  {
    var q, w := p / WRAP, p % WRAP;
    if q % 15625 == 0 {
      SameDigits(p, w, 67108864 * (q / 15625));
    }
    if p % US == w % US {
      DigitsDiffer(p, w, q);
    }
  }

  lemma SameDigits(p: nat, w: nat, c: nat)
    requires p == US * c + w
    ensures p % US == w % US
  {
  }

  lemma DigitsDiffer(p: nat, w: nat, q: nat)
    requires p == WRAP * q + w && p % US == w % US
    ensures q % 15625 == 0
  {
    var m := p / US - w / US;
    assert p == US * (p / US) + p % US && w == US * (w / US) + w % US;
    assert 67108864 * q == 15625 * m;
    Coprime(q, m);
  }

  /** settimeofday followed at once by gettimeofday, on any tick and at any rate: the time comes back exactly if
      the high word of the 64-bit product is a multiple of 15625; only the zero time can also be restored by the
      clamp. */
  lemma RoundTripExact(t: Time, n: nat, rate: nat)
    requires Normal(t) && rate > 0
    ensures var p := n * (US / rate);
      Reading(t, n, n, rate) == t <==> p / WRAP % 15625 == 0 || (t == Time(0, 0) && p % US < p % WRAP % US)
  {
    var p := Product(n, rate);
    LowWordDigits(p);
    RoundTripDigits(t, n, rate, p);
  }

  lemma RoundTripDigits(t: Time, n: nat, rate: nat, p: nat)
    requires Normal(t) && rate > 0 && p == Product(n, rate)
    ensures Reading(t, n, n, rate) == t <==> Digits(p) == Digits32(p) || (t == Time(0, 0) && Digits(p) < Digits32(p))
  {
    hide S32, Normalise, Product, Seconds, Digits, Digits32;
    RawAfterOffset(t, n, n, rate);
    Shifted(t, Digits(p), Digits32(p));
  }

  /** The sum gettimeofday forms at tick n after settimeofday(t) at tick n0. */
  lemma RawAfterOffset(t: Time, n0: nat, n: nat, rate: nat)
    requires Normal(t) && rate > 0
    ensures Raw(Offset(t, n0, rate), n, rate)
         == Time(S32(t.sec - Seconds(n0, rate) + Seconds(n, rate)),
                 t.usec - Digits32(Product(n0, rate)) + Digits(Product(n, rate)))
    ensures n == n0 ==> S32(t.sec - Seconds(n0, rate) + Seconds(n, rate)) == t.sec
  {
    hide Product, Seconds, Digits, Digits32;
    S32Sum(t.sec - Seconds(n0, rate), Seconds(n, rate));
  }

  lemma Shifted(t: Time, a: int, b: int)
    requires Normal(t) && 0 <= a < US && 0 <= b < US
    ensures Normalise(Time(t.sec, t.usec - b + a)) == t <==> a == b || (t == Time(0, 0) && a < b)
  {
    var raw := Time(t.sec, t.usec - b + a);
    var r := Normalise(raw);
    if Micros(raw) >= 0x8000_0000 * US {
      assert Micros(raw) / US == 0x8000_0000 && r.sec == -0x8000_0000;
    } else if Micros(r) == Micros(t) {
      MicrosOne(t, r);
    }
  }

  /** With a rate that divides a million, whole seconds and the rest of the product are exactly n ticks. */
  lemma WholeTicks(n: nat, rate: nat, k: nat)
    requires rate > 0 && k > 0 && rate * k == US
    ensures Product(n, rate) == n * k && Seconds(n, rate) * US + Digits(n * k) == n * k
  {
    var s, m := n / rate, n % rate;
    assert n * k == s * US + m * k by {
      assert n == s * rate + m;
      assert n * k == s * (rate * k) + m * k;
    }
    LessTimes(m, rate, k);
    DigitsOf(n * k, s, m * k);
    DivExact(rate, k);
  }

  lemma LessTimes(m: nat, rate: nat, k: nat)
    requires m < rate && k > 0
    ensures m * k < rate * k
  {
  }

  lemma DigitsOf(p: nat, s: nat, w: nat)
    requires p == s * US + w && w < US
    ensures p % US == w
  {
  }

  lemma DivExact(rate: nat, k: nat)
    requires rate > 0 && rate * k == US
    ensures US / rate == k
  {
    var d := US / rate;
    if d < k {
      TimesLe(d + 1, k, rate);
      assert false;
    } else if d > k {
      TimesLe(k + 1, d, rate);
      assert false;
    }
  }

  lemma TimesLe(a: nat, b: nat, c: nat)
    requires a <= b
    ensures a * c <= b * c
  {
  }

  /** The seconds gettimeofday adds up before normalising. */
  function Sum(t: Time, n0: nat, n: nat, rate: nat): int
    requires rate > 0
  {
    t.sec - Seconds(n0, rate) + Seconds(n, rate)
  }

  /** For any rate dividing a million, and any start whose product survives the 32 bits, the clock set at tick n0 reads
      exactly k microseconds more for every tick since if and only if that instant, and the seconds added up on the
      way to it, fit a 32-bit second count. */
  lemma ClockExact(t: Time, n0: nat, n: nat, rate: nat, k: nat)
    requires Normal(t) && rate > 0 && k > 0 && rate * k == US && n0 <= n < WRAP && n0 * k / WRAP % 15625 == 0
    ensures var r := Reading(t, n0, n, rate); var m := Micros(t) + (n - n0) * k;
      0 <= r.usec < US && (Micros(r) == m <==> m < 0x8000_0000 * US && Sum(t, n0, n, rate) < 0x8000_0000)
  {
    var p0, p := n0 * k, n * k;
    assert (n - n0) * k == p - p0;
    TimesLe(n0, n, k);
    WholeTicks(n0, rate, k);
    WholeTicks(n, rate, k);
    LowWordDigits(p0);
    ClockExactFrom(t, n0, n, rate, p0, p);
  }

  lemma ClockExactFrom(t: Time, n0: nat, n: nat, rate: nat, p0: nat, p: nat)
    requires Normal(t) && rate > 0 && p0 <= p && Digits(p0) == Digits32(p0)
    requires p0 == Product(n0, rate) && p == Product(n, rate)
    requires Seconds(n0, rate) * US + Digits(p0) == p0 && Seconds(n, rate) * US + Digits(p) == p
    ensures var r := Reading(t, n0, n, rate); var m := Micros(t) + p - p0;
      0 <= r.usec < US && (Micros(r) == m <==> m < 0x8000_0000 * US && Sum(t, n0, n, rate) < 0x8000_0000)
  {
    hide Product, Seconds, Digits, Digits32, S32, Normalise;
    RawAfterOffset(t, n0, n, rate);
    var secs, usec := Sum(t, n0, n, rate), t.usec - Digits(p0) + Digits(p);
    assert Micros(Time(secs, usec)) == Micros(t) + p - p0;
    NormaliseFits(secs, usec);
  }

  /** A sum of seconds that wrapped into 32 bits never normalises to the true instant. */
  lemma NormaliseFits(secs: int, usec: int)
    requires 0 < usec + US < 3 * US && secs >= 0 && Micros(Time(secs, usec)) >= 0
    ensures var m := Micros(Time(secs, usec));
      Micros(Normalise(Time(S32(secs), usec))) == m <==> m < 0x8000_0000 * US && secs < 0x8000_0000
  {
    var m, r := Micros(Time(secs, usec)), Normalise(Time(S32(secs), usec));
    assert r.sec < 0x8000_0000;
    if secs >= 0x8000_0000 && m < 0x8000_0000 * US {
      assert secs == 0x8000_0000 && S32(secs) == -0x8000_0000;
      assert r == Time(0, 0);
    }
  }

  /** Later ticks show later times, up to the last instant that fits. */
  lemma ClockMonotone(t: Time, n0: nat, n1: nat, n2: nat, rate: nat, k: nat)
    requires Normal(t) && rate > 0 && k > 0 && rate * k == US && n0 <= n1 < n2 < WRAP && n0 * k / WRAP % 15625 == 0
    requires Micros(t) + (n2 - n0) * k < 0x8000_0000 * US && Sum(t, n0, n2, rate) < 0x8000_0000
    ensures var r1, r2 := Reading(t, n0, n1, rate), Reading(t, n0, n2, rate);
      r1.sec < r2.sec || (r1.sec == r2.sec && r1.usec < r2.usec)
  {
    hide Reading;
    LessTimes(n1 - n0, n2 - n0, k);
    SecondsGrow(n1, n2, rate);
    ClockExact(t, n0, n1, rate, k);
    ClockExact(t, n0, n2, rate, k);
  }

  lemma SecondsGrow(n1: nat, n2: nat, rate: nat)
    requires n1 <= n2 && rate > 0
    ensures Seconds(n1, rate) <= Seconds(n2, rate)
  {
    var q1, q2 := n1 / rate, n2 / rate;
    if q1 > q2 {
      TimesLe(q2 + 1, q1, rate);
      assert false;
    }
  }

  /** At the board's 1000 ticks a second, setting the clock after 72 minutes of running is already off by most of
      a second. */
  lemma SeventyTwoMinutes()
    ensures Reading(Time(100, 0), 4294968, 4294968, 1000) == Time(100, 967296)
  {
    hide S32, Product, Seconds, Digits, Digits32, Normalise;
    DemoProduct();
    RawAfterOffset(Time(100, 0), 4294968, 4294968, 1000);
    MicrosOne(Reading(Time(100, 0), 4294968, 4294968, 1000), Time(100, 967296));
  }

  lemma DemoProduct()
    ensures Product(4294968, 1000) == 4294968000
    ensures Digits(4294968000) == 968000 && Digits32(4294968000) == 704
  {
  }
}
