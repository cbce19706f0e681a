/** The page clock: a seconds counter advanced once a second modulo 60, shown as
    "05:31:" followed by the seconds padded to two digits. */
module Clock {
  import opened Wrappers

  /** One tick of the seconds counter. */
  function Tick(prev: nat): (next: nat)
    ensures next < 60
    ensures prev < 59 ==> next == prev + 1
    ensures prev == 59 ==> next == 0
  {
    (prev + 1) % 60
  }

  /** The counter after k ticks from its initial value 0. */
  function SecondsAfter(k: nat): nat
  {
    if k == 0 then 0 else Tick(SecondsAfter(k - 1))
  }

  /** The counter always shows the ticks elapsed modulo 60. */
  lemma {:induction false} SecondsAfterIsModulo(k: nat)
    ensures SecondsAfter(k) == k % 60
  {
    if k > 0 {
      SecondsAfterIsModulo(k - 1);
      var q, r := (k - 1) / 60, (k - 1) % 60;
      assert k == 60 * q + (r + 1);
      if r < 59 {
        assert k % 60 == r + 1;
      } else {
        assert k == 60 * (q + 1);
        assert k % 60 == 0;
      }
    }
  }

  predicate IsDigit(c: char)
  {
    '0' <= c <= '9'
  }

  function DigitChar(d: nat): (c: char)
    requires d < 10
    ensures IsDigit(c)
  {
    "0123456789"[d]
  }

  function DigitValue(c: char): (d: nat)
    requires IsDigit(c)
    ensures d < 10 && DigitChar(d) == c
  {
    (c - '0') as nat
  }

  /** The decimal spelling of a non-negative integer, without leading zeros. */
  function Decimal(n: nat): (s: string)
    ensures |s| >= 1
    ensures forall i :: 0 <= i < |s| ==> IsDigit(s[i])
    ensures (|s| == 1) == (n < 10)
    ensures |s| == 2 <==> 10 <= n < 100
  {
    if n < 10 then [DigitChar(n)] else Decimal(n / 10) + [DigitChar(n % 10)]
  }

  /** The number a string of decimal digits spells. */
  function Value(s: string): nat
    requires forall i :: 0 <= i < |s| ==> IsDigit(s[i])
  {
    if s == [] then 0 else 10 * Value(s[..|s| - 1]) + DigitValue(s[|s| - 1])
  }

  lemma {:induction false} DecimalRoundTrip(n: nat)
    ensures Value(Decimal(n)) == n
  {
    var s := Decimal(n);
    if n < 10 {
      assert s[..0] == [];
    } else {
      DecimalRoundTrip(n / 10);
      DigitRoundTrip(n % 10);
      assert s == Decimal(n / 10) + [DigitChar(n % 10)];
      assert s[..|s| - 1] == Decimal(n / 10);
      assert n == 10 * (n / 10) + n % 10;
    }
  }

  /** String padStart with a one-character fill: prepend fill until the string
      is len long; a string already that long is left alone. */
  function PadStart(s: string, len: nat, fill: char): (r: string)
    ensures |r| == if |s| < len then len else |s|
    ensures r[|r| - |s|..] == s
    ensures forall i :: 0 <= i < |r| - |s| ==> r[i] == fill
  {
    if |s| >= len then s else seq(len - |s|, _ => fill) + s
  }

  const Prefix: string := "05:31:"

  /** The clock text for a seconds value. */
  function FormatTime(seconds: nat): (r: string)
    ensures |r| > |Prefix| && r[..|Prefix|] == Prefix
    ensures seconds < 100 ==> |r| == |Prefix| + 2
  {
    Prefix + PadStart(Decimal(seconds), 2, '0')
  }

  /** Leading zeros do not change the value of a digit string. */
  lemma {:induction false} LeadingZero(s: string)
    requires forall i :: 0 <= i < |s| ==> IsDigit(s[i])
    ensures Value(['0'] + s) == Value(s)
  {
    var t := ['0'] + s;
    if s != [] {
      assert t[..|t| - 1] == ['0'] + s[..|s| - 1];
      LeadingZero(s[..|s| - 1]);
    } else {
      assert t[..0] == [];
    }
  }

  lemma DigitRoundTrip(d: nat)
    requires d < 10
    ensures DigitValue(DigitChar(d)) == d
  {
  }

  /** Below 100 the padded spelling is exactly the tens digit and the units digit. */
  lemma TwoDigits(seconds: nat)
    requires seconds < 100
    ensures PadStart(Decimal(seconds), 2, '0') == [DigitChar(seconds / 10), DigitChar(seconds % 10)]
  {
    if seconds >= 10 {
      assert Decimal(seconds / 10) == [DigitChar(seconds / 10)];
    }
  }

  /** For every value the counter can hold, the clock text is "05:31:" and two
      decimal digits that spell the seconds. */
  lemma ClockFormat(seconds: nat)
    requires seconds < 60
    ensures var r := FormatTime(seconds);
      |r| == 8 && r[..6] == "05:31:" && IsDigit(r[6]) && IsDigit(r[7]) &&
      10 * DigitValue(r[6]) + DigitValue(r[7]) == seconds
  {
    TwoDigits(seconds);
    DigitRoundTrip(seconds / 10);
    DigitRoundTrip(seconds % 10);
    var r := FormatTime(seconds);
    assert r == Prefix + [DigitChar(seconds / 10), DigitChar(seconds % 10)];
    assert r[6] == DigitChar(seconds / 10) && r[7] == DigitChar(seconds % 10);
  }

  /** Reads the seconds back from the clock text. */
  function ParseTime(r: string): Option<nat>
  {
    if |r| > |Prefix| && r[..|Prefix|] == Prefix
       && forall i :: |Prefix| <= i < |r| ==> IsDigit(r[i])
    then Some(Value(r[|Prefix|..]))
    else None
  }

  /** The clock text always reads back as the seconds value it was made from. */
  lemma FormatRoundTrip(seconds: nat)
    ensures ParseTime(FormatTime(seconds)) == Some(seconds)
  {
    var d := Decimal(seconds);
    var p := PadStart(d, 2, '0');
    var r := FormatTime(seconds);
    DecimalRoundTrip(seconds);
    assert r[|Prefix|..] == p;
    if |d| < 2 {
      assert p == ['0'] + d;
      LeadingZero(d);
    }
  }
}
