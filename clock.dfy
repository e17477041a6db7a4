/** The clock display: `formatTime(seconds)` as the component writes it with JavaScript's
    `Math.floor`, `%`, `toString` and `padStart(2, '0')`. */
module Clock {

  function DigitChar(d: int): char
    requires 0 <= d < 10
  {
    ('0' as int + d) as char
  }

  predicate IsDigit(ch: char) {
    '0' <= ch <= '9'
  }

  function DigitValue(ch: char): int
    requires IsDigit(ch)
  {
    ch as int - '0' as int
  }

  /** The decimal digits of n, most significant first, without leading zeros. */
  function NatToString(n: nat): string
    decreases n
  {
    if n < 10 then [DigitChar(n)] else NatToString(n / 10) + [DigitChar(n % 10)]
  }

  /** JavaScript's `Number.prototype.toString` on an integer. */
  function IntToString(n: int): string {
    if n < 0 then "-" + NatToString(-n) else NatToString(n)
  }

  /** JavaScript's `s.padStart(2, '0')`. */
  function PadStart2(s: string): string {
    if |s| >= 2 then s else Zeros(2 - |s|) + s
  }

  function Zeros(z: nat): string {
    seq(z, _ => '0')
  }

  /** JavaScript's `x % m` for m > 0: the remainder takes the sign of x. */
  function TruncRem(x: int, m: int): int
    requires m > 0
  {
    if x >= 0 then x % m else -((-x) % m)
  }

  /** `formatTime(seconds)`: minutes (rounded down) and seconds, each padded to two digits. */
  function FormatTime(seconds: int): string {
    PadStart2(IntToString(seconds / 60)) + ":" + PadStart2(IntToString(TruncRem(seconds, 60)))
  }

  /** The value of a string of decimal digits. */
  function ParseNat(s: string): nat
    requires forall k :: 0 <= k < |s| ==> IsDigit(s[k])
  {
    if s == [] then 0 else ParseNat(s[..|s| - 1]) * 10 + DigitValue(s[|s| - 1])
  }

  lemma {:induction false} NatToStringDigits(n: nat)
    ensures 1 <= |NatToString(n)|
    ensures forall k :: 0 <= k < |NatToString(n)| ==> IsDigit(NatToString(n)[k])
    ensures ParseNat(NatToString(n)) == n
    ensures n < 10 <==> |NatToString(n)| == 1
    ensures n < 100 ==> |NatToString(n)| <= 2
    decreases n
  {
    if n >= 10 {
      NatToStringDigits(n / 10);
      var s := NatToString(n);
      assert s[..|s| - 1] == NatToString(n / 10);
    }
  }

  lemma {:induction false} LeadingZeros(z: nat, s: string)
    requires forall k :: 0 <= k < |s| ==> IsDigit(s[k])
    ensures forall k :: 0 <= k < |Zeros(z) + s| ==> IsDigit((Zeros(z) + s)[k])
    ensures ParseNat(Zeros(z) + s) == ParseNat(s)
    decreases |s|
  {
    var t := Zeros(z) + s;
    if s == [] {
      assert t == Zeros(z);
      ZerosParse(z);
    } else {
      LeadingZeros(z, s[..|s| - 1]);
      assert t[..|t| - 1] == Zeros(z) + s[..|s| - 1];
    }
  }

  lemma {:induction false} ZerosParse(z: nat)
    ensures ParseNat(Zeros(z)) == 0
  {
    if z > 0 {
      ZerosParse(z - 1);
      assert Zeros(z)[..z - 1] == Zeros(z - 1);
    }
  }

  lemma PadStart2Digits(n: nat)
    ensures var p := PadStart2(NatToString(n));
      |p| == (if n < 100 then 2 else |NatToString(n)|) &&
      (forall k :: 0 <= k < |p| ==> IsDigit(p[k])) && ParseNat(p) == n
  {
    NatToStringDigits(n);
    var s := NatToString(n);
    if |s| < 2 {
      LeadingZeros(2 - |s|, s);
    }
  }

  /** A non-negative clock value reads back from its display: the text is minutes, ':' and
      exactly two digits of seconds below 60; minutes * 60 + seconds is the clock value; and
      below 100 minutes the text is exactly "mm:ss". */
  lemma FormatTimeRoundTrip(seconds: int)
    requires seconds >= 0
    ensures var t := FormatTime(seconds);
      |t| >= 5 && t[|t| - 3] == ':' &&
      (forall k :: 0 <= k < |t| && k != |t| - 3 ==> IsDigit(t[k])) &&
      ParseNat(t[|t| - 2..]) < 60 &&
      ParseNat(t[..|t| - 3]) * 60 + ParseNat(t[|t| - 2..]) == seconds &&
      (seconds < 6000 ==> |t| == 5)
  {
    var m, r := seconds / 60, seconds % 60;
    PadStart2Digits(m);
    PadStart2Digits(r);
    var mp, rp := PadStart2(NatToString(m)), PadStart2(NatToString(r));
    var t := FormatTime(seconds);
    assert t == mp + ":" + rp;
    assert t[..|t| - 3] == mp;
    assert t[|t| - 2..] == rp;
    assert seconds < 6000 ==> m < 100;
  }
}
