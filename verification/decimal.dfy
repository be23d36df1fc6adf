/** Decimal notation: strconv.FormatInt, strconv.Atoi and zero-padded fields. */
module Decimal {
  import opened Wrappers

  function Digit(d: int): char
    requires 0 <= d < 10
  {
    (d + '0' as int) as char
  }

  predicate IsDigit(c: char) {
    '0' <= c <= '9'
  }

  function FormatNat(n: nat): (s: string)
    ensures s != "" && forall k | 0 <= k < |s| :: IsDigit(s[k])
  {
    if n < 10 then [Digit(n)] else FormatNat(n / 10) + [Digit(n % 10)]
  }

  function FormatInt(n: int): string {
    if n < 0 then "-" + FormatNat(-n) else FormatNat(n)
  }

  function DigitsValue(s: string): nat
    requires forall k | 0 <= k < |s| :: IsDigit(s[k])
  {
    if s == "" then 0
    else
      assert IsDigit(s[|s| - 1]);
      10 * DigitsValue(s[..|s| - 1]) + (s[|s| - 1] as int - '0' as int)
  }

  function ParseDigits(s: string): Option<int> {
    if s != "" && forall k | 0 <= k < |s| :: IsDigit(s[k]) then Some(DigitsValue(s)) else None
  }

  /** An optional sign and at least one digit. Numbers too large for the machine are not singled out. */
  function Atoi(s: string): Option<int> {
    if s != "" && s[0] == '-' then
      match ParseDigits(s[1..]) case None => None case Some(n) => Some(-n)
    else if s != "" && s[0] == '+' then ParseDigits(s[1..])
    else ParseDigits(s)
  }

  lemma {:induction false} ParseFormattedNat(n: nat)
    ensures DigitsValue(FormatNat(n)) == n
  {
    if n >= 10 {
      ParseFormattedNat(n / 10);
      var s := FormatNat(n);
      assert s[..|s| - 1] == FormatNat(n / 10);
    } else {
      assert [Digit(n)][..0] == "";
    }
  }

  /** Reading back what was written. */
  lemma ParseFormatted(n: int)
    ensures Atoi(FormatInt(n)) == Some(n)
  {
    ParseFormattedNat(if n < 0 then -n else n);
    assert n < 0 ==> FormatInt(n)[1..] == FormatNat(-n);
    assert n >= 0 ==> IsDigit(FormatInt(n)[0]);
  }

  function Zeros(k: nat): (s: string)
    ensures forall i | 0 <= i < |s| :: IsDigit(s[i])
  {
    seq(k, _ => '0')
  }

  lemma {:induction false} ZerosAddNothing(k: nat, s: string)
    requires forall i | 0 <= i < |s| :: IsDigit(s[i])
    ensures DigitsValue(Zeros(k) + s) == DigitsValue(s)
    decreases |s|, k
  {
    if s != "" {
      assert (Zeros(k) + s)[..k + |s| - 1] == Zeros(k) + s[..|s| - 1];
      ZerosAddNothing(k, s[..|s| - 1]);
    } else if k > 0 {
      assert Zeros(k) + s == Zeros(k) && Zeros(k)[..k - 1] == Zeros(k - 1) + s;
      ZerosAddNothing(k - 1, s);
    }
  }

  /** Any digits are a number as it is written, after some zeros. */
  lemma {:induction false} DigitsAreZerosAndNumber(s: string) returns (k: nat)
    requires s != "" && forall i | 0 <= i < |s| :: IsDigit(s[i])
    ensures s == Zeros(k) + FormatNat(DigitsValue(s))
  {
    var front, d := s[..|s| - 1], s[|s| - 1] as int - '0' as int;
    assert IsDigit(s[|s| - 1]) && s == front + [Digit(d)];
    assert DigitsValue(s) == 10 * DigitsValue(front) + d;
    if front == "" {
      k := 0;
      assert s == Zeros(0) + [Digit(d)];
    } else {
      k := DigitsAreZerosAndNumber(front);
      var n := DigitsValue(front);
      hide DigitsValue;
      if n == 0 {
        assert front == Zeros(k) + "0" == Zeros(k + 1);
        k := k + 1;
      } else {
        assert FormatNat(10 * n + d) == FormatNat(n) + [Digit(d)];
      }
    }
  }

  /** s is n: the number as it is written, after an optional sign and any zeros. */
  ghost predicate IsNumeral(s: string, n: int) {
    exists sign, k: nat, m: nat :: IsSigned(s, n, sign, k, m)
  }

  predicate IsSigned(s: string, n: int, sign: string, k: nat, m: nat) {
    sign in {"", "+", "-"} && s == sign + (Zeros(k) + FormatNat(m)) && (if sign == "-" then n + m == 0 else n == m)
  }

  lemma NumeralIsParsed(s: string, n: int, sign: string, k: nat, m: nat)
    requires IsSigned(s, n, sign, k, m)
    ensures Atoi(s) == Some(n)
  {
    var digits := Zeros(k) + FormatNat(m);
    ZerosAddNothing(k, FormatNat(m));
    ParseFormattedNat(m);
    assert IsDigit(digits[0]);
    if sign == "" {
      assert s == digits;
    } else {
      assert s[1..] == digits && s[0] == sign[0];
    }
  }

  /** Exactly the numerals are numbers; nothing else is. */
  lemma AtoiExactly(s: string, n: int)
    ensures Atoi(s) == Some(n) <==> IsNumeral(s, n)
  {
    if IsNumeral(s, n) {
      var sign, k: nat, m: nat :| IsSigned(s, n, sign, k, m);
      NumeralIsParsed(s, n, sign, k, m);
    }
    if Atoi(s) == Some(n) { ParsedIsNumeral(s, n); }
  }

  lemma ParsedIsNumeral(s: string, n: int)
    requires Atoi(s) == Some(n)
    ensures IsNumeral(s, n)
  {
    hide DigitsValue, FormatNat, Zeros;
    var sign := if s[0] == '-' then "-" else if s[0] == '+' then "+" else "";
    var digits := s[|sign|..];
    assert ParseDigits(digits).Some?;
    var m := DigitsValue(digits);
    assert if sign == "-" then n + m == 0 else n == m;
    hide ParseDigits, Atoi;
    var k := DigitsAreZerosAndNumber(digits);
    assert s == sign + digits;
    assert IsSigned(s, n, sign, k, m);
  }

  /** n in exactly width digits. */
  function Pad(n: nat, width: nat): (s: string)
    ensures |s| == width && forall k | 0 <= k < |s| :: IsDigit(s[k])
  {
    if width == 0 then "" else Pad(n / 10, width - 1) + [Digit(n % 10)]
  }

  function Pow10(k: nat): nat {
    if k == 0 then 1 else 10 * Pow10(k - 1)
  }

  lemma MultiplesAreFarFromZero(d: int, e: int)
    requires d > 0
    ensures (e > 0 ==> d * e >= d) && (e < 0 ==> d * e <= -d)
  {
  }

  lemma Division(n: int, d: int, q: int, r: int)
    requires 0 <= r < d && n == d * q + r
    ensures n / d == q && n % d == r
  {
    var e := n / d - q;
    assert d * e == r - n % d;
    MultiplesAreFarFromZero(d, e);
  }

  lemma DivisionInSteps(n: nat, d: nat)
    requires d > 0
    ensures n / (10 * d) == n / 10 / d
    ensures n % (10 * d) == 10 * (n / 10 % d) + n % 10
  {
    var m := n / 10;
    assert 10 * (d * (m / d)) == 10 * d * (m / d);
    Division(n, 10 * d, m / d, 10 * (m % d) + n % 10);
  }

  lemma {:induction false} Pow10IsPositive(k: nat)
    ensures Pow10(k) > 0
  {
    if k > 0 { Pow10IsPositive(k - 1); }
  }

  /** Reading back what was padded. */
  lemma {:induction false} ParsePadded(n: nat, width: nat)
    requires n < Pow10(width)
    ensures DigitsValue(Pad(n, width)) == n
  {
    if width > 0 {
      ParsePadded(n / 10, width - 1);
      assert Pad(n, width)[..width - 1] == Pad(n / 10, width - 1);
    }
  }

  ghost predicate ZerosFrom(s: string, k: nat) {
    forall i | k <= i < |s| :: s[i] == '0'
  }

  lemma ZerosWithOneMore(s: string, k: nat, c: char)
    requires k <= |s|
    ensures ZerosFrom(s + [c], k) <==> ZerosFrom(s, k) && c == '0'
  {
    assert (s + [c])[|s|] == c;
    assert forall i | 0 <= i < |s| :: (s + [c])[i] == s[i];
  }

  /** The digits from the k-th on are all zero exactly when the remainder by the power of ten is. */
  lemma {:induction false} PadEndsInZeros(n: nat, width: nat, k: nat)
    requires k <= width
    ensures Pow10(width - k) > 0
    ensures n % Pow10(width - k) == 0 <==> ZerosFrom(Pad(n, width), k)
  {
    Pow10IsPositive(width - k);
    if k < width {
      var d := Pow10(width - 1 - k);
      Pow10IsPositive(width - 1 - k);
      PadEndsInZeros(n / 10, width - 1, k);
      DivisionInSteps(n, d);
      ZerosWithOneMore(Pad(n / 10, width - 1), k, Digit(n % 10));
      hide ZerosFrom;
    }
  }

  /** Two numbers that fit have the same first k digits exactly when their quotients are equal. */
  lemma {:induction false} PadsAgree(a: nat, b: nat, width: nat, k: nat)
    requires k <= width && a < Pow10(width) && b < Pow10(width)
    ensures Pow10(width - k) > 0
    ensures Pad(a, width)[..k] == Pad(b, width)[..k] <==> a / Pow10(width - k) == b / Pow10(width - k)
  {
    Pow10IsPositive(width - k);
    if k < width {
      PadsAgree(a / 10, b / 10, width - 1, k);
      DivisionInSteps(a, Pow10(width - 1 - k));
      DivisionInSteps(b, Pow10(width - 1 - k));
      assert Pad(a, width)[..k] == Pad(a / 10, width - 1)[..k];
      assert Pad(b, width)[..k] == Pad(b / 10, width - 1)[..k];
    } else if a != b {
      var d := PadOrder(if a < b then a else b, if a < b then b else a, width);
      assert Pad(a, width)[..k] == Pad(a, width) && Pad(b, width)[..k] == Pad(b, width);
    }
  }

  /** Where two padded numbers first differ, the smaller number has the smaller digit. */
  lemma {:induction false} PadOrder(a: nat, b: nat, width: nat) returns (k: nat)
    requires a < b < Pow10(width)
    ensures k < width && Pad(a, width)[..k] == Pad(b, width)[..k] && Pad(a, width)[k] < Pad(b, width)[k]
  {
    var x, y := Pad(a / 10, width - 1), Pad(b / 10, width - 1);
    if a / 10 == b / 10 {
      k := width - 1;
      assert Pad(a, width)[..k] == x == Pad(b, width)[..k];
    } else {
      k := PadOrder(a / 10, b / 10, width - 1);
      assert Pad(a, width)[..k] == x[..k] == y[..k] == Pad(b, width)[..k];
    }
  }
}
