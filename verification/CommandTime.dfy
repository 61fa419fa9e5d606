/** The text checks on a command: its identifier, and its expiry against the device clock. */
module CommandTime {

  predicate IsDigit(c: char) { '0' <= c <= '9' }

  predicate IsHexDigit(c: char) { IsDigit(c) || 'a' <= c <= 'f' || 'A' <= c <= 'F' }

  predicate IsUuid(value: string) {
    && |value| == 36
    && forall i | 0 <= i < 36 ::
         if i == 8 || i == 13 || i == 18 || i == 23 then value[i] == '-' else IsHexDigit(value[i])
  }

  method UuidIsValid(value: string) returns (valid: bool)
    ensures valid == IsUuid(value)
  {
    if |value| != 36 {
      return false;
    }
    for index := 0 to 36
      invariant forall i | 0 <= i < index ::
          if i == 8 || i == 13 || i == 18 || i == 23 then value[i] == '-' else IsHexDigit(value[i])
    {
      if index == 8 || index == 13 || index == 18 || index == 23 {
        if value[index] != '-' {
          return false;
        }
      } else if !IsHexDigit(value[index]) {
        return false;
      }
    }
    return true;
  }

  /** The punctuation of `YYYY-MM-DDThh:mm:ss`; zero stands for a digit. */
  const PATTERN := "0000-00-00T00:00:00"

  predicate Matches(c: char, i: nat)
    requires i < |PATTERN|
  {
    if PATTERN[i] == '0' then IsDigit(c) else c == PATTERN[i]
  }

  predicate IsStamp(value: string) {
    |value| >= 19 && forall i | 0 <= i < 19 :: Matches(value[i], i)
  }

  /** A UTC time to the second, with up to nine digits of fraction. */
  predicate IsUtc(value: string) {
    && 20 <= |value| <= 30 && IsStamp(value) && value[|value| - 1] == 'Z'
    && (|value| > 20 ==> |value| >= 22 && value[19] == '.' && forall i | 20 <= i < |value| - 1 :: IsDigit(value[i]))
  }

  method UtcValueIsValid(value: string) returns (valid: bool)
    ensures valid == IsUtc(value)
  {
    var length := |value|;
    if length < 20 || length > 30 || value[4] != '-' || value[7] != '-' || value[10] != 'T' || value[13] != ':'
       || value[16] != ':' || value[length - 1] != 'Z' {
      assert !IsUtc(value) by {
        if IsStamp(value) && 20 <= length <= 30 {
          assert Matches(value[4], 4) && Matches(value[7], 7) && Matches(value[10], 10);
          assert Matches(value[13], 13) && Matches(value[16], 16);
        }
      }
      return false;
    }
    for index := 0 to 19
      invariant forall i | 0 <= i < index :: Matches(value[i], i)
    {
      if index != 4 && index != 7 && index != 10 && index != 13 && index != 16 && !IsDigit(value[index]) {
        assert !Matches(value[index], index);
        return false;
      }
    }
    if length > 20 {
      if length < 22 {
        return false;
      }
      if value[19] != '.' {
        return false;
      }
      for index := 20 to length - 1
        invariant forall i | 20 <= i < index :: IsDigit(value[i])
      {
        if !IsDigit(value[index]) {
          return false;
        }
      }
    }
    return true;
  }

  // ----- expiry

  /** The sign tells which text comes first in the order of its first `n` characters. */
  function Compare(a: string, b: string, i: nat, n: nat): int
    requires i <= n <= |a| && n <= |b|
    decreases n - i
  {
    if i == n then 0 else if a[i] != b[i] then a[i] as int - b[i] as int else Compare(a, b, i + 1, n)
  }

  predicate Expired(now: string, expiresAt: string)
    requires IsStamp(now) && IsUtc(expiresAt)
  {
    var order := Compare(now, expiresAt, 0, 19);
    order > 0 || (order == 0 && expiresAt[19] == 'Z')
  }

  function Digit(c: char): nat
    requires IsDigit(c)
  {
    c as int - '0' as int
  }

  /** The digits of a date and time read as one number, year first, which orders times as they pass. */
  function Seconds(value: string, n: nat): nat
    requires IsStamp(value) && n <= 19
  {
    if n == 0 then 0
    else if PATTERN[n - 1] != '0' then Seconds(value, n - 1)
    else assert Matches(value[n - 1], n - 1); 10 * Seconds(value, n - 1) + Digit(value[n - 1])
  }

  function Fraction(digits: string): (f: real)
    requires forall c | c in digits :: IsDigit(c)
    ensures 0.0 <= f < 1.0
  {
    if digits == [] then 0.0
    else assert digits[0] in digits; (Digit(digits[0]) as real + Fraction(digits[1..])) / 10.0
  }

  /** The time an expiry names, on the scale of Seconds. */
  function Instant(value: string): real
    requires IsUtc(value)
  {
    Seconds(value, 19) as real + if |value| == 20 then 0.0 else Fraction(value[20..|value| - 1])
  }

  lemma {:induction false} SamePrefix(a: string, b: string, n: nat)
    requires IsStamp(a) && IsStamp(b) && n <= 19 && a[..n] == b[..n]
    ensures Seconds(a, n) == Seconds(b, n)
  {
    if n > 0 {
      assert a[..n - 1] == a[..n][..n - 1] == b[..n - 1];
      SamePrefix(a, b, n - 1);
      assert a[n - 1] == a[..n][n - 1];
    }
  }

  lemma {:induction false} LeadKept(a: string, b: string, m: nat, n: nat)
    requires IsStamp(a) && IsStamp(b) && m <= n <= 19 && Seconds(a, m) < Seconds(b, m)
    ensures Seconds(a, n) < Seconds(b, n)
  {
    if m < n {
      LeadKept(a, b, m, n - 1);
      if PATTERN[n - 1] == '0' {
        assert Matches(a[n - 1], n - 1) && Matches(b[n - 1], n - 1);
      }
    }
  }

  /** Text order is time order. */
  lemma {:induction false} CompareIsTimeOrder(a: string, b: string, i: nat)
    requires IsStamp(a) && IsStamp(b) && i <= 19 && a[..i] == b[..i]
    ensures var order := Compare(a, b, i, 19);
            && (order > 0 <==> Seconds(a, 19) > Seconds(b, 19)) && (order == 0 <==> Seconds(a, 19) == Seconds(b, 19))
    decreases 19 - i
  {
    SamePrefix(a, b, i);
    if i < 19 {
      if a[i] == b[i] {
        assert a[..i + 1] == a[..i] + [a[i]] && b[..i + 1] == b[..i] + [b[i]];
        CompareIsTimeOrder(a, b, i + 1);
      } else {
        assert Matches(a[i], i) && Matches(b[i], i);
        if a[i] < b[i] {
          LeadKept(a, b, i + 1, 19);
        } else {
          LeadKept(b, a, i + 1, 19);
        }
      }
    }
  }

  /**
   * A command is refused as expired exactly when the clock, cut to the second, has passed its expiry
   * or stands at one written without a fraction.
   */
  lemma ExpiredIsPast(now: string, expiresAt: string)
    requires IsStamp(now) && IsUtc(expiresAt)
    ensures Expired(now, expiresAt) <==>
            Seconds(now, 19) as real > Instant(expiresAt)
            || (Seconds(now, 19) as real == Instant(expiresAt) && |expiresAt| == 20)
  {
    CompareIsTimeOrder(now, expiresAt, 0);
    hide Compare, Seconds, Fraction;
    assert expiresAt[19] == 'Z' <==> |expiresAt| == 20;
  }
}
