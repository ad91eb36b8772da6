/**
  Kotlin's `String.toIntOrNull()` in radix 10: an optional `+` or `-`, then
  one or more decimal digits, whose value must fit a 32-bit `Int`; anything
  else gives `null`.
 */
module KotlinInt {
  import opened Wrappers

  const IntMin: int := -0x8000_0000
  const IntMax: int := 0x7fff_ffff

  predicate IsInt32(n: int) {
    IntMin <= n <= IntMax
  }

  predicate IsDigit(c: char) {
    '0' <= c <= '9'
  }

  predicate AllDigits(s: string) {
    forall i :: 0 <= i < |s| ==> IsDigit(s[i])
  }

  function DigitValue(c: char): nat
    requires IsDigit(c)
  {
    c as int - '0' as int
  }

  function DigitChar(d: nat): char
    requires d < 10
  {
    ('0' as int + d) as char
  }

  /** The value of a string of decimal digits, most significant first. */
  function DigitsValue(s: string): nat
    requires AllDigits(s)
    decreases |s|
  {
    if |s| == 0 then 0 else DigitsValue(s[..|s| - 1]) * 10 + DigitValue(s[|s| - 1])
  }

  /** The reference meaning of `toIntOrNull()`: a sign, then digits (leading
      zeros allowed), then a range check against `Int`. */
  function ToIntOrNull(s: string): (r: Option<int>)
    ensures r.Some? ==> IsInt32(r.value)
    ensures r.Some? ==> |s| > 0 && (IsDigit(s[0]) || s[0] == '-' || s[0] == '+')
    ensures r.Some? ==> AllDigits(s[1..])
    ensures r.Some? && s[0] == '-' ==> r.value <= 0
    ensures r.Some? && s[0] != '-' ==> r.value >= 0
  {
    if |s| == 0 then None
    else
      var negative := s[0] == '-';
      var digits := if s[0] == '-' || s[0] == '+' then s[1..] else s;
      if |digits| == 0 || !AllDigits(digits) then None
      else
        var v := if negative then -(DigitsValue(digits) as int) else DigitsValue(digits);
        if IsInt32(v) then Some(v) else None
  }

  /** JVM integer division, which rounds toward zero (only positive divisors
      are needed here). */
  function TruncDiv(a: int, b: int): int
    requires b > 0
  {
    if a < 0 then -((-a) / b) else a / b
  }

  /** The value of a digit string grows as digits are appended. */
  lemma {:induction false} DigitsValuePrefix(s: string, i: nat)
    requires AllDigits(s) && i <= |s|
    ensures DigitsValue(s[..i]) <= DigitsValue(s)
    decreases |s| - i
  {
    if i < |s| {
      DigitsValuePrefix(s, i + 1);
      assert s[..i + 1][..i] == s[..i];
    } else {
      assert s[..i] == s;
    }
  }

  /** The accumulation loop of Kotlin's `toIntOrNull`, which builds the value
      as a negative number so that `Int.MIN_VALUE` is reachable, and checks
      for overflow before every multiplication and subtraction. It agrees
      with the reference meaning on every string. */
  method ParseInt32(s: string) returns (r: Option<int>)
    ensures r == ToIntOrNull(s)
  {
    if |s| == 0 {
      return None;
    }
    var start: nat;
    var negative: bool;
    var limit: int;
    var first := s[0];
    if first < '0' {
      if |s| == 1 {
        return None;
      }
      start := 1;
      if first == '-' {
        negative := true;
        limit := IntMin;
      } else if first == '+' {
        negative := false;
        limit := -IntMax;
      } else {
        return None;
      }
    } else {
      start := 0;
      negative := false;
      limit := -IntMax;
    }
    ghost var digits := s[start..];
    assert digits == if s[0] == '-' || s[0] == '+' then s[1..] else s;
    assert |digits| > 0;

    var limitForMaxRadix := TruncDiv(-IntMax, 36);
    var limitBeforeMul := limitForMaxRadix;
    var result := 0;
    var i := start;
    while i < |s|
      invariant start <= i <= |s|
      invariant AllDigits(s[start..i])
      invariant result == -(DigitsValue(s[start..i]) as int)
      invariant limit <= result
      invariant limitBeforeMul == limitForMaxRadix || limitBeforeMul == TruncDiv(limit, 10)
      decreases |s| - i
    {
      var c := s[i];
      if !IsDigit(c) {
        assert digits[i - start] == c;
        return None;
      }
      var digit := DigitValue(c);
      assert s[start..i + 1][..i - start] == s[start..i];
      ghost var next := DigitsValue(s[start..i + 1]);
      assert next == DigitsValue(s[start..i]) * 10 + digit;
      if result < limitBeforeMul {
        if limitBeforeMul == limitForMaxRadix {
          limitBeforeMul := TruncDiv(limit, 10);
          if result < limitBeforeMul {
            OverflowIsFinal(s, start, i + 1, limit);
            return None;
          }
        } else {
          OverflowIsFinal(s, start, i + 1, limit);
          return None;
        }
      }
      result := result * 10;
      if result < limit + digit {
        OverflowIsFinal(s, start, i + 1, limit);
        return None;
      }
      result := result - digit;
      i := i + 1;
    }
    assert s[start..i] == digits;
    r := Some(if negative then result else -result);
  }

  /** Once a prefix of the digits overflows, the whole string is rejected,
      whatever follows. */
  lemma OverflowIsFinal(s: string, start: nat, j: nat, limit: int)
    requires 0 < |s| && start <= j <= |s|
    requires start == (if s[0] == '-' || s[0] == '+' then 1 else 0)
    requires limit == (if s[0] == '-' then IntMin else -IntMax)
    requires AllDigits(s[start..j]) && -(DigitsValue(s[start..j]) as int) < limit
    ensures ToIntOrNull(s) == None
  {
    var digits := s[start..];
    if AllDigits(digits) {
      assert digits[..j - start] == s[start..j];
      DigitsValuePrefix(digits, j - start);
    }
  }

  /** Decimal rendering of a natural number, without leading zeros. */
  function FormatNat(n: nat): (s: string)
    ensures |s| > 0 && AllDigits(s) && DigitsValue(s) == n
    ensures s[0] != '0' || n == 0
    decreases n
  {
    if n < 10 then [DigitChar(n)]
    else
      var p := FormatNat(n / 10);
      var s := p + [DigitChar(n % 10)];
      assert s[..|s| - 1] == p;
      s
  }

  /** Kotlin's `Int.toString()`. */
  function FormatInt(n: int): (s: string)
    ensures |s| > 0 && (s[0] == '-' <==> n < 0)
  {
    if n < 0 then "-" + FormatNat(-n) else FormatNat(n)
  }

  /** `toIntOrNull` reads back every `Int` from its decimal rendering. */
  lemma ParseFormatRoundTrip(n: int)
    requires IsInt32(n)
    ensures ToIntOrNull(FormatInt(n)) == Some(n)
  {
    var s := FormatInt(n);
    if n < 0 {
      assert s[1..] == FormatNat(-n);
    } else {
      assert IsDigit(FormatNat(n)[0]);
    }
  }

  /** The rendering is never empty and holds only digits, after a minus
      sign for negative numbers. */
  lemma FormatIntChars(n: int)
    ensures |FormatInt(n)| > 0 && IsDigit(FormatInt(n)[|FormatInt(n)| - 1])
    ensures IsDigit(FormatInt(n)[0]) || FormatInt(n)[0] == '-'
    ensures forall c :: c in FormatInt(n) ==> IsDigit(c) || c == '-'
  {
    var s := FormatInt(n);
    if n < 0 {
      assert s == "-" + FormatNat(-n);
      assert forall k :: 0 < k < |s| ==> s[k] == FormatNat(-n)[k - 1];
    }
  }
}
