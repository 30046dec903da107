/** Decimal numbers as text. */
module Decimal {
  import opened Basics

  predicate IsDigit(c: char)
  {
    '0' <= c <= '9'
  }

  predicate AllDigits(s: string)
  {
    forall i :: 0 <= i < |s| ==> IsDigit(s[i])
  }

  function Value(s: string): (n: nat)
    requires AllDigits(s)
  {
    if s == "" then 0 else
      assert IsDigit(s[|s| - 1]);
      Value(s[..|s| - 1]) * 10 + (s[|s| - 1] as int - '0' as int)
  }

  function DigitOf(d: nat): (c: char)
    requires d < 10
    ensures IsDigit(c) && c as int - '0' as int == d
  {
    ('0' as int + d) as char
  }

  function Print(n: nat): (s: string)
    ensures s != "" && AllDigits(s)
  {
    if n < 10 then [DigitOf(n)] else Print(n / 10) + [DigitOf(n % 10)]
  }

  lemma {:induction false} PrintValue(n: nat)
    ensures Value(Print(n)) == n
  {
    var s := Print(n);
    if n < 10 {
      assert s[..0] == "";
    } else {
      PrintValue(n / 10);
      assert s[..|s| - 1] == Print(n / 10);
    }
  }

  lemma {:induction false} PrintHasNoLeadingZero(n: nat)
    ensures Print(n)[0] == '0' <==> n == 0
  {
    if n >= 10 { PrintHasNoLeadingZero(n / 10); }
  }

  /** An unsigned number of at most `limit`, with an optional plus sign and any leading zeros. */
  function ParseUnsigned(s: string, limit: nat): (r: Option<nat>)
    ensures r.Some? ==> r.value <= limit
  {
    var digits := if s != "" && s[0] == '+' then s[1..] else s;
    if digits != "" && AllDigits(digits) && Value(digits) <= limit then Some(Value(digits)) else None
  }

  lemma PrintParses(n: nat, limit: nat)
    requires n <= limit
    ensures ParseUnsigned(Print(n), limit) == Some(n)
  {
    PrintValue(n);
    assert IsDigit(Print(n)[0]);
  }

  // ---- Every spelling of a number ----

  function Zeros(k: nat): (s: string)
    ensures |s| == k && AllDigits(s)
  {
    seq(k, _ => '0')
  }

  /** A number with an optional plus sign and leading zeros. */
  function Spelled(plus: bool, zeros: nat, n: nat): (s: string)
  {
    (if plus then "+" else "") + Zeros(zeros) + Print(n)
  }

  lemma {:induction false} ZerosAddNothing(k: nat, digits: string)
    requires AllDigits(digits)
    ensures AllDigits(Zeros(k) + digits) && Value(Zeros(k) + digits) == Value(digits)
    decreases |digits|, k
  {
    var s := Zeros(k) + digits;
    if digits != "" {
      ZerosAddNothing(k, digits[..|digits| - 1]);
      assert s[..|s| - 1] == Zeros(k) + digits[..|digits| - 1];
    } else if k > 0 {
      ZerosAddNothing(k - 1, "");
      assert s[..|s| - 1] == Zeros(k - 1) + "";
    }
  }

  lemma {:induction false} DigitsSpelled(s: string) returns (zeros: nat)
    requires s != "" && AllDigits(s)
    ensures s == Zeros(zeros) + Print(Value(s))
  {
    var n := |s| - 1;
    assert s == s[..n] + [s[n]];
    if n == 0 {
      zeros := 0;
    } else {
      zeros := DigitsSpelled(s[..n]);
      if Value(s[..n]) == 0 {
        assert Zeros(zeros) + "0" == Zeros(zeros + 1);
        zeros := zeros + 1;
      }
    }
  }

  lemma SpelledParses(plus: bool, zeros: nat, n: nat, limit: nat)
    ensures ParseUnsigned(Spelled(plus, zeros, n), limit) == if n <= limit then Some(n) else None
  {
    hide Value;
    var digits := Zeros(zeros) + Print(n);
    ZerosAddNothing(zeros, Print(n));
    PrintValue(n);
    var s := Spelled(plus, zeros, n);
    assert IsDigit(digits[0]);
    if plus {
      assert s == "+" + digits && s[1..] == digits;
    } else {
      assert s == digits;
    }
  }

  // What is read is one of those spellings of the number.
  lemma OnlySpelledParses(s: string, limit: nat) returns (plus: bool, zeros: nat)
    requires ParseUnsigned(s, limit).Some?
    ensures s == Spelled(plus, zeros, ParseUnsigned(s, limit).value)
  {
    hide Value, Print, Zeros, AllDigits;
    plus := s != "" && s[0] == '+';
    var digits := if plus then s[1..] else s;
    zeros := DigitsSpelled(digits);
    var sign, z, p := if plus then "+" else "", Zeros(zeros), Print(Value(digits));
    assert s == sign + digits;
    assert sign + (z + p) == sign + z + p;
  }
}
