// Decimal printing and parsing: strconv.FormatUint and ParseUint in base ten, Itoa and Atoi.
module Decimal {
  import opened Words

  const PLUS: byte := 43
  const MINUS: byte := 45

  predicate IsDigit(c: byte) { ZERO_DIGIT <= c <= 57 }

  predicate AllDigits(s: Text) { forall i :: 0 <= i < |s| ==> IsDigit(s[i]) }

  function FormatUint(n: nat): (s: Text)
    ensures |s| >= 1 && AllDigits(s)
  {
    if n < 10 then [ZERO_DIGIT + n] else FormatUint(n / 10) + [ZERO_DIGIT + n % 10]
  }

  function DigitsValue(s: Text): nat
    requires AllDigits(s)
  {
    if s == [] then 0
    else 10 * DigitsValue(s[..|s| - 1]) + (s[|s| - 1] - ZERO_DIGIT)
  }

  function ParseUint(s: Text): Option<uint64> {
    if s != [] && AllDigits(s) && DigitsValue(s) <= MAX_UINT64 then Some(DigitsValue(s)) else None
  }

  function Magnitude(n: int): nat { if n < 0 then -n else n }

  function Itoa(n: int64): (s: Text) {
    if n < 0 then [MINUS] + FormatUint(Magnitude(n)) else FormatUint(n)
  }

  function Atoi(s: Text): Option<int64> {
    var signed := s != [] && (s[0] == PLUS || s[0] == MINUS);
    var digits := if signed then s[1..] else s;
    match ParseUint(digits)
    case None => None
    case Some(u) =>
      var n: int := if signed && s[0] == MINUS then 0 - u else u;
      if -MAX_INT64 - 1 <= n <= MAX_INT64 then Some(n) else None
  }

  lemma {:induction false} FormatUintValue(n: nat)
    ensures DigitsValue(FormatUint(n)) == n
  {
    if n >= 10 {
      FormatUintValue(n / 10);
      var s := FormatUint(n);
      assert s[..|s| - 1] == FormatUint(n / 10);
    } else {
      assert FormatUint(n)[..0] == [];
    }
  }

  lemma ParseFormatUint(u: uint64)
    ensures ParseUint(FormatUint(u)) == Some(u)
  {
    FormatUintValue(u);
  }

  lemma AtoiItoa(n: int64)
    ensures Atoi(Itoa(n)) == Some(n)
  {
    FormatUintValue(Magnitude(n));
    if n < 0 {
      assert Itoa(n)[1..] == FormatUint(Magnitude(n));
    } else {
      assert IsDigit(Itoa(n)[0]);
    }
  }

  // A larger number is never printed with fewer digits.
  lemma {:induction false} FormatUintGrows(m: nat, n: nat)
    requires m <= n
    ensures |FormatUint(m)| <= |FormatUint(n)|
  {
    if m >= 10 {
      FormatUintGrows(m / 10, n / 10);
    }
  }

  // A digit string is the printed form of its value exactly when it has no superfluous zero.
  lemma {:induction false} FormatUintCanonical(s: Text)
    requires s != [] && AllDigits(s)
    ensures FormatUint(DigitsValue(s)) == s <==> |s| == 1 || s[0] != ZERO_DIGIT
    ensures |s| > 1 && s[0] != ZERO_DIGIT ==> DigitsValue(s) >= 10
  {
    var init, n := s[..|s| - 1], DigitsValue(s);
    if |s| == 1 {
      assert init == [] && s == [s[0]];
    } else {
      FormatUintCanonical(init);
      var d := s[|s| - 1] - ZERO_DIGIT;
      assert n / 10 == DigitsValue(init) && n % 10 == d;
      assert s == init + [ZERO_DIGIT + d];
      if s[0] != ZERO_DIGIT && |init| == 1 {
        assert init == [init[0]] && init[..0] == [];
        assert DigitsValue(init) == init[0] - ZERO_DIGIT;
      }
      if n >= 10 {
        assert FormatUint(n) == FormatUint(n / 10) + [ZERO_DIGIT + d];
        assert FormatUint(n)[..|FormatUint(n)| - 1] == FormatUint(n / 10);
      }
    }
  }

  // ----- In plain numbers -----

  // Ten digits from '0' on, the last one first divided off.
  lemma DigitMeaning(n: nat, d: nat)
    requires d < 10
    ensures FormatUint(d) == ['0' as int + d]
    ensures n > 0 ==> FormatUint(10 * n + d) == FormatUint(n) + ['0' as int + d]
  {
  }

  // A printed number is read back unless it takes more than 64 bits.
  lemma ParseUintLimit(n: nat)
    ensures ParseUint(FormatUint(n)) == if n < 18_446_744_073_709_551_616 then Some(n) else None
  {
    FormatUintValue(n);
  }

  // Zeros in front change nothing; nothing at all, or any byte that is no digit, is refused.
  lemma ParseUintMeaning(s: Text)
    ensures s != [] && AllDigits(s) ==> ParseUint([48] + s) == ParseUint(s)
    ensures s == [] || (exists i :: 0 <= i < |s| && !(48 <= s[i] <= 57)) ==> ParseUint(s) == None
  {
    if s != [] && AllDigits(s) {
      ZeroInFront(s);
      assert ([48] + s)[1..] == s;
    }
  }

  lemma {:induction false} ZeroInFront(s: Text)
    requires AllDigits(s)
    ensures AllDigits([48] + s) && DigitsValue([48] + s) == DigitsValue(s)
  {
    var t: Text := [48] + s;
    if s == [] {
      assert t[..0] == [];
    } else {
      ZeroInFront(s[..|s| - 1]);
      assert t[..|t| - 1] == [48] + s[..|s| - 1];
    }
  }

  // With or without a sign, an action count is read back if it fits 64 bits.
  lemma AtoiLimits(n: nat)
    ensures Atoi(FormatUint(n)) == if n < 9_223_372_036_854_775_808 then Some(n) else None
    ensures Atoi(['+' as int] + FormatUint(n)) == if n < 9_223_372_036_854_775_808 then Some(n) else None
    ensures Atoi(['-' as int] + FormatUint(n)) == if n <= 9_223_372_036_854_775_808 then Some(0 - n) else None
    ensures Atoi([]) == None && Atoi(['+' as int]) == None && Atoi(['-' as int]) == None
  {
    ParseUintLimit(n);
    var s := FormatUint(n);
    assert IsDigit(s[0]);
    assert (['+' as int] + s)[1..] == s && (['-' as int] + s)[1..] == s;
  }
}
