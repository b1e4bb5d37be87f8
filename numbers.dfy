/**
  Decimal integers as Rust's `str::parse::<i32>()` reads them: an optional '+'
  or '-', then one or more ASCII digits, with a value in the 32-bit signed
  range; anything else is an error. The shell's `exit` builtin parses its
  status this way.
 */
module Numbers {
  import opened Wrappers

  const I32_MIN: int := -0x8000_0000
  const I32_MAX: int := 0x7fff_ffff

  predicate IsDigit(c: char) { '0' <= c <= '9' }

  predicate AllDigits(ds: string) { forall i :: 0 <= i < |ds| ==> IsDigit(ds[i]) }

  function DigitValue(c: char): nat
    requires IsDigit(c)
  {
    c as int - '0' as int
  }

  /** The value of a string of decimal digits, most significant first. */
  function DigitsValue(ds: string): nat
    requires AllDigits(ds)
  {
    if ds == [] then 0
    else DigitsValue(ds[..|ds| - 1]) * 10 + DigitValue(ds[|ds| - 1])
  }

  predicate IsSign(c: char) { c == '+' || c == '-' }

  /**
    `str::parse::<i32>()`: the empty string and a lone sign are errors, a
    leading sign is dropped, every remaining character must be a digit, and
    the value must fit in 32 bits (Rust's checked accumulation overflows
    exactly when the final value is out of range).
   */
  function ParseI32(s: string): (r: Option<int>)
    ensures r.Some? ==> I32_MIN <= r.value <= I32_MAX
    ensures r.Some? ==> |s| >= 1 && (IsDigit(s[0]) || (IsSign(s[0]) && |s| >= 2))
    ensures r.Some? ==> forall i :: 1 <= i < |s| ==> IsDigit(s[i])
    ensures r.Some? && r.value < 0 ==> s[0] == '-'
  {
    if s == [] then None
    else if IsSign(s[0]) && |s| == 1 then None
    else
      var negative := s[0] == '-';
      var digits := if IsSign(s[0]) then s[1..] else s;
      if !AllDigits(digits) then None
      else
        var magnitude: int := DigitsValue(digits);
        var v := if negative then -magnitude else magnitude;
        if I32_MIN <= v <= I32_MAX then Some(v) else None
  }

  /** The shortest decimal digits of `n`, most significant first. */
  function DecimalDigits(n: nat): (ds: string)
    ensures |ds| >= 1 && AllDigits(ds) && DigitsValue(ds) == n
    decreases n
  {
    var d := ['0' + (n % 10) as char];
    if n < 10 then d
    else
      var front := DecimalDigits(n / 10);
      var ds := front + d;
      assert ds[..|ds| - 1] == front;
      ds
  }

  /** Decimal text of an integer, with a '-' for negatives (Rust's `Display`). */
  function FormatInt(n: int): string
  {
    if n < 0 then "-" + DecimalDigits(-n) else DecimalDigits(n)
  }

  /** Parsing is the inverse of formatting on the whole 32-bit range. */
  lemma ParseFormat(n: int)
    requires I32_MIN <= n <= I32_MAX
    ensures ParseI32(FormatInt(n)) == Some(n)
  {
    var s := FormatInt(n);
    if n < 0 {
      assert s[1..] == DecimalDigits(-n);
    } else {
      assert !IsSign(s[0]);
    }
  }

  lemma DigitsSnoc(ds: string, c: char)
    requires AllDigits(ds) && IsDigit(c)
    ensures DigitsValue(ds + [c]) == DigitsValue(ds) * 10 + DigitValue(c)
  {
    assert (ds + [c])[..|ds|] == ds;
  }

  /**
    A string of digits parses to its value when that fits; a leading '+'
    changes nothing, and a leading '-' negates the value, which then fits down
    to -2^31.
   */
  lemma ParseSigns(ds: string)
    requires ds != [] && AllDigits(ds)
    ensures ParseI32(ds) == if DigitsValue(ds) <= I32_MAX then Some(DigitsValue(ds)) else None
    ensures ParseI32("+" + ds) == ParseI32(ds)
    ensures ParseI32("-" + ds) == if DigitsValue(ds) <= -I32_MIN then Some(-(DigitsValue(ds) as int)) else None
  {
    assert ("+" + ds)[1..] == ds && ("-" + ds)[1..] == ds;
  }

  /** A leading zero does not change the value of a string of digits. */
  lemma {:induction false} DigitsLeadingZero(ds: string)
    requires AllDigits(ds)
    ensures AllDigits("0" + ds) && DigitsValue("0" + ds) == DigitsValue(ds)
  {
    if ds != [] {
      var front := ds[..|ds| - 1];
      DigitsLeadingZero(front);
      var z := "0" + ds;
      assert z[..|z| - 1] == "0" + front;
      assert z[|z| - 1] == ds[|ds| - 1];
    }
  }

  /** Leading zeros are accepted after an optional sign and do not change the result. */
  lemma ParseLeadingZero(ds: string)
    requires ds != [] && AllDigits(ds)
    ensures ParseI32("0" + ds) == ParseI32(ds)
    ensures ParseI32("+" + ("0" + ds)) == ParseI32(ds)
    ensures ParseI32("-" + ("0" + ds)) == ParseI32("-" + ds)
  {
    DigitsLeadingZero(ds);
    ParseSigns(ds);
    ParseSigns("0" + ds);
  }

  /**
    The empty string and a lone sign are errors, and so is any string with a
    character other than a digit, save for a sign in front.
   */
  lemma ParseMalformed(s: string)
    ensures |s| == 0 ==> ParseI32(s) == None
    ensures |s| == 1 && IsSign(s[0]) ==> ParseI32(s) == None
    ensures (exists i :: 0 <= i < |s| && !IsDigit(s[i]) && !(i == 0 && IsSign(s[i]))) ==> ParseI32(s) == None
  {
  }

  /**
    Formatting any integer outside the 32-bit range gives text that does not
    parse (Rust reports an overflow); with `ParseFormat`, formatted text
    parses back exactly when the value fits in an `i32`.
   */
  lemma ParseOutOfRange(n: int)
    requires n < I32_MIN || I32_MAX < n
    ensures ParseI32(FormatInt(n)) == None
  {
    var s := FormatInt(n);
    if n < 0 {
      assert s[1..] == DecimalDigits(-n);
    } else {
      assert !IsSign(s[0]);
    }
  }
}
