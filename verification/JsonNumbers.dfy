/** Printing a 64-bit integer and reading it back. */
module JsonNumbers {
  import opened Options
  import opened JsonValue
  import opened JsonTokener

  predicate AllDigits(s: string) {
    forall c <- s :: IsDigit(c)
  }

  lemma {:induction false} LeadingDigitsOfDigits(s: string)
    requires AllDigits(s)
    ensures LeadingDigits(s) == s
  {
    if s != "" {
      assert s[0] in s;
      forall c <- s[1..] ensures IsDigit(c) { assert c in s; }
      LeadingDigitsOfDigits(s[1..]);
    }
  }

  lemma {:induction false} PrintNatDigits(n: nat)
    ensures AllDigits(PrintNat(n))
    ensures DigitsValue(PrintNat(n)) == n
    ensures PrintNat(n)[0] == '0' ==> n == 0
  {
    if n >= 10 {
      PrintNatDigits(n / 10);
      var s := PrintNat(n);
      assert s[..|s| - 1] == PrintNat(n / 10);
      assert s[|s| - 1] == DigitChar(n % 10);
      assert s[0] == PrintNat(n / 10)[0];
    } else {
      var s := PrintNat(n);
      assert s[..0] == "" && s == [DigitChar(n)];
      assert DigitsValue(s[..|s| - 1]) == 0;
    }
  }

  lemma ParsePrintedNat(n: nat)
    requires n <= INT64_MAX
    ensures ParseInt64(PrintNat(n)) == Some(n)
    ensures PrintNat(n)[0] == '0' ==> n == 0
    ensures forall c <- PrintNat(n) :: IsDigit(c)
  {
    hide PrintNat, LeadingDigits, DigitsValue;
    PrintNatDigits(n);
    LeadingDigitsOfDigits(PrintNat(n));
    assert PrintNat(n)[0] in PrintNat(n);
  }

  lemma ParsePrintedNegative(i: int)
    requires INT64_MIN <= i < 0
    ensures ParseInt64(PrintInt(i)) == Some(i)
    ensures PrintInt(i)[0] == '-'
    ensures forall c <- PrintInt(i) :: IsDigit(c) || c == '-'
  {
    hide PrintNat, LeadingDigits, DigitsValue;
    PrintNatDigits(0 - i);
    LeadingDigitsOfDigits(PrintNat(0 - i));
    assert PrintInt(i)[1..] == PrintNat(0 - i);
  }

  /** json_parse_int64 inverts the %PRId64 printout on the whole 64-bit range. */
  lemma ParsePrintedInt(i: int)
    requires INT64_MIN <= i <= INT64_MAX
    ensures ParseInt64(PrintInt(i)) == Some(i)
    ensures PrintInt(i)[0] == '0' ==> i == 0
    ensures forall c <- PrintInt(i) :: IsDigit(c) || c == '-'
  {
    hide ParseInt64, PrintNat, IsDigit;
    if i < 0 {
      ParsePrintedNegative(i);
    } else {
      ParsePrintedNat(i);
    }
  }
}
