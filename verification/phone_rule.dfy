/** The contact form's phone rule: strip every non-digit (`/\D/g`), then require the
    pattern `^[6-9]\d{9}$` of a ten-digit mobile number. */
module PhoneRule {

  /** JavaScript's `\d`: the ASCII digits only. */
  predicate IsDigit(c: char) {
    '0' <= c <= '9'
  }

  predicate AllDigits(s: string) {
    forall j :: 0 <= j < |s| ==> IsDigit(s[j])
  }

  /** `phone.replace(/\D/g, '')`: the digits of `s`, in order. */
  function StripNonDigits(s: string): (r: string)
    ensures |r| <= |s|
    ensures AllDigits(r)
  {
    if s == [] then []
    else (if IsDigit(s[0]) then [s[0]] else []) + StripNonDigits(s[1..])
  }

  /** The pattern `^[6-9]\d{9}$`, applied to the stripped string. */
  predicate IsMobileNumber(d: string)
    ensures IsMobileNumber(d) ==> |d| == 10 && AllDigits(d) && d[0] !in "012345"
  {
    |d| == 10 && '6' <= d[0] <= '9' && forall j :: 1 <= j < 10 ==> IsDigit(d[j])
  }

  /** `validatePhone`. */
  predicate ValidatePhone(phone: string)
    ensures ValidatePhone(phone) ==> |phone| >= 10
  {
    IsMobileNumber(StripNonDigits(phone))
  }

  /** Stripping distributes over concatenation: each character is kept or dropped on its own. */
  lemma {:induction false} StripAppend(a: string, b: string)
    ensures StripNonDigits(a + b) == StripNonDigits(a) + StripNonDigits(b)
  {
    if a == [] {
      assert a + b == b;
    } else {
      assert (a + b)[1..] == a[1..] + b;
      StripAppend(a[1..], b);
    }
  }

  /** The strings stripping leaves alone are exactly the all-digit strings. */
  lemma {:induction false} StripFixpoints(s: string)
    ensures StripNonDigits(s) == s <==> AllDigits(s)
  {
    if s != [] && AllDigits(s) {
      StripFixpoints(s[1..]);
    }
  }

  /** Stripping twice is stripping once. */
  lemma StripIdempotent(s: string)
    ensures StripNonDigits(StripNonDigits(s)) == StripNonDigits(s)
  {
    StripFixpoints(StripNonDigits(s));
  }

  /** No digit is lost: every digit occurs as often after stripping as before. */
  lemma {:induction false} StripKeepsEveryDigit(s: string, d: char)
    requires IsDigit(d)
    ensures multiset(StripNonDigits(s))[d] == multiset(s)[d]
  {
    if s != [] {
      assert s == [s[0]] + s[1..];
      StripKeepsEveryDigit(s[1..], d);
    }
  }

  /** A character outside `0`-`9`, wherever it is inserted, never changes the verdict. */
  lemma NonDigitIgnored(a: string, c: char, b: string)
    requires !IsDigit(c)
    ensures StripNonDigits(a + [c] + b) == StripNonDigits(a + b)
    ensures ValidatePhone(a + [c] + b) == ValidatePhone(a + b)
  {
    StripAppend(a + [c], b);
    StripAppend(a, [c]);
    StripAppend(a, b);
    assert StripNonDigits([c]) == [];
  }

  /** The phone check reads only the digits: a number and its digits are judged alike. */
  lemma PhoneReadsOnlyDigits(s: string)
    ensures ValidatePhone(s) == ValidatePhone(StripNonDigits(s))
  {
    StripIdempotent(s);
  }

  /** Accepted exactly when there are ten digits and the first is 6 to 9. */
  lemma PhoneCharacterisation(s: string)
    ensures ValidatePhone(s) <==>
      (var d := StripNonDigits(s); |d| == 10 && '6' <= d[0] <= '9')
  {
  }

  /** First step of the dashed example: dropping its first dash. */
  lemma DashedNumberStep1()
    ensures StripNonDigits("987-654-3210") == StripNonDigits("987654-3210")
  {
    assert "987-654-3210" == "987" + ['-'] + "654-3210";
    NonDigitIgnored("987", '-', "654-3210");
    assert "987" + "654-3210" == "987654-3210";
  }

  /** Second step of the dashed example: dropping its second dash. */
  lemma DashedNumberStep2()
    ensures StripNonDigits("987654-3210") == StripNonDigits("9876543210")
  {
    assert "987654-3210" == "987654" + ['-'] + "3210";
    NonDigitIgnored("987654", '-', "3210");
    assert "987654" + "3210" == "9876543210";
  }

  /** A plain or a formatted mobile number passes. */
  lemma PhoneAcceptsExamples()
    ensures ValidatePhone("9876543210")
    ensures ValidatePhone("987-654-3210")
  {
    StripFixpoints("9876543210");
    DashedNumberStep1();
    DashedNumberStep2();
  }

  /** A leading digit below 6, too few digits, or a country prefix is refused. */
  lemma PhoneRejectsExamples()
    ensures !ValidatePhone("1234567890")
    ensures !ValidatePhone("98765")
    ensures !ValidatePhone("+91 9876543210")
  {
  }
}
