/**
 * CouponCode: a value object holding a six-character code made of upper-case
 * ASCII letters and digits. `Of` sanitises untrusted input (drops everything
 * outside [a-zA-Z0-9], upper-cases) and checks the length; `Reconstitute`
 * trusts a stored value as it is.
 */
module Codes {
  import opened Errors
  import opened Text

  const RequiredLength: nat := 6

  /** Equality (and hashing) is by the stored value: datatype equality. */
  datatype CouponCode = CouponCode(value: string)

  /** The characters the pattern [a-zA-Z0-9] matches. */
  predicate IsAsciiAlphanumeric(c: char)
  {
    ('a' <= c <= 'z') || ('A' <= c <= 'Z') || ('0' <= c <= '9')
  }

  /** The characters a sanitised code is made of. */
  predicate IsCodeChar(c: char)
  {
    ('A' <= c <= 'Z') || ('0' <= c <= '9')
  }

  predicate AllCodeChars(s: string)
  {
    forall i | 0 <= i < |s| :: IsCodeChar(s[i])
  }

  /** replaceAll("[^a-zA-Z0-9]", ""): keeps the alphanumeric characters, in order. */
  function StripNonAlphanumeric(s: string): (r: string)
    ensures |r| <= |s|
    ensures forall i | 0 <= i < |r| :: IsAsciiAlphanumeric(r[i])
  {
    if s == [] then []
    else (if IsAsciiAlphanumeric(s[0]) then [s[0]] else []) + StripNonAlphanumeric(s[1..])
  }

  /** The sanitised form of a raw code: stripped, then upper-cased. */
  function Sanitize(raw: string): (r: string)
    ensures |r| <= |raw|
    ensures AllCodeChars(r)
  {
    ToUpperAscii(StripNonAlphanumeric(raw))
  }

  /** CouponCode.of */
  function Of(raw: Option<string>): (r: Result<CouponCode>)
    ensures r.Ok? ==> |r.value.value| == RequiredLength && AllCodeChars(r.value.value)
    ensures r.Err? ==> r.error.InvalidCode?
  {
    if raw.None? || IsBlank(raw.value) then
      Err(InvalidCode(CodeRequired))
    else
      var sanitized := Sanitize(raw.value);
      if |sanitized| != RequiredLength then
        Err(InvalidCode(CodeLength(|sanitized|)))
      else
        Ok(CouponCode(sanitized))
  }

  /** CouponCode.reconstitute: no validation at all. */
  function Reconstitute(value: string): (c: CouponCode)
    ensures c.value == value
  {
    CouponCode(value)
  }

  /**
   * Of's verdict in full: null and blank input are "required" failures,
   * decided before any sanitising; otherwise Of succeeds exactly when the
   * sanitised input has six characters, stores that sanitised string, and
   * otherwise reports its length.
   */
  lemma OfOutcome(raw: Option<string>)
    ensures raw.None? || IsBlank(raw.value) ==> Of(raw) == Err(InvalidCode(CodeRequired))
    ensures raw.Some? && !IsBlank(raw.value) ==>
      var n := |Sanitize(raw.value)|;
      && (Of(raw).Ok? <==> n == RequiredLength)
      && (Of(raw).Ok? ==> Of(raw).value.value == Sanitize(raw.value))
      && (Of(raw).Err? ==> Of(raw).error == InvalidCode(CodeLength(n)))
  {
  }

  lemma {:induction false} StripConcat(a: string, b: string)
    ensures StripNonAlphanumeric(a + b) == StripNonAlphanumeric(a) + StripNonAlphanumeric(b)
  {
    if a == [] {
      assert a + b == b;
    } else {
      assert (a + b)[1..] == a[1..] + b;
      StripConcat(a[1..], b);
    }
  }

  /** Sanitising works character by character, so it distributes over concatenation. */
  lemma {:induction false} SanitizeConcat(a: string, b: string)
    ensures Sanitize(a + b) == Sanitize(a) + Sanitize(b)
  {
    StripConcat(a, b);
  }

  lemma {:induction false} StripKeepsAlphanumeric(s: string)
    requires forall i | 0 <= i < |s| :: IsAsciiAlphanumeric(s[i])
    ensures StripNonAlphanumeric(s) == s
  {
    if s != [] {
      StripKeepsAlphanumeric(s[1..]);
    }
  }

  /** A string already made of code characters is its own sanitised form. */
  lemma {:induction false} SanitizeKeepsCodeChars(s: string)
    requires AllCodeChars(s)
    ensures Sanitize(s) == s
  {
    StripKeepsAlphanumeric(s);
  }

  /** Sanitising is idempotent. */
  lemma {:induction false} SanitizeIdempotent(s: string)
    ensures Sanitize(Sanitize(s)) == Sanitize(s)
  {
    SanitizeKeepsCodeChars(Sanitize(s));
  }

  lemma {:induction false} StripCommutesWithUpper(s: string)
    ensures StripNonAlphanumeric(ToUpperAscii(s)) == ToUpperAscii(StripNonAlphanumeric(s))
  {
    if s != [] {
      assert ToUpperAscii(s) == [UpperAscii(s[0])] + ToUpperAscii(s[1..]);
      StripConcat([UpperAscii(s[0])], ToUpperAscii(s[1..]));
      StripCommutesWithUpper(s[1..]);
      assert StripNonAlphanumeric(s) ==
        (if IsAsciiAlphanumeric(s[0]) then [s[0]] else []) + StripNonAlphanumeric(s[1..]);
    }
  }

  /** Sanitising ignores the case of the raw input. */
  lemma {:induction false} SanitizeIgnoresCase(s: string)
    ensures Sanitize(ToUpperAscii(s)) == Sanitize(s)
  {
    StripCommutesWithUpper(s);
    ToUpperAsciiIdempotent(StripNonAlphanumeric(s));
  }

  /** A non-empty code made of code characters is not blank. */
  lemma CodeCharsAreNotBlank(s: string)
    requires |s| > 0 && AllCodeChars(s)
    ensures !IsBlank(s)
  {
    assert !IsWhitespace(s[0]);
  }

  /** Of is idempotent on its own output: re-validating a valid code gives the same code. */
  lemma {:induction false} OfIdempotent(raw: Option<string>)
    requires Of(raw).Ok?
    ensures Of(Some(Of(raw).value.value)) == Of(raw)
  {
    var v := Of(raw).value.value;
    CodeCharsAreNotBlank(v);
    SanitizeKeepsCodeChars(v);
  }

  /** Of ignores case: a code and its upper-cased spelling give the same result. */
  lemma {:induction false} OfIgnoresCase(raw: string)
    ensures Of(Some(ToUpperAscii(raw))) == Of(Some(raw))
  {
    ToUpperAsciiKeepsBlankness(raw);
    SanitizeIgnoresCase(raw);
  }

  /** Of("abc123") equals Of("ABC123"): both store "ABC123". */
  lemma {:induction false} LowerAndUpperCodesAreEqual()
    ensures Of(Some("abc123")) == Of(Some("ABC123")) == Ok(CouponCode("ABC123"))
  {
    assert ToUpperAscii("abc123") == "ABC123";
    OfIgnoresCase("abc123");
    assert AllCodeChars("ABC123");
    SanitizeKeepsCodeChars("ABC123");
    CodeCharsAreNotBlank("ABC123");
  }

  /**
   * Separators are dropped wherever they stand: "AB-C1.23" sanitises to
   * "ABC123", and "AB-C1.2!3" is accepted as the code "ABC123".
   */
  lemma {:induction false} SanitizeExamples()
    ensures Sanitize("AB-C1.23") == "ABC123"
    ensures Of(Some("AB-C1.2!3")) == Ok(CouponCode("ABC123"))
  {
    var s := "AB-C1.23";
    assert StripNonAlphanumeric(s[8..]) == "";
    assert StripNonAlphanumeric(s[7..]) == "3";
    assert StripNonAlphanumeric(s[6..]) == "23";
    assert StripNonAlphanumeric(s[5..]) == "23";
    assert StripNonAlphanumeric(s[4..]) == "123";
    assert StripNonAlphanumeric(s[3..]) == "C123";
    assert StripNonAlphanumeric(s[2..]) == "C123";
    assert StripNonAlphanumeric(s[1..]) == "BC123";
    assert StripNonAlphanumeric(s) == "ABC123";
    assert ToUpperAscii("ABC123") == "ABC123";
    var raw := "AB-C1.2!3";
    assert StripNonAlphanumeric(raw[9..]) == "";
    assert StripNonAlphanumeric(raw[8..]) == "3";
    assert StripNonAlphanumeric(raw[7..]) == "3";
    assert StripNonAlphanumeric(raw[6..]) == "23";
    assert StripNonAlphanumeric(raw[5..]) == "23";
    assert StripNonAlphanumeric(raw[4..]) == "123";
    assert StripNonAlphanumeric(raw[3..]) == "C123";
    assert StripNonAlphanumeric(raw[2..]) == "C123";
    assert StripNonAlphanumeric(raw[1..]) == "BC123";
    assert StripNonAlphanumeric(raw) == "ABC123";
    assert !IsWhitespace(raw[0]);
  }

  /** Input made only of special characters is not blank, but sanitises to nothing. */
  lemma {:induction false} SpecialsOnlyFailLengthCheck()
    ensures !IsBlank("!@#$%^")
    ensures Of(Some("!@#$%^")) == Err(InvalidCode(CodeLength(0)))
  {
    assert !IsWhitespace("!@#$%^"[0]);
    var s := "!@#$%^";
    assert StripNonAlphanumeric(s[5..]) == [];
    assert StripNonAlphanumeric(s[4..]) == [];
    assert StripNonAlphanumeric(s[3..]) == [];
    assert StripNonAlphanumeric(s[2..]) == [];
    assert StripNonAlphanumeric(s[1..]) == [];
    assert StripNonAlphanumeric(s) == [];
  }

  /** Reconstitute keeps what Of would refuse, and gives back any code's value unchanged. */
  lemma {:induction false} ReconstituteSkipsValidation(value: string)
    ensures Reconstitute(value).value == value
    ensures forall c: CouponCode :: Reconstitute(c.value) == c
    ensures Of(Some("AB12")).Err? && Reconstitute("AB12").value == "AB12"
  {
    assert !IsWhitespace("AB12"[0]);
    assert AllCodeChars("AB12");
    SanitizeKeepsCodeChars("AB12");
  }
}
