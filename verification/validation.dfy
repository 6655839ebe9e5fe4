/**
 * The field validators (`utils/Validation.kt`). Each takes an explicit
 * argument or, when the argument is omitted, the field the validator was
 * constructed with; each returns `Pass`, or `Fail` carrying the one toast
 * it shows. The Android regexes `Patterns.EMAIL_ADDRESS` and
 * `Patterns.PHONE` are not part of this model: they are opaque predicates
 * supplied by the caller.
 */
module Validators {
  import opened Wrappers
  import opened Text

  /** `Patterns.EMAIL_ADDRESS` and `Patterns.PHONE`, whole-string matches. */
  datatype Patterns = Patterns(email: string -> bool, phone: string -> bool)

  /** Outcome of a validator: valid, or invalid with the toast it showed. */
  datatype Verdict = Pass | Fail(message: string)

  /** A validator argument: omitted (Kotlin's default argument) or given, possibly `null`. */
  datatype Arg = Default | Given(value: Option<string>)

  /** The constructor fields a validator falls back to. */
  datatype Validation = Validation(name: Option<string>, email: Option<string>,
                                   password: Option<string>, phoneNumber: Option<string>)

  const EnterName: string := "Please enter name"
  const EnterEmail: string := "Please enter email"
  const EnterValidEmail: string := "Please enter valid email"
  const EnterPassword: string := "Please enter password"
  const PasswordTooShort: string := "Password must be greater than 6 digits"
  const PasswordHasSpace: string := "Password must not contain space"
  const EnterPhone: string := "Please enter phone number"
  const EnterValidPhone: string := "Please enter valid phone number"

  /** The minimum trimmed length, in UTF-16 units, of a password. */
  const MinPasswordLength: nat := 6

  /** A validator that only checks its fields. */
  const NoFields: Validation := Validation(None, None, None, None)

  /** The value a validator checks: its argument, or the constructor field when omitted. */
  function Chosen(arg: Arg, field: Option<string>): Option<string> {
    match arg
    case Default => field
    case Given(x) => x
  }

  /** `x == null || x.trim().isEmpty()`. */
  predicate Blank(x: Option<string>) {
    x.None? || Trim(x.value) == []
  }

  /** Some character of `s` is not whitespace. */
  predicate HasText(s: string) {
    exists i :: 0 <= i < |s| && !IsWhitespace(s[i])
  }

  /** A non-null value is blank exactly when it is made of whitespace only. */
  lemma BlankIffNoText(x: Option<string>)
    ensures Blank(x) <==> x.None? || !HasText(x.value)
  {
    if x.Some? {
      TrimEmptyIffBlank(x.value);
    }
  }

  /** An email field the email check lets through: some text, and its trimmed text matches the pattern. */
  predicate EmailAccepted(p: Patterns, s: string) {
    HasText(s) && p.email(Trim(s))
  }

  /** A phone field the phone check lets through: some text, and its trimmed text matches the pattern. */
  predicate PhoneAccepted(p: Patterns, s: string) {
    HasText(s) && p.phone(Trim(s))
  }

  /**
   * A password field the password check lets through: at least six UTF-16
   * units once trimmed, and no U+0020 space left in the trimmed text
   * (`InteriorSpaceRule` restates the second part on the untrimmed text).
   */
  predicate PasswordAccepted(s: string) {
    Utf16Length(Trim(s)) >= MinPasswordLength && ' ' !in Trim(s)
  }

  /** `isNameValid()`: the name is present and not whitespace only. */
  function IsNameValid(v: Validation, arg: Arg): (r: Verdict)
    ensures var x := Chosen(arg, v.name);
            r.Pass? <==> x.Some? && HasText(x.value)
    ensures r.Fail? ==> r.message == EnterName
  {
    var x := Chosen(arg, v.name);
    BlankIffNoText(x);
    if Blank(x) then Fail(EnterName) else Pass
  }

  /** `isEmailValid()`: present, not whitespace only, and its trimmed text matches the email pattern. */
  function IsEmailValid(p: Patterns, v: Validation, arg: Arg): (r: Verdict)
    ensures var x := Chosen(arg, v.email);
            r.Pass? <==> x.Some? && EmailAccepted(p, x.value)
    ensures var x := Chosen(arg, v.email);
            r.Fail? ==> r.message == (if x.Some? && HasText(x.value) then EnterValidEmail else EnterEmail)
  {
    var x := Chosen(arg, v.email);
    BlankIffNoText(x);
    if x.None? then Fail(EnterEmail) else PatternVerdict(p.email, Trim(x.value), EnterEmail, EnterValidEmail)
  }

  /**
   * The checks `isEmailValid()` and `isPhoneNumberValid()` make once they
   * hold the trimmed text `t`: `blank` for an empty text, `invalid` for one
   * the pattern refuses.
   */
  function PatternVerdict(matches: string -> bool, t: string, blank: string, invalid: string): Verdict {
    if t == [] then Fail(blank) else if !matches(t) then Fail(invalid) else Pass
  }

  /** An interior U+0020 in `s`: a space with non-whitespace on both sides. */
  predicate HasInteriorSpace(s: string) {
    exists j :: 0 <= j < |s| && s[j] == ' ' && Interior(s, j)
  }

  /**
   * `isPasswordValid()`: asks for a password when it is absent or blank;
   * otherwise complains it is short when under six UTF-16 units once
   * trimmed (so exactly six passes); otherwise complains about a U+0020
   * space left in the trimmed text; otherwise passes.
   */
  function IsPasswordValid(v: Validation, arg: Arg): (r: Verdict)
    ensures var x := Chosen(arg, v.password);
            && (r == Fail(EnterPassword) <==> Blank(x))
            && (r == Fail(PasswordTooShort) <==> !Blank(x) && Utf16Length(Trim(x.value)) < MinPasswordLength)
            && (r == Fail(PasswordHasSpace) <==>
                  !Blank(x) && Utf16Length(Trim(x.value)) >= MinPasswordLength && ' ' in Trim(x.value))
            && (r == Pass <==> x.Some? && PasswordAccepted(x.value))
    ensures r.Fail? ==> r.message in {EnterPassword, PasswordTooShort, PasswordHasSpace}
  {
    var x := Chosen(arg, v.password);
    if x.None? then Fail(EnterPassword) else TrimmedVerdict(Trim(x.value))
  }

  /** The checks `isPasswordValid()` makes once it holds the trimmed text `t`. */
  function TrimmedVerdict(t: string): Verdict {
    if t == [] then Fail(EnterPassword)
    else if Utf16Length(t) < MinPasswordLength then Fail(PasswordTooShort)
    else if ' ' in t then Fail(PasswordHasSpace)
    else Pass
  }

  /**
   * The space check looks at the trimmed text, so it finds exactly the
   * spaces strictly inside the password: leading and trailing spaces are
   * never refused.
   */
  lemma InteriorSpaceRule(s: string)
    ensures PasswordAccepted(s) <==> Utf16Length(Trim(s)) >= MinPasswordLength && !HasInteriorSpace(s)
  {
    TrimContainsWhitespace(s, ' ');
  }

  /** `isPhoneNumberValid()`: present, not whitespace only, and its trimmed text matches the phone pattern. */
  function IsPhoneNumberValid(p: Patterns, v: Validation, arg: Arg): (r: Verdict)
    ensures var x := Chosen(arg, v.phoneNumber);
            r.Pass? <==> x.Some? && PhoneAccepted(p, x.value)
    ensures var x := Chosen(arg, v.phoneNumber);
            r.Fail? ==> r.message == (if x.Some? && HasText(x.value) then EnterValidPhone else EnterPhone)
  {
    var x := Chosen(arg, v.phoneNumber);
    BlankIffNoText(x);
    if x.None? then Fail(EnterPhone) else PatternVerdict(p.phone, Trim(x.value), EnterPhone, EnterValidPhone)
  }

  /** Padding a password with whitespace never changes its verdict, message included. */
  lemma PasswordIgnoresPadding(a: string, s: string, b: string)
    requires AllWhitespace(a) && AllWhitespace(b)
    ensures IsPasswordValid(NoFields, Given(Some(a + s + b))) == IsPasswordValid(NoFields, Given(Some(s)))
  {
    TrimIgnoresPadding(a, s, b);
  }

  /** Email verdicts depend only on the trimmed text. */
  lemma EmailIgnoresPadding(p: Patterns, a: string, s: string, b: string)
    requires AllWhitespace(a) && AllWhitespace(b)
    ensures IsEmailValid(p, NoFields, Given(Some(a + s + b))) == IsEmailValid(p, NoFields, Given(Some(s)))
  {
    TrimIgnoresPadding(a, s, b);
  }

  /** A string without leading or trailing whitespace is its own trim. */
  lemma TrimTight(s: string)
    requires Tight(s)
    ensures Trim(s) == s
  {
    assert [] + s + [] == s;
    TrimUnique([], s, []);
  }

  /**
   * The verdict on a non-empty password without leading or trailing
   * whitespace and without supplementary characters: its length decides
   * between short and long, then a space decides.
   */
  lemma TightPasswordVerdict(s: string)
    requires s != [] && Tight(s)
    requires forall i :: 0 <= i < |s| ==> s[i] as int < 0x1_0000
    ensures IsPasswordValid(NoFields, Given(Some(s))) ==
              if |s| < MinPasswordLength then Fail(PasswordTooShort)
              else if ' ' in s then Fail(PasswordHasSpace)
              else Pass
  {
    TrimTight(s);
  }

  /** Six characters pass, although the toast for short passwords says "greater than 6". */
  lemma SixCharacterPasswordPasses()
    ensures IsPasswordValid(NoFields, Given(Some("abc123"))) == Pass
  {
    TightPasswordVerdict("abc123");
  }

  /** Five characters are too short. */
  lemma FiveCharacterPasswordFails()
    ensures IsPasswordValid(NoFields, Given(Some("abc12"))) == Fail(PasswordTooShort)
  {
    TightPasswordVerdict("abc12");
  }

  /** An interior space fails. */
  lemma InteriorSpaceFails()
    ensures IsPasswordValid(NoFields, Given(Some("ab c12"))) == Fail(PasswordHasSpace)
  {
    TightPasswordVerdict("ab c12");
    assert "ab c12"[2] == ' ';
  }

  /** An interior tab is not a space and passes. */
  lemma InteriorTabPasses()
    ensures IsPasswordValid(NoFields, Given(Some("abc\t123"))) == Pass
  {
    TightPasswordVerdict("abc\t123");
  }

  /** Padding is trimmed away before the checks. */
  lemma PaddedPasswordPasses()
    ensures IsPasswordValid(NoFields, Given(Some(" abc123\t"))) == Pass
  {
    assert " " + "abc123" + "\t" == " abc123\t";
    PasswordIgnoresPadding(" ", "abc123", "\t");
    SixCharacterPasswordPasses();
  }

  /**
   * Three supplementary characters (emoji, say) are six UTF-16 units, so a
   * password of three or more of them passes.
   */
  lemma SupplementaryCharactersCountTwice(s: string)
    requires |s| >= 3
    requires forall i :: 0 <= i < |s| ==> s[i] as int >= 0x1_0000
    ensures IsPasswordValid(NoFields, Given(Some(s))) == Pass
  {
    TrimTight(s);
    Utf16Supplementary(s);
  }

  /** Null and whitespace-only passwords ask for a password. */
  lemma MissingPasswordFails(s: string)
    requires AllWhitespace(s)
    ensures IsPasswordValid(NoFields, Given(Some(s))) == Fail(EnterPassword)
    ensures IsPasswordValid(NoFields, Given(None)) == Fail(EnterPassword)
  {
    TrimEmptyIffBlank(s);
  }
}
