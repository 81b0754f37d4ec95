/**
 * UserCreateRequestDto: the body of a create or full-replace request and the
 * Jakarta Bean Validation constraints declared on its fields.
 */
module UserCreateRequests {
  import opened Wrappers
  import opened Dates

  datatype UserCreateRequest = UserCreateRequest(
    email: Option<string>,
    firstName: Option<string>,
    lastName: Option<string>,
    birthDate: Option<LocalDate>,
    address: Option<string>,
    phoneNumber: Option<string>)

  /** @NotNull */
  predicate NotNull<T>(v: Option<T>) {
    v.Some?
  }

  /** @Size(min, max): a null value passes; otherwise its length lies in [min, max]. */
  predicate SizeBetween(s: Option<string>, min: nat, max: nat) {
    s.None? || min <= |s.value| <= max
  }

  /** @Past: a null value passes; otherwise the date is strictly before today. */
  predicate Past(d: Option<LocalDate>, today: LocalDate) {
    d.None? || IsBefore(d.value, today)
  }

  /** @Email, with the address syntax check itself supplied by the caller. */
  predicate EmailFormat(s: Option<string>, isEmail: string -> bool) {
    s.None? || isEmail(s.value)
  }

  predicate IsDigit(c: char) {
    '0' <= c <= '9'
  }

  /** Whether s matches the regular expression ^[0-9]*$, one character class repetition at a time. */
  function MatchesDigitStar(s: string): bool {
    if s == [] then true else IsDigit(s[0]) && MatchesDigitStar(s[1..])
  }

  /** ^[0-9]*$ matches exactly the strings made of decimal digits only, the empty one included. */
  lemma {:induction false} DigitStarIff(s: string)
    ensures MatchesDigitStar(s) <==> forall i :: 0 <= i < |s| ==> IsDigit(s[i])
  {
    if s != [] {
      DigitStarIff(s[1..]);
      assert forall i :: 1 <= i < |s| ==> s[i] == s[1..][i - 1];
    }
  }

  /** @Pattern(regexp = "^[0-9]*$"): a null value passes. */
  predicate DigitsOnly(s: Option<string>) {
    s.None? || MatchesDigitStar(s.value)
  }

  /** All the constraints the request boundary checks before create or put. */
  predicate IsValid(r: UserCreateRequest, today: LocalDate, isEmail: string -> bool) {
    && NotNull(r.email) && EmailFormat(r.email, isEmail)
    && NotNull(r.firstName) && SizeBetween(r.firstName, 1, 25)
    && NotNull(r.lastName) && SizeBetween(r.lastName, 1, 25)
    && NotNull(r.birthDate) && Past(r.birthDate, today)
    && SizeBetween(r.address, 0, 100)
    && SizeBetween(r.phoneNumber, 0, 20) && DigitsOnly(r.phoneNumber)
  }

  /** What a valid request guarantees, field by field, and that these guarantees suffice. */
  lemma {:induction false} IsValidIff(r: UserCreateRequest, today: LocalDate, isEmail: string -> bool)
    ensures IsValid(r, today, isEmail) <==>
      && r.email.Some? && isEmail(r.email.value)
      && r.firstName.Some? && 1 <= |r.firstName.value| <= 25
      && r.lastName.Some? && 1 <= |r.lastName.value| <= 25
      && r.birthDate.Some? && IsBefore(r.birthDate.value, today)
      && (r.address.Some? ==> |r.address.value| <= 100)
      && (r.phoneNumber.Some? ==>
            |r.phoneNumber.value| <= 20 && forall i :: 0 <= i < |r.phoneNumber.value| ==> IsDigit(r.phoneNumber.value[i]))
  {
    if r.phoneNumber.Some? {
      DigitStarIff(r.phoneNumber.value);
    }
  }

  /** An empty phone number is accepted exactly like an absent one. */
  lemma {:induction false} EmptyPhoneNumberAllowed(r: UserCreateRequest, today: LocalDate, isEmail: string -> bool)
    ensures IsValid(r.(phoneNumber := Some("")), today, isEmail) <==> IsValid(r.(phoneNumber := None), today, isEmail)
  {
    assert MatchesDigitStar("");
  }
}
