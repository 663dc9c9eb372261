/**
 * The field validators of the registration form and the profile form
 * (`UserRegisterForm.clean_username`, `clean_email`, `ProfileForm.clean_*`).
 * Each takes the value the field produced (absent when the field itself
 * failed or was not submitted), normalises it and either returns the cleaned
 * value or the message of the `ValidationError` it raises. The regular
 * expressions become character-class predicates with length bounds, the
 * existing accounts' emails are a set, and "today" is a parameter.
 */
module Forms {
  import opened Wrappers
  import opened Text

  const UsernameError := "Username must be 3-150 chars and contain only letters, numbers, _ . -"
  const EmailRequiredError := "Email is required"
  const EmailExistsError := "An account with this email already exists"
  const PhoneError := "Enter a valid phone number (digits, spaces, +, -, parentheses)."
  const BioError := "Bio must be at most 500 characters long"
  const FutureBirthError := "Date of birth cannot be in the future"
  const EarlyBirthError := "Date of birth year must be 1900 or later"
  const AvatarSizeError := "Avatar must be 2MB or smaller"
  const AvatarTypeError := "Avatar must be an image file"

  /** `ProfileForm.MAX_AVATAR_BYTES`: 2 MiB. */
  const MaxAvatarBytes: nat := 2 * 1024 * 1024
  const MaxBioLength: nat := 500
  const MinBirthYear: int := 1900

  // ---------------------------------------------------------------- username

  /** One character of the class `[A-Za-z0-9_.-]`. */
  predicate IsUsernameChar(c: char) {
    'A' <= c <= 'Z' || 'a' <= c <= 'z' || '0' <= c <= '9' || c == '_' || c == '.' || c == '-'
  }

  /** `re.fullmatch(r"[A-Za-z0-9_.-]{3,150}", s)` succeeds. */
  predicate IsValidUsername(s: string) {
    3 <= |s| <= 150 && forall i :: 0 <= i < |s| ==> IsUsernameChar(s[i])
  }

  /** `UserRegisterForm.clean_username`: strip, then full-match the pattern. */
  function CleanUsername(username: Option<string>): (r: Result<string>)
    ensures r.Ok? <==> IsValidUsername(Strip(username.GetOr("")))
    ensures r.Ok? ==> r.value == Strip(username.GetOr(""))
    ensures r.Err? ==> r.error == UsernameError
    ensures username.None? ==> r.Err?
  {
    var normalized := Strip(username.GetOr(""));
    if !IsValidUsername(normalized) then Err(UsernameError) else Ok(normalized)
  }

  /** A valid username padded with any whitespace is accepted and returned
      without its padding. */
  lemma {:induction false} CleanUsernameAcceptsPadded(a: string, u: string, b: string)
    requires AllSpace(a) && AllSpace(b) && IsValidUsername(u)
    ensures CleanUsername(Some(a + u + b)) == Ok(u)
  {
    StripUnique(a, u, b);
  }

  /** Cleaning the cleaned username again accepts it and changes nothing. */
  lemma {:induction false} CleanUsernameIdempotent(username: Option<string>)
    requires CleanUsername(username).Ok?
    ensures CleanUsername(Some(CleanUsername(username).value)) == CleanUsername(username)
  {
    StripUnpadded(CleanUsername(username).value);
  }

  /** An accepted username was the input with whitespace padding removed. */
  lemma {:induction false} CleanUsernameOrigin(raw: string) returns (a: string, b: string)
    requires CleanUsername(Some(raw)).Ok?
    ensures AllSpace(a) && AllSpace(b)
    ensures raw == a + CleanUsername(Some(raw)).value + b
  {
    a, b := StripDecompose(raw);
  }

  // ------------------------------------------------------------------- email

  /** Some stored email equals `email` under ASCII case folding (`email__iexact`). */
  predicate EmailTakenIgnoringCase(email: string, existing: set<string>) {
    exists e :: e in existing && EqualIgnoringCase(e, email)
  }

  /** `UserRegisterForm.clean_email`: strip and lowercase, require a value,
      then reject it if an existing account has the same email up to case. */
  function CleanEmail(email: Option<string>, existing: set<string>): (r: Result<string>)
    ensures r == Err(EmailRequiredError) <==> Strip(email.GetOr("")) == []
    ensures r == Err(EmailExistsError) <==>
      Strip(email.GetOr("")) != [] && EmailTakenIgnoringCase(Strip(email.GetOr("")), existing)
    ensures r.Ok? <==>
      Strip(email.GetOr("")) != [] && !EmailTakenIgnoringCase(Strip(email.GetOr("")), existing)
    ensures r.Ok? ==> r.value == Lower(Strip(email.GetOr("")))
    ensures r.Ok? ==> r.value != [] && forall e :: e in existing ==> Lower(e) != r.value
  {
    var normalized := Lower(Strip(email.GetOr("")));
    LowerIdempotent(Strip(email.GetOr("")));
    if normalized == [] then Err(EmailRequiredError)
    else if exists e :: e in existing && Lower(e) == normalized then Err(EmailExistsError)
    else Ok(normalized)
  }

  /** An address that differs from a stored one only in letter case (and
      surrounding whitespace) is refused as a duplicate. */
  lemma {:induction false} CleanEmailRejectsCaseVariant(stored: string, raw: string, existing: set<string>)
    requires stored in existing && Strip(raw) != [] && EqualIgnoringCase(stored, Strip(raw))
    ensures CleanEmail(Some(raw), existing) == Err(EmailExistsError)
  {
  }

  /** A cleaned email is lowercase and unpadded, so cleaning it again against
      the same accounts yields it unchanged. */
  lemma {:induction false} CleanEmailIdempotent(email: Option<string>, existing: set<string>)
    requires CleanEmail(email, existing).Ok?
    ensures CleanEmail(Some(CleanEmail(email, existing).value), existing) == CleanEmail(email, existing)
  {
    var v := CleanEmail(email, existing).value;
    var s := Strip(email.GetOr(""));
    assert NoEdgeSpace(v) by {
      assert v == Lower(s);
      if v != [] {
        assert IsSpace(v[0]) == IsSpace(s[0]);
        assert IsSpace(v[|v| - 1]) == IsSpace(s[|s| - 1]);
      }
    }
    StripUnpadded(v);
    LowerIdempotent(s);
  }

  /** "A@Example.com" already registered blocks "a@example.com". */
  lemma {:induction false} CleanEmailExample()
    ensures CleanEmail(Some("a@example.com"), {"A@Example.com"}) == Err(EmailExistsError)
  {
    var stored, typed := "A@Example.com", "a@example.com";
    assert NoEdgeSpace(typed);
    StripUnpadded(typed);
    assert Lower(stored) == typed;
    assert EqualIgnoringCase(stored, Strip(typed));
    CleanEmailRejectsCaseVariant(stored, typed, {stored});
  }

  // ------------------------------------------------------------------- phone

  /** One character of the class `[0-9+()\-\s]`. */
  predicate IsPhoneChar(c: char) {
    '0' <= c <= '9' || c == '+' || c == '(' || c == ')' || c == '-' || IsSpace(c)
  }

  /** `re.fullmatch(r"[0-9+()\-\s]{7,20}", s)` succeeds. */
  predicate IsValidPhone(s: string) {
    7 <= |s| <= 20 && forall i :: 0 <= i < |s| ==> IsPhoneChar(s[i])
  }

  /** `ProfileForm.clean_phone_number`: an empty value (after stripping) is
      allowed and becomes ""; anything else must full-match the pattern. */
  function CleanPhoneNumber(phone: Option<string>): (r: Result<string>)
    ensures Strip(phone.GetOr("")) == [] ==> r == Ok("")
    ensures Strip(phone.GetOr("")) != [] ==>
      (r.Ok? <==> IsValidPhone(Strip(phone.GetOr(""))))
    ensures r.Ok? ==> r.value == Strip(phone.GetOr(""))
    ensures r.Err? ==> r.error == PhoneError
  {
    var normalized := Strip(phone.GetOr(""));
    if normalized == [] then Ok("")
    else if !IsValidPhone(normalized) then Err(PhoneError)
    else Ok(normalized)
  }

  /** Missing, empty and whitespace-only input is accepted as "" and never errors. */
  lemma {:induction false} CleanPhoneNumberBlank(phone: Option<string>)
    requires AllSpace(phone.GetOr(""))
    ensures CleanPhoneNumber(phone) == Ok("")
  {
    StripAllSpace(phone.GetOr(""));
  }

  /** A cleaned phone number cleans to itself. */
  lemma {:induction false} CleanPhoneNumberIdempotent(phone: Option<string>)
    requires CleanPhoneNumber(phone).Ok?
    ensures CleanPhoneNumber(Some(CleanPhoneNumber(phone).value)) == CleanPhoneNumber(phone)
  {
    var v := CleanPhoneNumber(phone).value;
    StripUnpadded(v);
  }

  /** "12-34" is too short. */
  lemma {:induction false} CleanPhoneNumberTooShort()
    ensures CleanPhoneNumber(Some("12-34")) == Err(PhoneError)
  {
    StripUnpadded("12-34");
  }

  /** "+1 (555) 123-4567" is accepted as it is. */
  lemma {:induction false} CleanPhoneNumberFormatted()
    ensures CleanPhoneNumber(Some("+1 (555) 123-4567")) == Ok("+1 (555) 123-4567")
  {
    var p := "+1 (555) 123-4567";
    assert NoEdgeSpace(p);
    StripUnpadded(p);
    assert IsValidPhone(p);
  }

  // --------------------------------------------------------------------- bio

  /** `ProfileForm.clean_bio`: strip, then allow at most 500 characters. */
  function CleanBio(bio: Option<string>): (r: Result<string>)
    ensures r.Ok? <==> |Strip(bio.GetOr(""))| <= MaxBioLength
    ensures r.Ok? ==> r.value == Strip(bio.GetOr(""))
    ensures r.Err? ==> r.error == BioError
  {
    var normalized := Strip(bio.GetOr(""));
    if |normalized| > MaxBioLength then Err(BioError) else Ok(normalized)
  }

  /** For an unpadded bio the length alone decides: 500 characters pass, 501 do not. */
  lemma {:induction false} CleanBioLimit(bio: string)
    requires NoEdgeSpace(bio)
    ensures CleanBio(Some(bio)) == if |bio| <= 500 then Ok(bio) else Err(BioError)
  {
    StripUnpadded(bio);
  }

  lemma {:induction false} CleanBioBoundary()
    ensures CleanBio(Some(seq(500, _ => 'a'))).Ok?
    ensures CleanBio(Some(seq(501, _ => 'a'))) == Err(BioError)
  {
    CleanBioLimit(seq(500, _ => 'a'));
    CleanBioLimit(seq(501, _ => 'a'));
  }

  /** A cleaned bio cleans to itself. */
  lemma {:induction false} CleanBioIdempotent(bio: Option<string>)
    requires CleanBio(bio).Ok?
    ensures CleanBio(Some(CleanBio(bio).value)) == CleanBio(bio)
  {
    CleanBioLimit(CleanBio(bio).value);
  }

  // ----------------------------------------------------------- date of birth

  /** A calendar date; its validity is the date field's concern. */
  datatype Date = Date(year: int, month: int, day: int)

  /** Python's `date` ordering: lexicographic on (year, month, day). */
  predicate Later(a: Date, b: Date) {
    a.year > b.year
    || (a.year == b.year && a.month > b.month)
    || (a.year == b.year && a.month == b.month && a.day > b.day)
  }

  /** `ProfileForm.clean_date_of_birth`: no date passes; a date after today is
      refused before the year is looked at; a year before 1900 is refused. */
  function CleanDateOfBirth(dob: Option<Date>, today: Date): (r: Result<Option<Date>>)
    ensures r.Ok? ==> r.value == dob
    ensures r.Ok? <==> dob.None? || (!Later(dob.value, today) && dob.value.year >= MinBirthYear)
    ensures dob.Some? && Later(dob.value, today) ==> r == Err(FutureBirthError)
    ensures dob.Some? && !Later(dob.value, today) && dob.value.year < MinBirthYear ==>
      r == Err(EarlyBirthError)
  {
    match dob
    case None => Ok(dob)
    case Some(d) =>
      if Later(d, today) then Err(FutureBirthError)
      else if d.year < MinBirthYear then Err(EarlyBirthError)
      else Ok(dob)
  }

  /** The accepted dates form an interval: anything between two accepted
      dates is accepted too. */
  lemma {:induction false} CleanDateOfBirthInterval(lo: Date, mid: Date, hi: Date, today: Date)
    requires CleanDateOfBirth(Some(lo), today).Ok? && CleanDateOfBirth(Some(hi), today).Ok?
    requires !Later(lo, mid) && !Later(mid, hi)
    ensures CleanDateOfBirth(Some(mid), today).Ok?
  {
  }

  lemma {:induction false} CleanDateOfBirthExamples(today: Date)
    requires today.year >= 2000
    ensures CleanDateOfBirth(Some(Date(1899, 12, 31)), today) == Err(EarlyBirthError)
    ensures CleanDateOfBirth(Some(Date(1900, 1, 1)), today) == Ok(Some(Date(1900, 1, 1)))
    ensures CleanDateOfBirth(Some(Date(today.year + 1, 1, 1)), today) == Err(FutureBirthError)
    ensures CleanDateOfBirth(None, today) == Ok(None)
  {
  }

  // ------------------------------------------------------------------ avatar

  /** What the avatar field hands over: nothing, `False` (the "clear" box was
      ticked), or a file. A file without a `size` or `content_type` attribute
      has size 0 or content type "", which is what the validator substitutes. */
  datatype Avatar = NoAvatar | Cleared | File(name: string, size: nat, contentType: string)

  /** Python truthiness: a file object is true when it has a name. */
  predicate IsTruthy(avatar: Avatar) {
    avatar.File? && avatar.name != []
  }

  /** `ProfileForm.clean_avatar`: a falsy value passes; then size (when
      known) must be at most 2 MiB; then a declared content type must start
      with "image/". The value itself is returned unchanged. */
  function CleanAvatar(avatar: Avatar): (r: Result<Avatar>)
    ensures r.Ok? ==> r.value == avatar
    ensures r.Ok? <==>
      !IsTruthy(avatar)
      || (avatar.size <= MaxAvatarBytes && (avatar.contentType == [] || "image/" <= avatar.contentType))
    ensures IsTruthy(avatar) ==>
      (r == Err(AvatarSizeError) <==> avatar.size > MaxAvatarBytes)
    ensures IsTruthy(avatar) ==>
      (r == Err(AvatarTypeError) <==>
        avatar.size <= MaxAvatarBytes && avatar.contentType != [] && !("image/" <= avatar.contentType))
  {
    if !IsTruthy(avatar) then Ok(avatar)
    else if avatar.size != 0 && avatar.size > MaxAvatarBytes then Err(AvatarSizeError)
    else if avatar.contentType != [] && !("image/" <= avatar.contentType) then Err(AvatarTypeError)
    else Ok(avatar)
  }

  /** Exactly 2 MiB passes and one byte more fails; an image passes, plain
      text fails; an oversized non-image reports the size; an unknown
      content type is not checked. */
  lemma {:induction false} CleanAvatarExamples()
    ensures CleanAvatar(File("a.png", 2097152, "image/png")).Ok?
    ensures CleanAvatar(File("a.png", 2097153, "image/png")) == Err(AvatarSizeError)
    ensures CleanAvatar(File("a.png", 1024, "image/png")).Ok?
    ensures CleanAvatar(File("a.txt", 1024, "text/plain")) == Err(AvatarTypeError)
    ensures CleanAvatar(File("a.txt", 3000000, "text/plain")) == Err(AvatarSizeError)
    ensures CleanAvatar(File("a.bin", 1024, "")).Ok?
  {
    assert "text/plain"[0] != "image/"[0];
  }

  /** Shrinking an accepted file keeps it accepted. */
  lemma {:induction false} CleanAvatarSizeMonotone(avatar: Avatar, smaller: nat)
    requires avatar.File? && CleanAvatar(avatar).Ok? && smaller <= avatar.size
    ensures CleanAvatar(avatar.(size := smaller)).Ok?
  {
  }
}
