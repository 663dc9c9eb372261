# Booking project accounts: validators and login flows in Dafny

This project models the account handling of a small Django booking site:
the six field validators of the registration and profile forms
(`users/forms.py`), the top-level `register`, `login` and `logout` views
(`views.py`), and the email-based `login_view` with the login-gated
`profile_view` (`users/views.py`).

- `wrappers.dfy` — `Option` and `Result` (a cleaned value or a
  `ValidationError` message).
- `text.dfy` — Python's `str.strip()` and `str.lower()` over ASCII, with the
  lemmas that characterise stripping (it removes exactly the whitespace
  padding, is idempotent and ignores extra padding).
- `forms.dfy` — `CleanUsername`, `CleanEmail`, `CleanPhoneNumber`,
  `CleanBio`, `CleanDateOfBirth`, `CleanAvatar`, and `MaxAvatarBytes`. The
  regular expressions are character-class predicates with length bounds;
  the existing accounts' emails are a `set<string>`; "today" is a
  parameter; dates compare lexicographically on (year, month, day).
- `accounts.dfy` — the user table (`map` from username to email and
  password), `NormalizeEmail` (the framework's `normalize_email`, which
  `create_user` applies to the email it stores: strip, then lowercase the
  part after the last '@'), the request and response shapes, `Authenticate`, and the
  `Site` class holding the table and the session, whose invariant is that a
  logged-in session names an existing account.
- `views.dfy` — `register`, `login` and `logout`: each decision is a
  function of the table, the session and the request (`RegisterStep`,
  `LoginStep`), and the methods `Register`, `Login`, `Logout` perform it on a
  `Site`, changing only the account table or only the session.
- `user_views.dfy` — `LookupByEmail` (`User.objects.get(email=...)` with its
  three outcomes), `LoginViewStep` / `LoginView`, and `ProfileView`.

Responses are `Render(template)`, `Redirect(target, flash message)`,
`LoginRedirect` (the framework's redirect to its configured login page) and
`ServerError` (an exception the view does not catch).

The password verifier is a parameter `check(submitted, stored)`; an account
stores the credential it was created with. `authenticate` is then "the
account with this exact username exists and `check` accepts the password".

The registration form's docstring promises a unique, case-insensitive email
(`users/forms.py:16`). The views do not keep that promise, and the model
follows the code:

- The registration view checks for an existing email with an exact,
  case-sensitive match (`views.py:35`). A second registration with a new
  username and `ALICE@EXAMPLE.COM` beside a stored `alice@example.com` is
  accepted (`Views.RegisterEmailIsCaseSensitive`). Only the form validator
  `clean_email` compares case-insensitively (`users/forms.py:43`).
- `create_user` stores the normalised email (`views.py:40`), but the
  duplicate check compares the address as typed. Registering "a@X.com"
  beside a stored "a@x.com" therefore stores a second "a@x.com"
  (`Views.RegisterCanDuplicateEmail`), and logging in with that address then
  fails with a server error (`UserViews.DuplicateEmailBreaksLoginView`).
- `login_view` looks the email up exactly (`users/views.py:14`). The lookup
  is not case-insensitive. When two accounts share the email, the view
  raises an exception that it does not catch.
- `login` (`views.py`) authenticates by username only. Only `login_view`
  accepts an email.

## Model

| member | source | states |
|---|---|---|
| `Text.Strip` | users/forms.py:29 | the stripped string has no whitespace at either end and is no longer than the input |
| `Text.StripUnique` | users/forms.py:29 | a string without edge whitespace, padded on both sides with whitespace, strips back to exactly itself |
| `Text.StripDecompose` | users/forms.py:29 | every input is its stripped form with whitespace-only padding before and after |
| `Text.StripIdempotent` | users/forms.py:29 | stripping twice gives the same as stripping once |
| `Text.StripIgnoresPadding` | users/forms.py:69 | extra whitespace around an input does not change its stripped form |
| `Text.Lower` | users/forms.py:39 | lowercasing keeps the length, turns each of 'A'..'Z' into its lowercase letter and leaves every other character as it was |
| `Text.EqualIgnoringCaseCharwise` | users/forms.py:43 | two strings are equal ignoring case exactly when they have the same length and agree at each position up to ASCII letter case |
| `Forms.CleanUsername` | users/forms.py:27-35 | accepts exactly when the stripped input is 3-150 characters from `[A-Za-z0-9_.-]`, returns the stripped input, rejects a missing value, with the source's message |
| `Forms.CleanUsernameAcceptsPadded` | users/forms.py:29-35 | any valid username padded with whitespace is accepted and returned without the padding |
| `Forms.CleanUsernameIdempotent` | users/forms.py:29-35 | feeding the cleaned username back in succeeds and yields the same string |
| `Forms.CleanUsernameOrigin` | users/forms.py:29-35 | an accepted username is the input minus whitespace-only padding |
| `Forms.CleanEmail` | users/forms.py:37-45 | "Email is required" exactly when the stripped input is empty; "already exists" exactly when it is non-empty and equals a stored email up to case; otherwise returns the stripped, lowercased, non-empty input that matches no stored email up to case |
| `Forms.CleanEmailRejectsCaseVariant` | users/forms.py:42-44 | an input equal up to case and padding to a stored email is rejected as a duplicate |
| `Forms.CleanEmailIdempotent` | users/forms.py:39-45 | cleaning an accepted email again against the same accounts returns it unchanged |
| `Forms.CleanEmailExample` | users/forms.py:42-44 | a stored "A@Example.com" blocks "a@example.com" |
| `Forms.CleanPhoneNumber` | users/forms.py:68-76 | blank (after stripping) input gives "" and never errors; otherwise accepted exactly when 7-20 characters of digits, `+`, `(`, `)`, `-`, whitespace, returning the stripped value |
| `Forms.CleanPhoneNumberBlank` | users/forms.py:69-71 | missing, empty and whitespace-only inputs all give "" |
| `Forms.CleanPhoneNumberIdempotent` | users/forms.py:69-76 | a cleaned phone number cleans to itself |
| `Forms.CleanPhoneNumberTooShort` | users/forms.py:72-75 | "12-34" is rejected with the phone message |
| `Forms.CleanPhoneNumberFormatted` | users/forms.py:72-76 | "+1 (555) 123-4567" is accepted unchanged |
| `Forms.CleanBio` | users/forms.py:78-82 | returns the stripped bio and rejects exactly when it is longer than 500 characters |
| `Forms.CleanBioLimit` | users/forms.py:79-82 | for an unpadded bio the length alone decides acceptance |
| `Forms.CleanBioBoundary` | users/forms.py:80-81 | 500 characters are accepted, 501 rejected |
| `Forms.CleanBioIdempotent` | users/forms.py:79-82 | a cleaned bio cleans to itself |
| `Forms.CleanDateOfBirth` | users/forms.py:84-92 | no date passes unchanged; a date after today is refused with the "future" message whatever its year; else a year before 1900 is refused; else the date is returned unchanged |
| `Forms.CleanDateOfBirthInterval` | users/forms.py:88-91 | any date between two accepted dates is accepted |
| `Forms.CleanDateOfBirthExamples` | users/forms.py:85-92 | 1899-12-31 is refused, 1900-01-01 accepted, a date later than today refused as future, no date accepted |
| `Forms.CleanAvatar` | users/forms.py:94-105 | accepted exactly when the value is falsy, or the file is at most 2 MiB and its content type is empty or starts with "image/"; a file over 2 MiB is refused for size whatever its type; else a non-empty content type not starting with "image/" is refused; an accepted value is returned unchanged |
| `Forms.CleanAvatarExamples` | users/forms.py:51-105 | exactly 2,097,152 bytes passes, one more fails; "image/png" passes, "text/plain" fails; an oversized non-image reports size; an empty content type is not checked |
| `Forms.CleanAvatarSizeMonotone` | users/forms.py:99-100 | a smaller copy of an accepted file is accepted too |
| `Accounts.NormalizeEmail` | views.py:40 | an address with no '@' after stripping is kept exactly as given; otherwise the result is the stripped address with the part after its last '@' lowercased, equal to it up to case and without edge whitespace |
| `Accounts.NormalizeEmailIdempotent` | views.py:40 | normalising a normalised address changes nothing |
| `Accounts.NormalizeMixedCaseDomain` | views.py:40 | "a@X.com" is stored as "a@x.com" |
| `Accounts.Authenticate` | views.py:12 | succeeds exactly when the username names an account and the checker accepts the password against its credential, and then yields that username |
| `Views.RegisterStep` | views.py:23-49 | non-POST renders the form; mismatched passwords redirect home; a taken username (checked first) or an exactly matching email is refused with its message; every refusal leaves the table unchanged; otherwise exactly one account is added with the normalised email and the password, all others unchanged, and the user is sent to login |
| `Views.LoginStep` | views.py:7-21 | non-POST renders the form; a POST redirects home and sets the session to the username exactly when authentication succeeds; otherwise the session is unchanged and the response is "Invalid credentials" with a redirect to login; a session naming an account keeps doing so |
| `Views.Register` | views.py:23-49 | performs `RegisterStep` on the site, changing only the account table and keeping the session invariant |
| `Views.Login` | views.py:7-21 | performs `LoginStep` on the site, changing only the session and keeping the session invariant |
| `Views.Logout` | views.py:51-53 | always clears the session and redirects home |
| `Views.RegisterTwiceSameUsername` | views.py:31-34 | after an account is created, registering the same username again is refused and changes nothing |
| `Views.RegisterEmailIsCaseSensitive` | views.py:35-38 | a new username with an email that differs from a stored one only in case is registered |
| `Views.RegisterKeepsNormalEmailsUnique` | views.py:35-41 | when the submitted email is already in normal form, registration keeps stored emails unique |
| `Views.RegisterCanDuplicateEmail` | views.py:35-41 | registering "a@X.com" beside a stored "a@x.com" is accepted and leaves two accounts storing "a@x.com" |
| `Views.RegisterThenLogin` | views.py:12-43 | a freshly registered user who logs in with their username and password is logged in |
| `UserViews.LookupByEmail` | users/views.py:14-15 | no match exactly when no account has the email; a match names the one account with that email; ambiguous exactly when two accounts share it |
| `UserViews.LoginViewStep` | users/views.py:5-29 | non-POST renders the form; a POST is a server error exactly when several accounts have the email; success (redirect to profile, session bound to the resolved user) exactly when the email resolves to one account and the password checks against it; every other POST gives "Invalid email or password." with a redirect to login and the session unchanged |
| `UserViews.LoginView` | users/views.py:5-29 | performs `LoginViewStep` on the site, changing only the session and keeping the session invariant |
| `UserViews.ProfileView` | users/views.py:32-34 | the profile page is rendered exactly when the session is logged in; otherwise the login redirect |
| `UserViews.LoginViewFailuresIndistinguishable` | users/views.py:16-27 | an unknown email and a wrong password give identical outcomes and leave the session as it was |
| `UserViews.LoginViewUsesResolvedUsername` | users/views.py:14-20 | login succeeds exactly when the username the email resolves to authenticates with the password |
| `UserViews.UniqueEmailsNeverAmbiguous` | users/views.py:14 | when no two accounts share an email the view never fails with a server error |
| `UserViews.RegisterThenLoginView` | users/views.py:14-24 | a freshly registered user who logs in with their email as stored (normalised) and their password lands on the profile page as that user, provided no earlier account stored the same email |
| `UserViews.DuplicateEmailBreaksLoginView` | users/views.py:14 | after "a@X.com" is registered beside "a@x.com", logging in with "a@x.com" is a server error |

## Left out

- Page rendering, the flash-message store and `print`: a response carries the template name or the redirect target and the message text.
- The registration form's password matching and strength validators, `EmailField` syntax checking and `ImageField` decoding. These belong to the framework.
- Password hashing: a stored credential is the password as submitted. The verifier is an uninterpreted parameter.
- Accounts.Authenticate: does not model the framework's `is_active` check or other authentication backends.
- Missing POST fields: `request.POST['fullname']` raising `KeyError`, and `.get` returning `None`, are not modelled. Every submitted field is a string.
- The framework's own refusal of an empty username in `create_user` is not modelled. The view adds the account.
- Persistence, and the race between the uniqueness checks and the insert. Concurrent requests are not modelled.
- RegisterThenLoginView: promises a login with the email as stored, not as typed. When normalisation changed the address, the exact lookup does not find the typed form. An earlier account with the same stored email makes the lookup ambiguous (`UserViews.DuplicateEmailBreaksLoginView`).
- `normalize_email` and `normalize_username` belong to the framework. The model follows `normalize_email` as described under `Accounts.NormalizeEmail`. `normalize_username` applies Unicode NFKC normalisation, which leaves ASCII unchanged and is not modelled.
- Unicode: whitespace is `str.isspace()` below code point 128, and lowercasing covers 'A'..'Z' only. Django's `iexact` is modelled as ASCII case folding.
- `date.today()` is a parameter. Calendar validity of a date is the date field's concern. The validator only compares dates.
- Forms.CleanAvatar: a file is a name, a size and a content type. A missing `size` or `content_type` attribute is represented by 0 or "", which is what the validator substitutes.
- UserViews.ProfileView: the login URL and the `next` parameter of the redirect come from settings that are not part of this model. The redirect is the single response `LoginRedirect`.
- Profile editing: no view in these sources saves a profile. `ProfileForm`'s validators are modelled one by one, and no all-or-nothing profile update is modelled.
- users/models.py (schema only) and bookingproject/urls.py (routing only).
