/**
 * The state the views work on: the table of user accounts and the session
 * of the current request. The framework's `authenticate` is a lookup of the
 * username followed by a password check whose hashing scheme is not
 * modelled: the check is a parameter `check(submitted, stored)`.
 */
module Accounts {
  import opened Wrappers
  import opened Text

  /** One row of the user table, keyed by username. */
  datatype Account = Account(email: string, password: string)

  type Users = map<string, Account>

  /** The password verifier: does the submitted password match the stored credential? */
  type PasswordCheck = (string, string) -> bool

  /** The index of the last '@' in `s[..j]`, if there is one. */
  function LastAtBefore(s: string, j: nat): (r: Option<nat>)
    requires j <= |s|
    ensures r.Some? ==> r.value < j && s[r.value] == '@' && forall k :: r.value < k < j ==> s[k] != '@'
    ensures r.None? ==> forall k :: 0 <= k < j ==> s[k] != '@'
    decreases j
  {
    if j == 0 then None
    else if s[j - 1] == '@' then Some(j - 1)
    else LastAtBefore(s, j - 1)
  }

  /** The backward search finds exactly the last '@'. */
  lemma {:induction false} LastAtBeforeAt(s: string, j: nat, i: nat)
    requires i < j <= |s| && s[i] == '@'
    requires forall k :: i < k < j ==> s[k] != '@'
    ensures LastAtBefore(s, j) == Some(i)
  {
  }

  /** `t` up to and including its '@' at `i`, then the domain lowercased:
      `email_name + "@" + domain_part.lower()`. */
  function LowerDomain(t: string, i: nat): (r: string)
    requires i < |t|
  {
    t[..i + 1] + Lower(t[i + 1..])
  }

  /** Lowercasing the domain keeps the local part and the '@', keeps the
      address equal up to case, and adds no whitespace at the edges. */
  lemma {:induction false} LowerDomainFacts(t: string, i: nat)
    requires i < |t| && NoEdgeSpace(t)
    ensures var r := LowerDomain(t, i);
      |r| == |t| && r[..i + 1] == t[..i + 1] && r[i + 1..] == Lower(t[i + 1..])
      && EqualIgnoringCase(r, t) && NoEdgeSpace(r)
  {
    var r := LowerDomain(t, i);
    var u := t[i + 1..];
    assert r[..i + 1] == t[..i + 1];
    assert r[i + 1..] == Lower(u);
    LowerConcat(t[..i + 1], Lower(u));
    LowerConcat(t[..i + 1], u);
    LowerIdempotent(u);
    assert t == t[..i + 1] + u;
    assert r[|r| - 1] == t[|t| - 1] || r[|r| - 1] == LowerChar(t[|t| - 1]);
  }

  /** `BaseUserManager.normalize_email`, which `create_user` applies to the
      email it stores: when the stripped address holds an '@', it is split
      at the last one and the domain part is lowercased; otherwise the
      address is kept exactly as given, padding included. */
  function NormalizeEmail(email: string): (r: string)
    ensures LastAtBefore(Strip(email), |Strip(email)|).None? ==> r == email
    ensures LastAtBefore(Strip(email), |Strip(email)|).Some? ==>
      var t, i := Strip(email), LastAtBefore(Strip(email), |Strip(email)|).value;
      r == LowerDomain(t, i) && EqualIgnoringCase(r, t) && NoEdgeSpace(r)
  {
    var t := Strip(email);
    var at := LastAtBefore(t, |t|);
    if at.None? then email
    else
      LowerDomainFacts(t, at.value);
      LowerDomain(t, at.value)
  }

  /** Lowercasing the domain twice is lowercasing it once. */
  lemma {:induction false} LowerDomainIdempotent(t: string, i: nat)
    requires i < |t|
    ensures LowerDomain(LowerDomain(t, i), i) == LowerDomain(t, i)
  {
    var r := LowerDomain(t, i);
    assert r[..i + 1] == t[..i + 1];
    assert r[i + 1..] == Lower(t[i + 1..]);
    LowerIdempotent(t[i + 1..]);
  }

  /** After the domain is lowercased, the '@' at `i` is still the last one. */
  lemma {:induction false} LowerDomainLastAt(t: string, i: nat)
    requires i < |t| && t[i] == '@' && forall k :: i < k < |t| ==> t[k] != '@'
    ensures LastAtBefore(LowerDomain(t, i), |t|) == Some(i)
  {
    var r := LowerDomain(t, i);
    var d := t[i + 1..];
    forall k | i < k < |r| ensures r[k] != '@' {
      assert r[k] == Lower(d)[k - i - 1];
      assert d[k - i - 1] == t[k];
    }
    LastAtBeforeAt(r, |r|, i);
  }

  /** An unpadded address whose domain after its last '@' is already
      lowercase is its own normal form. */
  lemma {:induction false} NormalizeEmailFixed(r: string, i: nat)
    requires NoEdgeSpace(r) && i < |r| && LastAtBefore(r, |r|) == Some(i)
    requires LowerDomain(r, i) == r
    ensures NormalizeEmail(r) == r
  {
    StripUnpadded(r);
  }

  /** Normalising an already normalised address changes nothing. */
  lemma {:induction false} NormalizeEmailIdempotent(email: string)
    ensures NormalizeEmail(NormalizeEmail(email)) == NormalizeEmail(email)
  {
    var t := Strip(email);
    match LastAtBefore(t, |t|)
    case None =>
    case Some(i) =>
      var r := LowerDomain(t, i);
      assert NormalizeEmail(email) == r;
      LowerDomainFacts(t, i);
      LowerDomainLastAt(t, i);
      LowerDomainIdempotent(t, i);
      NormalizeEmailFixed(r, i);
  }

  /** `normalize_email("a@X.com")` is "a@x.com". */
  lemma {:induction false} NormalizeMixedCaseDomain()
    ensures NormalizeEmail("a@X.com") == "a@x.com"
  {
    NormalizeExample("a@X.com");
  }

  lemma {:induction false} NormalizeExample(e: string)
    requires e == "a@X.com"
    ensures NormalizeEmail(e) == "a@x.com"
  {
    assert NoEdgeSpace(e);
    StripUnpadded(e);
    LastAtBeforeAt(e, |e|, 1);
    assert e[2..] == "X.com";
    assert Lower(e[2..]) == "x.com";
    assert LowerDomain(e, 1) == "a@x.com";
  }

  /** A request: anything other than POST only renders a page. */
  datatype Request<F> = NonPost | Post(form: F)

  /** What a view returns: a rendered template, a redirect (with the flash
      message queued for the next page, if any), the framework's redirect to
      its configured login page, or a server error for an uncaught exception. */
  datatype Response =
    | Render(template: string)
    | Redirect(target: string, flash: Option<string>)
    | LoginRedirect
    | ServerError

  /** Some account has exactly this email (`filter(email=...)`, case-sensitive). */
  predicate EmailInUse(users: Users, email: string) {
    exists u :: u in users && users[u].email == email
  }

  /** No two accounts share an email, compared exactly. */
  ghost predicate UniqueEmails(users: Users) {
    forall u, v :: u in users && v in users && u != v ==> users[u].email != users[v].email
  }

  /** `authenticate(username=..., password=...)`: the account named
      `username` when it exists and the password matches its credential. */
  function Authenticate(users: Users, check: PasswordCheck, username: string, password: string): (r: Option<string>)
    ensures r.Some? <==> username in users && check(password, users[username].password)
    ensures r.Some? ==> r.value == username
  {
    if username in users && check(password, users[username].password) then Some(username) else None
  }

  /** The user table and the session of the request being served. */
  class Site {
    var users: Users
    var session: Option<string>

    /** A logged-in session always belongs to an existing account. */
    ghost predicate Valid()
      reads this
    {
      session.Some? ==> session.value in users
    }

    constructor ()
      ensures Valid() && users == map[] && session == None
    {
      users := map[];
      session := None;
    }
  }
}
