/**
 * The views of the `users` application: `login_view`, which logs in by
 * email, and `profile_view`, which is only served to a logged-in user.
 */
module UserViews {
  import opened Wrappers
  import opened Accounts
  import Views

  const InvalidEmailOrPasswordMessage := "Invalid email or password."

  datatype EmailLoginForm = EmailLoginForm(email: string, password: string)

  /** The outcome of `User.objects.get(email=...)`: no row (`DoesNotExist`),
      one row, or several (`MultipleObjectsReturned`). */
  datatype Lookup = NoMatch | Match(username: string) | Ambiguous

  /** The usernames of the accounts with exactly this email. */
  function UsersWithEmail(users: Users, email: string): (r: set<string>)
    ensures forall u :: u in r <==> u in users && users[u].email == email
  {
    set u | u in users && users[u].email == email
  }

  /** A set with one element has no two distinct members. */
  lemma {:induction false} SingletonMembers(s: set<string>)
    requires |s| == 1
    ensures forall x, y :: x in s && y in s ==> x == y
  {
    forall x, y | x in s && y in s
      ensures x == y
    {
      assert |s - {x}| == 0;
      assert y in s - {x} || y == x;
    }
  }

  /** `User.objects.get(email=email)`, an exact match on the email column. */
  function LookupByEmail(users: Users, email: string): (r: Lookup)
    ensures r == NoMatch <==> !EmailInUse(users, email)
    ensures r.Match? ==> r.username in users && users[r.username].email == email
    ensures r.Match? ==> forall u :: u in users && users[u].email == email ==> u == r.username
    ensures r == Ambiguous <==>
      exists u, v :: u in users && v in users && u != v && users[u].email == email && users[v].email == email
  {
    var matches := UsersWithEmail(users, email);
    if matches == {} then
      NoMatch
    else if |matches| == 1 then
      SingletonMembers(matches);
      var u :| u in matches;
      Match(u)
    else
      assert exists u, v :: u in matches && v in matches && u != v by {
        var u :| u in matches;
        assert |matches - {u}| > 0;
        var v :| v in matches - {u};
        assert v in matches && u != v;
      }
      Ambiguous
  }

  /** The one account holding an email is what the lookup finds. */
  lemma {:induction false} LookupSingle(users: Users, name: string, email: string)
    requires name in users && users[name].email == email
    requires forall u :: u in users && u != name ==> users[u].email != email
    ensures LookupByEmail(users, email) == Match(name)
  {
  }

  /** `login_view`: resolve the email to a username, then authenticate that
      username with the password. Unknown email and wrong password give the
      same response; several accounts with the email raise an uncaught
      exception. */
  function LoginViewStep(users: Users, session: Option<string>, check: PasswordCheck, req: Request<EmailLoginForm>): (r: Views.SessionOutcome)
    ensures req.NonPost? ==> r == Views.SessionOutcome(Render("users/login.html"), session)
    ensures req.Post? && LookupByEmail(users, req.form.email) == Ambiguous ==>
      r == Views.SessionOutcome(ServerError, session)
    ensures req.Post? ==> (r.response == ServerError <==> LookupByEmail(users, req.form.email) == Ambiguous)
    ensures req.Post? ==>
      (r.response == Redirect("profile", None) <==>
        LookupByEmail(users, req.form.email).Match? &&
        check(req.form.password, users[LookupByEmail(users, req.form.email).username].password))
    ensures req.Post? && r.response == Redirect("profile", None) ==>
      r.session == Some(LookupByEmail(users, req.form.email).username)
    ensures req.Post? && r.response != Redirect("profile", None) && r.response != ServerError ==>
      r == Views.SessionOutcome(Redirect("login", Some(InvalidEmailOrPasswordMessage)), session)
    ensures (session.Some? ==> session.value in users) ==> (r.session.Some? ==> r.session.value in users)
  {
    match req
    case NonPost => Views.SessionOutcome(Render("users/login.html"), session)
    case Post(f) =>
      match LookupByEmail(users, f.email)
      case NoMatch => Views.SessionOutcome(Redirect("login", Some(InvalidEmailOrPasswordMessage)), session)
      case Ambiguous => Views.SessionOutcome(ServerError, session)
      case Match(username) =>
        match Authenticate(users, check, username, f.password)
        case Some(user) => Views.SessionOutcome(Redirect("profile", None), Some(user))
        case None => Views.SessionOutcome(Redirect("login", Some(InvalidEmailOrPasswordMessage)), session)
  }

  /** `login_view`, performed on the site: only the session changes. */
  method LoginView(site: Site, check: PasswordCheck, req: Request<EmailLoginForm>) returns (response: Response)
    requires site.Valid()
    modifies site`session
    ensures site.Valid()
    ensures Views.SessionOutcome(response, site.session) == LoginViewStep(site.users, old(site.session), check, req)
  {
    if req.Post? {
      var f := req.form;
      var username;
      match LookupByEmail(site.users, f.email) {
        case NoMatch =>
          return Redirect("login", Some(InvalidEmailOrPasswordMessage));
        case Ambiguous =>
          return ServerError;
        case Match(name) =>
          username := name;
      }
      var user := Authenticate(site.users, check, username, f.password);
      if user.Some? {
        site.session := user;
        return Redirect("profile", None);
      } else {
        return Redirect("login", Some(InvalidEmailOrPasswordMessage));
      }
    }
    return Render("users/login.html");
  }

  /** `profile_view` behind `@login_required`. */
  function ProfileView(site: Site): (r: Response)
    reads site
    ensures r == Render("users/profile.html") <==> site.session.Some?
    ensures site.session.None? ==> r == LoginRedirect
  {
    if site.session.Some? then Render("users/profile.html") else LoginRedirect
  }

  /** An unknown email and a known email with a wrong password cannot be told
      apart: both give the same response and leave the session alone. */
  lemma {:induction false} LoginViewFailuresIndistinguishable(users: Users, session: Option<string>, check: PasswordCheck,
                                           unknown: EmailLoginForm, known: EmailLoginForm)
    requires !EmailInUse(users, unknown.email)
    requires LookupByEmail(users, known.email).Match?
    requires !check(known.password, users[LookupByEmail(users, known.email).username].password)
    ensures LoginViewStep(users, session, check, Post(unknown)) == LoginViewStep(users, session, check, Post(known))
    ensures LoginViewStep(users, session, check, Post(known)).session == session
  {
  }

  /** The password is checked against the account the email resolves to,
      whatever account a username equal to the email would name. */
  lemma {:induction false} LoginViewUsesResolvedUsername(users: Users, session: Option<string>, check: PasswordCheck, f: EmailLoginForm)
    requires LookupByEmail(users, f.email).Match?
    ensures var name := LookupByEmail(users, f.email).username;
      var succeeded := LoginViewStep(users, session, check, Post(f)).response == Redirect("profile", None);
      succeeded <==> Authenticate(users, check, name, f.password) == Some(name)
  {
  }

  /** With exactly-unique emails the lookup never finds two accounts, so
      the view never fails with a server error. `register` keeps emails
      unique only for addresses already in normal form. */
  lemma {:induction false} UniqueEmailsNeverAmbiguous(users: Users, session: Option<string>, check: PasswordCheck, req: Request<EmailLoginForm>)
    requires UniqueEmails(users)
    ensures LoginViewStep(users, session, check, req).response != ServerError
  {
    if req.Post? {
      assert LookupByEmail(users, req.form.email) != Ambiguous;
    }
  }

  /** A freshly registered user can log in with the email as it was stored
      (normalised) and their password, and lands on the profile page, as
      long as no earlier account holds that stored email. */
  lemma {:induction false} RegisterThenLoginView(users: Users, session: Option<string>, check: PasswordCheck, f: Views.RegisterForm)
    requires Views.Creates(users, Post(f)) && !EmailInUse(users, NormalizeEmail(f.email))
    requires check(f.password, f.password)
    ensures var after := Views.RegisterStep(users, Post(f)).users;
      LoginViewStep(after, session, check, Post(EmailLoginForm(NormalizeEmail(f.email), f.password)))
        == Views.SessionOutcome(Redirect("profile", None), Some(f.fullname))
  {
    var e := NormalizeEmail(f.email);
    var after := users[f.fullname := Account(e, f.password)];
    assert Views.RegisterStep(users, Post(f)).users == after;
    LookupSingle(after, f.fullname, e);
  }

  /** Once "a@X.com" has been registered beside "a@x.com", both accounts
      store "a@x.com" and logging in with it fails with a server error. */
  lemma {:induction false} DuplicateEmailBreaksLoginView(session: Option<string>, check: PasswordCheck, password: string)
    ensures var users := map["alice" := Account("a@x.com", "pw")];
      var after := Views.RegisterStep(users, Post(Views.RegisterForm("bob", "a@X.com", "pw2", "pw2"))).users;
      LoginViewStep(after, session, check, Post(EmailLoginForm("a@x.com", password))).response == ServerError
  {
    Views.RegisterCanDuplicateEmail();
    var users := map["alice" := Account("a@x.com", "pw")];
    var after := Views.RegisterStep(users, Post(Views.RegisterForm("bob", "a@X.com", "pw2", "pw2"))).users;
    assert "alice" in after && "bob" in after && after["alice"].email == "a@x.com" == after["bob"].email;
  }
}
