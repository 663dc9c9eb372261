/**
 * The top-level views: `register`, `login` and `logout`. Each view's
 * decision is a function of the account table, the session and the request;
 * the methods perform it on a `Site`, changing only the field the view
 * changes in the source.
 */
module Views {
  import opened Wrappers
  import opened Accounts

  const UsernameTakenMessage := "The username is taken,please enter another username"
  const EmailExistsMessage := "The email exists,please enter another username"
  const InvalidCredentialsMessage := "Invalid credentials"

  datatype RegisterForm = RegisterForm(fullname: string, email: string, password: string, confirmPassword: string)
  datatype LoginForm = LoginForm(fullname: string, password: string)

  /** A view's response together with the account table it leaves. */
  datatype RegisterOutcome = RegisterOutcome(response: Response, users: Users)

  /** A view's response together with the session it leaves. */
  datatype SessionOutcome = SessionOutcome(response: Response, session: Option<string>)

  /** The request creates an account: a POST whose passwords agree and whose
      username and email (exactly) are both unused. */
  predicate Creates(users: Users, req: Request<RegisterForm>) {
    req.Post? && req.form.password == req.form.confirmPassword
    && req.form.fullname !in users && !EmailInUse(users, req.form.email)
  }

  /** `register`. The duplicate-email test compares the submitted address
      exactly, but `create_user` stores its normalised form. */
  function RegisterStep(users: Users, req: Request<RegisterForm>): (r: RegisterOutcome)
    ensures req.NonPost? ==> r == RegisterOutcome(Render("Register.html"), users)
    ensures req.Post? && req.form.password != req.form.confirmPassword ==>
      r == RegisterOutcome(Redirect("/", None), users)
    ensures req.Post? && req.form.password == req.form.confirmPassword && req.form.fullname in users ==>
      r == RegisterOutcome(Redirect("register", Some(UsernameTakenMessage)), users)
    ensures req.Post? && req.form.password == req.form.confirmPassword && req.form.fullname !in users
            && EmailInUse(users, req.form.email) ==>
      r == RegisterOutcome(Redirect("register", Some(EmailExistsMessage)), users)
    ensures r.users != users ==> Creates(users, req)
    ensures Creates(users, req) ==>
      && r.response == Redirect("login", None)
      && r.users.Keys == users.Keys + {req.form.fullname}
      && |r.users| == |users| + 1
      && r.users[req.form.fullname] == Account(NormalizeEmail(req.form.email), req.form.password)
      && (forall u :: u in users ==> r.users[u] == users[u])
  {
    match req
    case NonPost => RegisterOutcome(Render("Register.html"), users)
    case Post(f) =>
      if f.password != f.confirmPassword then RegisterOutcome(Redirect("/", None), users)
      else if f.fullname in users then RegisterOutcome(Redirect("register", Some(UsernameTakenMessage)), users)
      else if EmailInUse(users, f.email) then RegisterOutcome(Redirect("register", Some(EmailExistsMessage)), users)
      else RegisterOutcome(Redirect("login", None), users[f.fullname := Account(NormalizeEmail(f.email), f.password)])
  }

  /** `login`: authenticate the submitted username and password. */
  function LoginStep(users: Users, session: Option<string>, check: PasswordCheck, req: Request<LoginForm>): (r: SessionOutcome)
    ensures req.NonPost? ==> r == SessionOutcome(Render("Login.html"), session)
    ensures req.Post? ==>
      (r.response == Redirect("/", None) <==>
        req.form.fullname in users && check(req.form.password, users[req.form.fullname].password))
    ensures req.Post? && r.response == Redirect("/", None) ==> r.session == Some(req.form.fullname)
    ensures req.Post? && r.response != Redirect("/", None) ==>
      r == SessionOutcome(Redirect("login", Some(InvalidCredentialsMessage)), session)
    ensures (session.Some? ==> session.value in users) ==> (r.session.Some? ==> r.session.value in users)
  {
    match req
    case NonPost => SessionOutcome(Render("Login.html"), session)
    case Post(f) =>
      match Authenticate(users, check, f.fullname, f.password)
      case Some(user) => SessionOutcome(Redirect("/", None), Some(user))
      case None => SessionOutcome(Redirect("login", Some(InvalidCredentialsMessage)), session)
  }

  /** `register`, performed on the site: only the account table changes. */
  method Register(site: Site, req: Request<RegisterForm>) returns (response: Response)
    requires site.Valid()
    modifies site`users
    ensures site.Valid()
    ensures RegisterOutcome(response, site.users) == RegisterStep(old(site.users), req)
  {
    if req.NonPost? {
      return Render("Register.html");
    }
    var f := req.form;
    if f.password == f.confirmPassword {
      if f.fullname in site.users {
        return Redirect("register", Some(UsernameTakenMessage));
      }
      if EmailInUse(site.users, f.email) {
        return Redirect("register", Some(EmailExistsMessage));
      } else {
        site.users := site.users[f.fullname := Account(NormalizeEmail(f.email), f.password)];
        return Redirect("login", None);
      }
    } else {
      return Redirect("/", None);
    }
  }

  /** `login`, performed on the site: only the session changes. */
  method Login(site: Site, check: PasswordCheck, req: Request<LoginForm>) returns (response: Response)
    requires site.Valid()
    modifies site`session
    ensures site.Valid()
    ensures SessionOutcome(response, site.session) == LoginStep(site.users, old(site.session), check, req)
  {
    if req.Post? {
      var user := Authenticate(site.users, check, req.form.fullname, req.form.password);
      if user.Some? {
        site.session := user;
        return Redirect("/", None);
      } else {
        return Redirect("login", Some(InvalidCredentialsMessage));
      }
    } else {
      return Render("Login.html");
    }
  }

  /** `logout`: always ends the session and goes home. */
  method Logout(site: Site) returns (response: Response)
    requires site.Valid()
    modifies site`session
    ensures site.Valid()
    ensures site.session == None && response == Redirect("/", None)
  {
    site.session := None;
    return Redirect("/", None);
  }

  /** Once an account exists, any further registration under the same
      username is refused and leaves the table as it was. */
  lemma {:induction false} RegisterTwiceSameUsername(users: Users, first: RegisterForm, second: RegisterForm)
    requires Creates(users, Post(first))
    requires second.fullname == first.fullname && second.password == second.confirmPassword
    ensures var after := RegisterStep(users, Post(first)).users;
      RegisterStep(after, Post(second)) == RegisterOutcome(Redirect("register", Some(UsernameTakenMessage)), after)
  {
  }

  /** The duplicate-email check is exact: an address that differs from a
      stored one only in letter case is accepted as a new account. */
  lemma {:induction false} RegisterEmailIsCaseSensitive()
    ensures var users := map["alice" := Account("alice@example.com", "pw")];
      RegisterStep(users, Post(RegisterForm("bob", "ALICE@EXAMPLE.COM", "pw2", "pw2"))).response == Redirect("login", None)
  {
    var users := map["alice" := Account("alice@example.com", "pw")];
    assert "ALICE@EXAMPLE.COM" != "alice@example.com";
    assert !EmailInUse(users, "ALICE@EXAMPLE.COM");
  }

  /** A freshly registered user can log in with the password they chose,
      provided the verifier accepts a password against its own credential. */
  lemma {:induction false} RegisterThenLogin(users: Users, session: Option<string>, check: PasswordCheck, f: RegisterForm)
    requires Creates(users, Post(f)) && check(f.password, f.password)
    ensures var after := RegisterStep(users, Post(f)).users;
      LoginStep(after, session, check, Post(LoginForm(f.fullname, f.password)))
        == SessionOutcome(Redirect("/", None), Some(f.fullname))
  {
  }

  /** Registration keeps emails unique when the submitted address is
      already in normal form, since then the stored email is the one that
      was checked. */
  lemma {:induction false} RegisterKeepsNormalEmailsUnique(users: Users, req: Request<RegisterForm>)
    requires UniqueEmails(users)
    requires req.Post? ==> NormalizeEmail(req.form.email) == req.form.email
    ensures UniqueEmails(RegisterStep(users, req).users)
  {
    var after := RegisterStep(users, req).users;
    if Creates(users, req) {
      var f := req.form;
      forall u, v | u in after && v in after && u != v
        ensures after[u].email != after[v].email
      {
        if u == f.fullname {
          assert after[v] == users[v];
        } else if v == f.fullname {
          assert after[u] == users[u];
        }
      }
    }
  }

  /** The check compares the address as typed and the store keeps it
      normalised, so a second account can end up with a stored email equal
      to an existing one: "a@X.com" is accepted beside "a@x.com" and is
      stored as "a@x.com". */
  lemma {:induction false} RegisterCanDuplicateEmail()
    ensures var users := map["alice" := Account("a@x.com", "pw")];
      var after := RegisterStep(users, Post(RegisterForm("bob", "a@X.com", "pw2", "pw2"))).users;
      "bob" in after && after["bob"].email == after["alice"].email && !UniqueEmails(after)
  {
    var users := map["alice" := Account("a@x.com", "pw")];
    assert "a@X.com" != "a@x.com";
    assert !EmailInUse(users, "a@X.com");
    NormalizeMixedCaseDomain();
  }
}
