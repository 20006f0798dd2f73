/** The login handler: the backend is asked for the user first, then a blank
    check, the email pattern and the password-strength scan decide, in that
    order, and only a form that passes all three lets the backend's answer log
    the user in. */
module Login {
  import opened PyChars
  import opened Http
  import opened Sessions
  import EmailPattern
  import Register

  const BlankMessage := "Email/password cant be blank"
  const FormatMessage := "Email/Password format is incorrect"
  const FailedMessage := "login failed"

  /** The special characters the login handler accepts in a password. */
  const LoginSpecials := "!@#$%^&*()_-+=/"

  /** The password passes the strength scan of the login handler. */
  predicate LoginPasswordOk(password: string) {
    HasUpper(password) && HasLower(password) && HasCharIn(password, LoginSpecials) && |password| >= 6
  }

  /** Email and password pass every format check of the login handler. */
  predicate LoginFormatOk(email: string, password: string) {
    email != "" && password != "" && EmailPattern.Matches(email) && LoginPasswordOk(password)
  }

  /** The handler's answer, given what login_user returned for the form. */
  function LoginResponse(email: string, password: string, found: Option<User>): (r: Response)
    ensures email == "" || password == "" ==> r == Render(LoginPage, BlankMessage)
    ensures email != "" && password != "" && !(EmailPattern.Matches(email) && LoginPasswordOk(password))
            ==> r == Render(LoginPage, FormatMessage)
    ensures LoginFormatOk(email, password) && found.None? ==> r == Render(LoginPage, FailedMessage)
    ensures r.Redirect? <==> LoginFormatOk(email, password) && found.Some?
    ensures r.Redirect? ==> r == Redirect(ProfileRoute, SeeOther)
  {
    if email == "" || password == "" then Render(LoginPage, BlankMessage)
    else if !EmailPattern.Matches(email) then Render(LoginPage, FormatMessage)
    else if !LoginPasswordOk(password) then Render(LoginPage, FormatMessage)
    else if found.Some? then Redirect(ProfileRoute, SeeOther)
    else Render(LoginPage, FailedMessage)
  }

  /** The session after the handler: the login entry names the user found, and
      only on success. */
  function SessionAfterLogin(m: map<string, string>, email: string, password: string, found: Option<User>)
    : (r: map<string, string>)
    ensures LoginFormatOk(email, password) && found.Some? ==> LoggedInKey in r && r[LoggedInKey] == found.value.email
    ensures !(LoginFormatOk(email, password) && found.Some?) ==> r == m
    ensures forall k :: k != LoggedInKey ==> (k in r <==> k in m)
    ensures forall k :: k != LoggedInKey && k in r ==> r[k] == m[k]
  {
    if LoginFormatOk(email, password) && found.Some? then m[LoggedInKey := found.value.email] else m
  }

  /** A blank field is reported as blank whatever the backend answered. */
  lemma BlankWins(email: string, password: string, found1: Option<User>, found2: Option<User>)
    requires email == "" || password == ""
    ensures LoginResponse(email, password, found1) == LoginResponse(email, password, found2)
                                                   == Render(LoginPage, BlankMessage)
  {
  }

  /** A format failure is reported even when the backend found a user. */
  lemma FormatBeatsBackend(email: string, password: string, user: User)
    requires email != "" && password != "" && !LoginFormatOk(email, password)
    ensures LoginResponse(email, password, Some(user)) == Render(LoginPage, FormatMessage)
  {
  }

  /** The scan of the password: one pass setting each flag the character
      satisfies. */
  method ScanLoginPassword(password: string) returns (upper: bool, lower: bool, special: bool)
    ensures upper == HasUpper(password)
    ensures lower == HasLower(password)
    ensures special == HasCharIn(password, LoginSpecials)
  {
    upper, lower, special := false, false, false;
    var i := 0;
    while i < |password|
      invariant 0 <= i <= |password|
      invariant upper == exists j :: 0 <= j < i && IsUpper(password[j])
      invariant lower == exists j :: 0 <= j < i && IsLower(password[j])
      invariant special == exists j :: 0 <= j < i && password[j] in LoginSpecials
    {
      if IsUpper(password[i]) {
        upper := true;
      }
      if IsLower(password[i]) {
        lower := true;
      }
      if password[i] in LoginSpecials {
        special := true;
      }
      i := i + 1;
    }
  }

  /** The handler step by step. `found` is what login_user answered for the
      form, asked before any check. */
  method LoginPost(session: Session, email: string, password: string, found: Option<User>) returns (r: Response)
    modifies session
    ensures r == LoginResponse(email, password, found)
    ensures session.entries == SessionAfterLogin(old(session.entries), email, password, found)
  {
    if email == "" || password == "" {
      return Render(LoginPage, BlankMessage);
    }
    if !EmailPattern.Matches(email) {
      return Render(LoginPage, FormatMessage);
    }
    var upper, lower, special := ScanLoginPassword(password);
    if !upper || !lower || !special || |password| < 6 {
      return Render(LoginPage, FormatMessage);
    }
    if found.Some? {
      session.entries := session.entries[LoggedInKey := found.value.email];
      return Redirect(ProfileRoute, SeeOther);
    } else {
      return Render(LoginPage, FailedMessage);
    }
  }

  /** Logging in and then requesting a gated page runs that page for the user
      the backend resolves the stored email to. */
  lemma LoginThenGate(m: map<string, string>, email: string, password: string, user: User,
                      getUser: string -> Option<User>, inner: User -> Response)
    requires LoginFormatOk(email, password)
    requires getUser(user.email) == Some(user)
    ensures Authenticate(SessionAfterLogin(m, email, password, Some(user)), getUser, inner) == inner(user)
  {
  }

  /** A failed login leaves the gate's answer as it was. */
  lemma FailedLoginKeepsGate(m: map<string, string>, email: string, password: string, found: Option<User>,
                             getUser: string -> Option<User>, inner: User -> Response)
    requires !LoginResponse(email, password, found).Redirect?
    ensures Authenticate(SessionAfterLogin(m, email, password, found), getUser, inner) == Authenticate(m, getUser, inner)
  {
  }

  /** The login scan and the registration scan accept different special
      characters: '~' only at registration, '(' only at login. */
  lemma SpecialSetsDiffer()
    ensures Register.RegisterStrong("Abcde~") && !LoginPasswordOk("Abcde~")
    ensures !Register.RegisterStrong("Abcde(") && LoginPasswordOk("Abcde(")
  {
    var p, q := "Abcde~", "Abcde(";
    assert IsUpper(p[0]) && IsLower(p[1]) && p[5] in Register.RegisterSpecials;
    assert IsUpper(q[0]) && IsLower(q[1]) && q[5] in LoginSpecials;
    forall i | 0 <= i < |p| ensures p[i] !in LoginSpecials {
    }
    forall i | 0 <= i < |q| ensures q[i] !in Register.RegisterSpecials {
    }
  }
}
