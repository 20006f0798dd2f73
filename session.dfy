/** The session the browser carries between requests, the logout handler that
    clears the login from it, and the gate that lets a handler run only for a
    logged-in user. */
module Sessions {
  import opened Http

  /** The one key the front end keeps in the session: the logged-in user's email. */
  const LoggedInKey := "logged_in"

  class Session {
    var entries: map<string, string>

    constructor (initial: map<string, string>)
      ensures entries == initial
    {
      entries := initial;
    }
  }

  /** The session without its login entry. */
  function WithoutLogin(m: map<string, string>): (r: map<string, string>)
    ensures LoggedInKey !in r
    ensures forall k :: k in r <==> k in m && k != LoggedInKey
    ensures forall k :: k in r ==> r[k] == m[k]
  {
    m - {LoggedInKey}
  }

  lemma LogoutIdempotent(m: map<string, string>)
    ensures WithoutLogin(WithoutLogin(m)) == WithoutLogin(m)
  {
  }

  /** A session with no login entry is left as it is. */
  lemma LogoutAnonymousUnchanged(m: map<string, string>)
    requires LoggedInKey !in m
    ensures WithoutLogin(m) == m
  {
  }

  /** The logout handler: drops the login entry when there is one and sends
      the browser home. */
  method Logout(session: Session) returns (r: Response)
    modifies session
    ensures session.entries == WithoutLogin(old(session.entries))
    ensures r == Redirect(HomeRoute, Found)
  {
    if LoggedInKey in session.entries {
      session.entries := session.entries - {LoggedInKey};
    }
    r := Redirect(HomeRoute, Found);
  }

  /** What the gate decides for a session, given the backend's lookup of a user
      by email. */
  datatype Gate = ToLogin | Admit(user: User) | Unresolved

  function GateDecision(m: map<string, string>, getUser: string -> Option<User>): (g: Gate)
    ensures g.ToLogin? <==> LoggedInKey !in m
    ensures g.Admit? <==> LoggedInKey in m && getUser(m[LoggedInKey]).Some?
    ensures g.Admit? ==> Some(g.user) == getUser(m[LoggedInKey])
  {
    if LoggedInKey in m then
      var user := getUser(m[LoggedInKey]);
      if user.Some? then Admit(user.value) else Unresolved
    else ToLogin
  }

  /** The wrapped handler: with no login entry it redirects to the login page,
      with an entry that resolves to a user it is the inner handler for that
      user, and with one that does not resolve it falls off its end and
      returns None. */
  function Authenticate(m: map<string, string>, getUser: string -> Option<User>, inner: User -> Response): (r: Response)
    ensures LoggedInKey !in m ==> r == Redirect(LoginRoute, Found)
    ensures LoggedInKey in m && getUser(m[LoggedInKey]).Some? ==> r == inner(getUser(m[LoggedInKey]).value)
    ensures LoggedInKey in m && getUser(m[LoggedInKey]).None? ==> r == NoneValue
  {
    match GateDecision(m, getUser)
    case ToLogin => Redirect(LoginRoute, Found)
    case Admit(user) => inner(user)
    case Unresolved => NoneValue
  }

  /** Without a login entry the inner handler is never consulted: any two inner
      handlers give the same response. */
  lemma AnonymousSkipsInner(m: map<string, string>, getUser: string -> Option<User>,
                            inner1: User -> Response, inner2: User -> Response)
    requires LoggedInKey !in m
    ensures Authenticate(m, getUser, inner1) == Authenticate(m, getUser, inner2)
  {
  }

  /** After logout every gated handler redirects to the login page. */
  lemma LogoutThenGate(m: map<string, string>, getUser: string -> Option<User>, inner: User -> Response)
    ensures Authenticate(WithoutLogin(m), getUser, inner) == Redirect(LoginRoute, Found)
  {
  }

  /** The gate reads nothing but the login entry: keys other than it do not
      change its answer. */
  lemma GateReadsOnlyLogin(m: map<string, string>, k: string, v: string, getUser: string -> Option<User>,
                           inner: User -> Response)
    requires k != LoggedInKey
    ensures Authenticate(m[k := v], getUser, inner) == Authenticate(m, getUser, inner)
  {
    assert (LoggedInKey in m[k := v]) == (LoggedInKey in m);
  }
}
