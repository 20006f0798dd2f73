/** What a request handler of the front end can produce, and the values the
    backend hands back to it. */
module Http {

  datatype Option<T> = None | Some(value: T)

  /** A user record as the backend returns it; only its email is read here. */
  datatype User = User(email: string, name: string)

  /** The exceptions the handlers raise. */
  datatype PyError =
    | ReError     // re.error: the pattern does not compile
    | TypeError   // an operator applied to operands of the wrong types

  /** The value a Python condition evaluates to, or the exception raised while
      evaluating it. */
  datatype Evaluated = Raised(error: PyError) | Yields(value: bool)

  datatype Response =
    | Render(template: string, message: string)   // render_template(template, message=...)
    | Redirect(location: string, code: nat)       // redirect(location, code)
    | Crash(error: PyError)                       // the handler raised
    | NoneValue                                   // the view returned None

  /** Flask's redirect() answers 302 unless told otherwise. */
  const Found: nat := 302
  /** "See Other": the browser follows with a GET. */
  const SeeOther: nat := 303

  const HomeRoute := "/"
  const LoginRoute := "/login"
  /** The profile view is served at the home route. */
  const ProfileRoute := "/"

  const RegisterPage := "register.html"
  const LoginPage := "login.html"
}
