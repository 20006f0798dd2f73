/** The registration handler: an ordered chain of checks over the submitted form
    in which the first failing check fixes the error message, followed, in the
    last branch, by two backend calls. The backend's answers are inputs. */
module Register {
  import opened PyChars
  import opened Http
  import EmailPattern

  datatype RegisterForm = RegisterForm(email: string, name: string, password: string, password2: string)

  const PasswordsDiffer := "The passwords do not match"
  const EmailFormat := "Email format error"
  const EmailNotRfc := "Email not in RFC5322 format"
  const PasswordShort := "Password not long enough"
  const PasswordWeak := "Password is not strong enough"
  const NameLength := "Name length formatting error"
  const NameSpecial := "Name contains special characters"
  const NameSpacing := "Spacing error in name"
  const EmailUsed := "This email has already been used"
  const StoreFailed := "Failed to store user info."

  /** The special characters the registration handler accepts in a password. */
  const RegisterSpecials := "!@#$%^&*+=~`-_/"

  // ---------------------------------------------------------------------------
  // The parts of the chain

  /** The password has an upper-case letter, a lower-case letter and one of
      the registration special characters. */
  predicate RegisterStrong(password: string) {
    HasUpper(password) && HasLower(password) && HasCharIn(password, RegisterSpecials)
  }

  /** A character of the name is neither alphanumeric nor whitespace. */
  predicate NameHasSpecial(name: string) {
    exists i :: 0 <= i < |name| && !IsAlnum(name[i]) && !IsSpace(name[i])
  }

  /** `name[0] == " " or name[-1] == " "`, for a non-empty name. */
  predicate EdgeSpace(name: string) {
    |name| > 0 && (name[0] == ' ' || name[|name| - 1] == ' ')
  }

  /** The final step: a (truthy) error message re-renders the form, anything
      else redirects to the login page. */
  function Finish(errorMessage: Option<string>): (r: Response)
    ensures r.Redirect? <==> errorMessage.None? || errorMessage.value == ""
    ensures r.Redirect? ==> r == Redirect(LoginRoute, Found)
    ensures r.Render? ==> r == Render(RegisterPage, errorMessage.value)
    ensures !r.Crash? && !r.NoneValue?
  {
    if errorMessage.Some? && errorMessage.value != "" then Render(RegisterPage, errorMessage.value)
    else Redirect(LoginRoute, Found)
  }

  /** The two backend calls of the last branch: is the email taken
      (get_user found a user), and did register_user store the new user. */
  function BackendStage(emailTaken: bool, stored: bool): Option<string>
  {
    if emailTaken then Some(EmailUsed)
    else if !stored then Some(StoreFailed)
    else None
  }

  /** What the backend branch answers: the taken email first, then the failed
      store, and a redirect to the login page exactly when neither happened. */
  lemma BackendOutcome(emailTaken: bool, stored: bool)
    ensures emailTaken ==> Finish(BackendStage(emailTaken, stored)) == Render(RegisterPage, EmailUsed)
    ensures !emailTaken && !stored ==> Finish(BackendStage(emailTaken, stored)) == Render(RegisterPage, StoreFailed)
    ensures Finish(BackendStage(emailTaken, stored)) == Redirect(LoginRoute, Found) <==> !emailTaken && stored
  {
  }

  /** The strength block: the flags the character scan sets decide whether the
      password is reported as weak. */
  function StrengthStage(password: string): (m: Option<string>)
    ensures m == None <==> RegisterStrong(password)
    ensures m != None ==> m == Some(PasswordWeak)
  {
    if !RegisterStrong(password) then Some(PasswordWeak) else None
  }

  /** The chain from the name-length check to the backend calls, as written:
      the branch on `len(name) > 0` is taken by every name that gets there, so
      the spacing check and the backend calls are never reached. */
  function NameStage(name: string, emailTaken: bool, stored: bool): (m: Option<string>)
    ensures |name| <= 2 || |name| >= 20 ==> m == Some(NameLength)
    ensures 3 <= |name| <= 19 && NameHasSpecial(name) ==> m == Some(NameSpecial)
    ensures 3 <= |name| <= 19 && !NameHasSpecial(name) ==> m == None
  {
    if |name| <= 2 then Some(NameLength)
    else if |name| >= 20 then Some(NameLength)
    else if |name| > 0 then (if NameHasSpecial(name) then Some(NameSpecial) else None)
    else if EdgeSpace(name) then Some(NameSpacing)
    else BackendStage(emailTaken, stored)
  }

  // ---------------------------------------------------------------------------
  // The whole chain

  /** The handler's if/elif chain in the order it is written. The two conditions
      whose evaluation can raise are inputs: `emailSearch` is what
      re.search(regex, email) gives and `strengthGuard` what the guard of the
      strength block gives. */
  function RegisterChain(f: RegisterForm, emailSearch: Evaluated, strengthGuard: Evaluated,
                         emailTaken: bool, stored: bool): (r: Response)
    ensures f.password != f.password2 ==> r == Render(RegisterPage, PasswordsDiffer)
    ensures f.password == f.password2 && |f.email| < 1 ==> r == Render(RegisterPage, EmailFormat)
    ensures r.Crash? ==> emailSearch == Raised(r.error) || strengthGuard == Raised(r.error)
    ensures !r.NoneValue?
  {
    if f.password != f.password2 then Finish(Some(PasswordsDiffer))
    else if |f.email| < 1 then Finish(Some(EmailFormat))
    else if emailSearch.Raised? then Crash(emailSearch.error)
    else if !emailSearch.value then Finish(Some(EmailNotRfc))
    else if |f.password| < 6 then Finish(Some(PasswordShort))
    else if strengthGuard.Raised? then Crash(strengthGuard.error)
    else if strengthGuard.value then Finish(StrengthStage(f.password))
    else Finish(NameStage(f.name, emailTaken, stored))
  }

  /** The backend's answers never change the response: no path of the chain
      reaches the backend calls. */
  lemma ChainIgnoresBackend(f: RegisterForm, emailSearch: Evaluated, strengthGuard: Evaluated,
                            taken1: bool, stored1: bool, taken2: bool, stored2: bool)
    ensures RegisterChain(f, emailSearch, strengthGuard, taken1, stored1)
         == RegisterChain(f, emailSearch, strengthGuard, taken2, stored2)
  {
  }

  /** The chain never answers with the spacing message nor with either message
      of the backend branch. */
  lemma UnreachableMessages(f: RegisterForm, emailSearch: Evaluated, strengthGuard: Evaluated,
                            emailTaken: bool, stored: bool)
    ensures RegisterChain(f, emailSearch, strengthGuard, emailTaken, stored) != Render(RegisterPage, NameSpacing)
    ensures RegisterChain(f, emailSearch, strengthGuard, emailTaken, stored) != Render(RegisterPage, EmailUsed)
    ensures RegisterChain(f, emailSearch, strengthGuard, emailTaken, stored) != Render(RegisterPage, StoreFailed)
  {
  }

  /** Names that reach the name checks: wrong lengths, then special characters;
      a well-formed name ends the chain with no message. */
  lemma NameChecks(f: RegisterForm, emailTaken: bool, stored: bool)
    requires f.password == f.password2 && |f.email| >= 1 && |f.password| >= 6
    ensures var r := RegisterChain(f, Yields(true), Yields(false), emailTaken, stored);
      && (|f.name| <= 2 || |f.name| >= 20 ==> r == Render(RegisterPage, NameLength))
      && (3 <= |f.name| <= 19 && NameHasSpecial(f.name) ==> r == Render(RegisterPage, NameSpecial))
      && (3 <= |f.name| <= 19 && !NameHasSpecial(f.name) ==> r == Redirect(LoginRoute, Found))
  {
  }

  // ---------------------------------------------------------------------------
  // The chain as the source runs it

  /** re.search at line 38 with the pattern of line 29: the pattern repeats a
      repeat (`\w+{2,3}`), so compiling it raises re.error whatever the email. */
  function SearchRegisterPattern(email: string): (e: Evaluated)
    ensures e.Raised? && e.error == ReError
  {
    Raised(ReError)
  }

  /** The guard `len(password > 5)`: comparing a str with an int raises
      TypeError whatever the password. */
  function StrengthGuardAsWritten(password: string): (e: Evaluated)
    ensures e.Raised? && e.error == TypeError
  {
    Raised(TypeError)
  }

  /** The guard read as `len(password) > 5`. */
  function StrengthGuardIntended(password: string): (e: Evaluated)
    ensures |password| >= 6 ==> e == Yields(true)
  {
    Yields(|password| > 5)
  }

  /** The handler as written: every form with matching passwords and a
      non-empty email makes it raise. */
  function RegisterAsWritten(f: RegisterForm, emailTaken: bool, stored: bool): (r: Response)
    ensures r == if f.password != f.password2 then Render(RegisterPage, PasswordsDiffer)
                 else if |f.email| < 1 then Render(RegisterPage, EmailFormat)
                 else Crash(ReError)
  {
    RegisterChain(f, SearchRegisterPattern(f.email), StrengthGuardAsWritten(f.password), emailTaken, stored)
  }

  /** With a pattern that compiles and accepts the email, the guard of the
      strength block still raises for every password of six characters or more. */
  lemma StrengthGuardCrashes(f: RegisterForm, emailTaken: bool, stored: bool)
    requires f.password == f.password2 && |f.email| >= 1 && |f.password| >= 6
    ensures RegisterChain(f, Yields(true), StrengthGuardAsWritten(f.password), emailTaken, stored) == Crash(TypeError)
  {
  }

  /** With the guard read as `len(password) > 5` the strength block is always
      taken: the answer depends on the password alone, a strong password
      redirects to the login page, and the name and the backend are never
      consulted. */
  lemma StrengthBlockSwallowsRest(f: RegisterForm, emailTaken: bool, stored: bool)
    requires f.password == f.password2 && |f.email| >= 1 && |f.password| >= 6
    ensures var r := RegisterChain(f, Yields(true), StrengthGuardIntended(f.password), emailTaken, stored);
      r == (if RegisterStrong(f.password) then Redirect(LoginRoute, Found) else Render(RegisterPage, PasswordWeak))
  {
  }

  /** A valid registration for an unused email, with the guard read as
      intended, redirects without the user ever being stored. */
  lemma ValidRegistrationNotStored()
    ensures var f := RegisterForm("ab@cd.com", "Alice", "Abcde1!", "Abcde1!");
      RegisterChain(f, Yields(true), StrengthGuardIntended(f.password), false, false) == Redirect(LoginRoute, Found)
  {
    ExamplePasswordStrong();
  }

  // ---------------------------------------------------------------------------
  // The registration the checks are evidently meant to perform

  /** Every check passes: the checks the chain is evidently meant to make, in
      its order, with the login handler's email pattern. */
  predicate RegistrationValid(f: RegisterForm) {
    && f.password == f.password2
    && EmailPattern.Matches(f.email)
    && |f.password| >= 6
    && RegisterStrong(f.password)
    && 3 <= |f.name| <= 19
    && !NameHasSpecial(f.name)
    && !EdgeSpace(f.name)
  }

  /** The registration chain with each check a condition of its own, so that a
      form passing all of them reaches the backend. */
  function RegisterIntended(f: RegisterForm, emailTaken: bool, stored: bool): (r: Response)
    ensures f.password != f.password2 ==> r == Render(RegisterPage, PasswordsDiffer)
    ensures !r.Crash? && !r.NoneValue?
  {
    Finish(
      if f.password != f.password2 then Some(PasswordsDiffer)
      else if |f.email| < 1 then Some(EmailFormat)
      else if !EmailPattern.Matches(f.email) then Some(EmailNotRfc)
      else if |f.password| < 6 then Some(PasswordShort)
      else if !RegisterStrong(f.password) then Some(PasswordWeak)
      else if |f.name| <= 2 || |f.name| >= 20 then Some(NameLength)
      else if NameHasSpecial(f.name) then Some(NameSpecial)
      else if EdgeSpace(f.name) then Some(NameSpacing)
      else BackendStage(emailTaken, stored))
  }

  /** An email the pattern rejects is reported as such instead of crashing. */
  lemma IntendedRejectsMalformedEmail(f: RegisterForm, emailTaken: bool, stored: bool)
    requires f.password == f.password2 && |f.email| >= 1 && !EmailPattern.Matches(f.email)
    ensures RegisterIntended(f, emailTaken, stored) == Render(RegisterPage, EmailNotRfc)
    ensures RegisterChain(f, Yields(false), StrengthGuardAsWritten(f.password), emailTaken, stored)
         == RegisterIntended(f, emailTaken, stored)
  {
  }

  /** A long enough password is checked for strength and, when strong, the
      name checks follow. */
  lemma IntendedPasswordStrength(f: RegisterForm, emailTaken: bool, stored: bool)
    requires f.password == f.password2 && EmailPattern.Matches(f.email) && |f.password| >= 6
    ensures !RegisterStrong(f.password) ==> RegisterIntended(f, emailTaken, stored) == Render(RegisterPage, PasswordWeak)
    ensures RegisterStrong(f.password) && (|f.name| <= 2 || |f.name| >= 20)
            ==> RegisterIntended(f, emailTaken, stored) == Render(RegisterPage, NameLength)
    ensures RegisterStrong(f.password) && 3 <= |f.name| <= 19 && NameHasSpecial(f.name)
            ==> RegisterIntended(f, emailTaken, stored) == Render(RegisterPage, NameSpecial)
  {
  }

  lemma ExamplePasswordStrong()
    ensures RegisterStrong("Abcde1!")
  {
    var p := "Abcde1!";
    assert IsUpper(p[0]) && IsLower(p[1]) && p[6] in RegisterSpecials;
  }

  lemma ExampleNamesPlain()
    ensures !NameHasSpecial("Alice") && !NameHasSpecial(" Alice")
  {
    var n := " Alice";
    forall i | 0 <= i < |n| ensures IsAlnum(n[i]) || IsSpace(n[i]) {
    }
    assert n[1..] == "Alice";
    forall i | 0 <= i < |n[1..]| ensures IsAlnum(n[1..][i]) || IsSpace(n[1..][i]) {
      assert n[1..][i] == n[i + 1];
    }
  }

  /** A spacing error is reported for a name of a valid length and
      characters that starts or ends with a blank. */
  lemma IntendedSpacingReachable()
    ensures RegisterIntended(RegisterForm("ab@cd.com", " Alice", "Abcde1!", "Abcde1!"), false, true)
         == Render(RegisterPage, NameSpacing)
  {
    EmailPattern.AcceptsPlainAddress();
    ExamplePasswordStrong();
    ExampleNamesPlain();
  }

  /** A typical well-formed registration for an unused email succeeds. */
  lemma IntendedExampleRegisters()
    ensures RegisterIntended(RegisterForm("ab@cd.com", "Alice", "Abcde1!", "Abcde1!"), false, true)
         == Redirect(LoginRoute, Found)
  {
    EmailPattern.AcceptsPlainAddress();
    ExamplePasswordStrong();
    ExampleNamesPlain();
  }

  /** The intended chain redirects to the login page exactly when every check
      passes, the email is unused and the backend stored the user. */
  lemma IntendedRedirectIff(f: RegisterForm, emailTaken: bool, stored: bool)
    ensures RegisterIntended(f, emailTaken, stored) == Redirect(LoginRoute, Found)
        <==> RegistrationValid(f) && !emailTaken && stored
  {
    if EmailPattern.Matches(f.email) {
      EmailNotEmpty(f.email);
    }
  }

  /** A password under six characters is reported as too short, in the chain
      as written once the email search matched, and in the corrected chain
      once the email matches the pattern. */
  lemma PasswordTooShort(f: RegisterForm, strengthGuard: Evaluated, emailTaken: bool, stored: bool)
    requires f.password == f.password2 && |f.email| >= 1 && |f.password| < 6
    ensures RegisterChain(f, Yields(true), strengthGuard, emailTaken, stored) == Render(RegisterPage, PasswordShort)
    ensures EmailPattern.Matches(f.email) ==> RegisterIntended(f, emailTaken, stored) == Render(RegisterPage, PasswordShort)
  {
  }

  /** In the corrected chain, a form that passes every check up to the
      special characters of the name gets the spacing message when the name
      starts or ends with a blank, and otherwise the backend decides: a taken
      email first, then a failed store. */
  lemma IntendedLateChecks(f: RegisterForm, emailTaken: bool, stored: bool)
    requires f.password == f.password2 && EmailPattern.Matches(f.email) && |f.password| >= 6
    requires RegisterStrong(f.password) && 3 <= |f.name| <= 19 && !NameHasSpecial(f.name)
    ensures EdgeSpace(f.name) ==> RegisterIntended(f, emailTaken, stored) == Render(RegisterPage, NameSpacing)
    ensures !EdgeSpace(f.name) && emailTaken ==> RegisterIntended(f, emailTaken, stored) == Render(RegisterPage, EmailUsed)
    ensures !EdgeSpace(f.name) && !emailTaken && !stored
            ==> RegisterIntended(f, emailTaken, stored) == Render(RegisterPage, StoreFailed)
  {
    EmailNotEmpty(f.email);
  }

  lemma EmailNotEmpty(email: string)
    requires EmailPattern.Matches(email)
    ensures |email| >= 1
  {
  }

  /** Up to the length check of the password, the intended chain answers as the
      written one does when the written one is given the same pattern. */
  lemma IntendedAgreesBeforeStrength(f: RegisterForm, emailTaken: bool, stored: bool)
    requires f.password != f.password2 || |f.email| < 1 || !EmailPattern.Matches(f.email) || |f.password| < 6
    ensures RegisterChain(f, Yields(EmailPattern.Matches(f.email)), StrengthGuardAsWritten(f.password), emailTaken, stored)
         == RegisterIntended(f, emailTaken, stored)
  {
  }

  // ---------------------------------------------------------------------------
  // The handler's loops

  /** The character scan of the strength block: one pass over the password
      setting the upper, lower and special flags, the first class that fits
      winning for each character. */
  method ScanRegisterPassword(password: string) returns (upper: bool, lower: bool, special: bool)
    ensures upper == HasUpper(password)
    ensures lower == HasLower(password)
    ensures special == HasCharIn(password, RegisterSpecials)
  {
    upper, lower, special := false, false, false;
    var i := 0;
    while i < |password|
      invariant 0 <= i <= |password|
      invariant upper == exists j :: 0 <= j < i && IsUpper(password[j])
      invariant lower == exists j :: 0 <= j < i && IsLower(password[j])
      invariant special == exists j :: 0 <= j < i && password[j] in RegisterSpecials
    {
      var c := password[i];
      if IsUpper(c) {
        upper := true;
      } else if IsLower(c) {
        lower := true;
      } else if c in RegisterSpecials {
        special := true;
      }
      i := i + 1;
    }
  }

  /** The scan of the name: the message is set by every character that is
      neither alphanumeric nor whitespace. */
  method ScanName(name: string) returns (errorMessage: Option<string>)
    ensures errorMessage == if NameHasSpecial(name) then Some(NameSpecial) else None
  {
    errorMessage := None;
    var i := 0;
    while i < |name|
      invariant 0 <= i <= |name|
      invariant errorMessage == if exists j :: 0 <= j < i && !IsAlnum(name[j]) && !IsSpace(name[j])
                                then Some(NameSpecial) else None
    {
      if !IsAlnum(name[i]) && !IsSpace(name[i]) {
        errorMessage := Some(NameSpecial);
      }
      i := i + 1;
    }
  }

  /** The handler step by step: the error message is set by the first branch
      that applies, the loops scan the password and the name, and the response
      is chosen from the message at the end. */
  method RegisterPost(f: RegisterForm, emailSearch: Evaluated, strengthGuard: Evaluated,
                      emailTaken: bool, stored: bool) returns (r: Response)
    ensures r == RegisterChain(f, emailSearch, strengthGuard, emailTaken, stored)
  {
    var errorMessage: Option<string> := None;
    if f.password != f.password2 {
      errorMessage := Some(PasswordsDiffer);
    } else if |f.email| < 1 {
      errorMessage := Some(EmailFormat);
    } else if emailSearch.Raised? {
      return Crash(emailSearch.error);
    } else if !emailSearch.value {
      errorMessage := Some(EmailNotRfc);
    } else if |f.password| < 6 {
      errorMessage := Some(PasswordShort);
    } else if strengthGuard.Raised? {
      return Crash(strengthGuard.error);
    } else if strengthGuard.value {
      var upper, lower, special := ScanRegisterPassword(f.password);
      if !upper || !lower || !special {
        errorMessage := Some(PasswordWeak);
      }
    } else if |f.name| <= 2 {
      errorMessage := Some(NameLength);
    } else if |f.name| >= 20 {
      errorMessage := Some(NameLength);
    } else if |f.name| > 0 {
      errorMessage := ScanName(f.name);
    } else if EdgeSpace(f.name) {
      errorMessage := Some(NameSpacing);
    } else {
      errorMessage := BackendStage(emailTaken, stored);
    }
    if errorMessage.Some? && errorMessage.value != "" {
      r := Render(RegisterPage, errorMessage.value);
    } else {
      r := Redirect(LoginRoute, Found);
    }
  }
}
