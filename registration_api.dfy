/**
 * The registration endpoint: a login is validated by an ordered chain of rules, a valid login
 * becomes the principal that is registered in the vault, and the vault's answer is either
 * turned into a response (the name with its token) or rethrown.
 */
module RegistrationApi {
  import opened Lang
  import opened AuthenticationVault
  import opened JpaVault

  /** Characters that String.trim() strips: every code point up to and including U+0020. */
  predicate Trimmable(c: char) {
    c <= ' '
  }

  /** The input without its leading trimmable characters. */
  function TrimLeading(s: string): (r: string)
    ensures |r| <= |s| && r == s[|s| - |r|..]
    ensures forall i :: 0 <= i < |s| - |r| ==> Trimmable(s[i])
    ensures r == [] || !Trimmable(r[0])
  {
    if |s| > 0 && Trimmable(s[0]) then TrimLeading(s[1..]) else s
  }

  /** The input without its trailing trimmable characters. */
  function TrimTrailing(s: string): (r: string)
    ensures |r| <= |s| && r == s[..|r|]
    ensures forall i :: |r| <= i < |s| ==> Trimmable(s[i])
    ensures r == [] || !Trimmable(r[|r| - 1])
  {
    if |s| > 0 && Trimmable(s[|s| - 1]) then TrimTrailing(s[..|s| - 1]) else s
  }

  /**
   * String.trim(): the input between its maximal leading and maximal trailing runs of
   * trimmable characters.
   */
  function Trim(s: string): (r: string)
    ensures exists a, b ::
      && 0 <= a <= b <= |s| && r == s[a..b]
      && (forall i :: 0 <= i < a ==> Trimmable(s[i]))
      && (forall i :: b <= i < |s| ==> Trimmable(s[i]))
      && (r == [] || (!Trimmable(r[0]) && !Trimmable(r[|r| - 1])))
  {
    var l := TrimLeading(s);
    var t := TrimTrailing(l);
    var a := |s| - |l|;
    assert t == s[a..a + |t|];
    t
  }

  /** A login trims to nothing exactly when every character in it is trimmable. */
  lemma {:induction false} TrimEmptyIffBlank(s: string)
    ensures Trim(s) == [] <==> forall i :: 0 <= i < |s| ==> Trimmable(s[i])
  {
    var l := TrimLeading(s);
    if l != [] {
      assert l[0] == s[|s| - |l|];
    }
  }

  const NOT_PROVIDED := "login must be provided"
  const EMPTY := "login can not be empty"
  const TOO_LONG := "login to long, max length 5"
  const SEPARATED := "login can not be separated by space"

  /** The login validator; the only instance is DEFAULT. */
  datatype Validator = Validator(maxLength: int)
  {
    /**
     * The rules in order: the login is present, it is not blank, it is at most maxLength long,
     * it holds no space. The first rule that fails decides the error; a login passing all of
     * them becomes the principal's name unchanged.
     */
    function Validate(login: Option<string>): (r: Validation<Fault, Principal>)
      ensures r.Invalid? ==> r.error.IllegalArgument?
      ensures r.Valid? ==> login.Some? && r.value == Named(login.value)
    {
      match login
      case None => Invalid(IllegalArgument(NOT_PROVIDED))
      case Some(s) =>
        if Trim(s) == [] then Invalid(IllegalArgument(EMPTY))
        else if |s| > maxLength then Invalid(IllegalArgument(TOO_LONG))
        else if ' ' in s then Invalid(IllegalArgument(SEPARATED))
        else Valid(Named(s))
    }
  }

  const DEFAULT := Validator(5)

  /** The outcome of the rules, each stated on the characters of the login itself. */
  function FirstFailingRule(v: Validator, login: Option<string>): Validation<Fault, Principal> {
    if login.None? then Invalid(IllegalArgument(NOT_PROVIDED))
    else if forall i :: 0 <= i < |login.value| ==> Trimmable(login.value[i]) then Invalid(IllegalArgument(EMPTY))
    else if |login.value| > v.maxLength then Invalid(IllegalArgument(TOO_LONG))
    else if exists i :: 0 <= i < |login.value| && login.value[i] == ' ' then Invalid(IllegalArgument(SEPARATED))
    else Valid(Named(login.value))
  }

  /** The validator decides every login as the ordered rules do. */
  lemma ValidateIsFirstFailingRule(v: Validator, login: Option<string>)
    ensures v.Validate(login) == FirstFailingRule(v, login)
  {
    if login.Some? {
      TrimEmptyIffBlank(login.value);
    }
  }

  /**
   * What DEFAULT accepts: a login of at most five characters, at least one of them visible,
   * none of them a space. Other trimmable characters (a tab, say) pass.
   */
  lemma DefaultAcceptsExactly(s: string)
    ensures DEFAULT.Validate(Some(s)).Valid? <==>
      && |s| <= 5
      && (exists i :: 0 <= i < |s| && !Trimmable(s[i]))
      && (forall i :: 0 <= i < |s| ==> s[i] != ' ')
  {
    ValidateIsFirstFailingRule(DEFAULT, Some(s));
  }

  /** A blank login is refused as empty even when it is also too long. */
  lemma BlankBeforeLength(s: string)
    requires |s| > 5 && forall i :: 0 <= i < |s| ==> Trimmable(s[i])
    ensures DEFAULT.Validate(Some(s)) == Invalid(IllegalArgument(EMPTY))
  {
    ValidateIsFirstFailingRule(DEFAULT, Some(s));
  }

  /** A non-blank login that is too long is refused for its length even when it also holds a space. */
  lemma LengthBeforeSpace(s: string)
    requires |s| > 5 && ' ' in s && exists i :: 0 <= i < |s| && !Trimmable(s[i])
    ensures DEFAULT.Validate(Some(s)) == Invalid(IllegalArgument(TOO_LONG))
  {
    ValidateIsFirstFailingRule(DEFAULT, Some(s));
  }

  /** The validation as a Try: a refusal becomes the failure, an accepted principal the success. */
  function TryFor(input: Option<string>): (r: Try<Principal, Fault>)
    ensures r.Success? <==> DEFAULT.Validate(input).Valid?
    ensures r.Success? ==> input.Some? && r.value == Named(input.value)
    ensures r.Failure? ==> r.cause == DEFAULT.Validate(input).error
  {
    match DEFAULT.Validate(input)
    case Invalid(e) => Failure(e)
    case Valid(p) => Success(p)
  }

  /** The body of the registration request; the login may be null. */
  datatype RegistrationRequest = RegistrationRequest(login: Option<string>)

  /** The response: the registered principal and its credentials. */
  datatype RegistrationResponse = RegistrationResponse(login: string, token: Credentials)

  function ToSuccessfulRegistrationResponse(a: Authentication): (r: RegistrationResponse)
    ensures r.login == a.principal && r.token == a.credentials
  {
    RegistrationResponse(a.principal, a.credentials)
  }

  /**
   * The registrant's try/catch around the vault: a SecurityException becomes a failure value,
   * any other exception keeps propagating, a returned authentication becomes a success.
   */
  function CatchSecurity(c: Completion<Authentication, Fault>): (r: Completion<Try<Authentication, Fault>, Fault>)
    ensures r.Normal? <==> c.Normal? || IsSecurityException(c.exception)
    ensures c.Normal? ==> r.value == Success(c.value)
    ensures c.Abrupt? && IsSecurityException(c.exception) ==> r.value == Failure(c.exception)
    ensures c.Abrupt? && !IsSecurityException(c.exception) ==> r.exception == c.exception
  {
    match c
    case Normal(a) => Normal(Success(a))
    case Abrupt(e) => if e.Security? then Normal(Failure(e)) else Abrupt(e)
  }

  const NULL_IDENTIFIER := "Identifier can not be null"

  class Registrant {
    const vault: JpaBasicAuthenticationVault

    constructor (vault: JpaBasicAuthenticationVault)
      ensures this.vault == vault
    {
      this.vault := vault;
    }

    /**
     * Register a principal with the vault: a null principal throws; a taken name comes back as
     * a failure holding IdentifierConflict; a new name comes back as a success holding the
     * vault's authentication.
     */
    method Register(principal: Option<Principal>, token: string) returns (r: Completion<Try<Authentication, Fault>, Fault>)
      requires vault.Valid()
      modifies vault
      ensures vault.Valid()
      ensures principal.None? ==>
        r == Abrupt(NullPointer(NULL_IDENTIFIER)) && vault.vault == old(vault.vault)
      ensures principal.Some? && principal.value.Name() in old(vault.vault) ==>
        && r == Normal(Failure(Security(IdentifierConflict(principal.value))))
        && vault.vault == old(vault.vault)
      ensures principal.Some? && principal.value.Name() !in old(vault.vault) ==>
        && r == Normal(Success(Authentication(principal.value.Name(), Text(token), [], false)))
        && vault.vault == old(vault.vault)[principal.value.Name() := vault.encoder.encode(token)]
    {
      if principal.None? {
        return Abrupt(NullPointer(NULL_IDENTIFIER));
      }
      var c := vault.Register(principal, token);
      r := CatchSecurity(c);
    }
  }

  class RegistrationApi {
    const registrant: Registrant

    constructor (registrant: Registrant)
      ensures this.registrant == registrant
    {
      this.registrant := registrant;
    }

    /**
     * The endpoint: validate the login, register the valid principal, answer with the name and
     * the plaintext token. An invalid login throws its IllegalArgumentException without the
     * vault being touched; a taken name throws IdentifierConflict.
     */
    method Register(request: RegistrationRequest, token: string) returns (r: Completion<RegistrationResponse, Fault>)
      requires registrant.vault.Valid()
      modifies registrant.vault
      ensures registrant.vault.Valid()
      ensures TryFor(request.login).Failure? ==>
        && r == Abrupt(DEFAULT.Validate(request.login).error)
        && registrant.vault.vault == old(registrant.vault.vault)
      ensures TryFor(request.login).Success? && request.login.value in old(registrant.vault.vault) ==>
        && r == Abrupt(Security(IdentifierConflict(Named(request.login.value))))
        && registrant.vault.vault == old(registrant.vault.vault)
      ensures TryFor(request.login).Success? && request.login.value !in old(registrant.vault.vault) ==>
        && r == Normal(RegistrationResponse(request.login.value, Text(token)))
        && registrant.vault.vault
           == old(registrant.vault.vault)[request.login.value := registrant.vault.encoder.encode(token)]
    {
      var validated := TryFor(request.login);
      match validated
      case Failure(e) =>
        r := Abrupt(e);
      case Success(p) =>
        var registered := registrant.Register(Some(p), token);
        match registered
        case Abrupt(e) =>
          r := Abrupt(e);
        case Normal(Failure(e)) =>
          r := Abrupt(e);
        case Normal(Success(a)) =>
          r := Normal(ToSuccessfulRegistrationResponse(a));
    }
  }
}
