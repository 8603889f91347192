/**
 * The vault's service interface: the principals and authentications it deals in, the two
 * security exceptions it raises (an identifier already taken, an identifier that does not
 * match) with their factories and messages, and the other exceptions the core can throw.
 */
module AuthenticationVault {
  import opened Lang

  /** What a caller presents as a secret: a string, or an object of any other type. */
  datatype Credentials = Text(text: string) | NotText

  /**
   * A username/password authentication token: the principal's name, the credentials, the
   * granted authorities and whether the token counts as authenticated.
   */
  datatype Authentication = Authentication(
    principal: string,
    credentials: Credentials,
    authorities: seq<string>,
    authenticated: bool)

  /**
   * A principal: anything with a name. A registration request or a key is named directly;
   * an authentication is a principal too, named by its principal field.
   */
  datatype Principal = Named(name: string) | Token(authentication: Authentication)
  {
    function Name(): string {
      match this
      case Named(n) => n
      case Token(a) => a.principal
    }
  }

  /** The two SecurityException subtypes of the vault; equality is by the carried principal only. */
  datatype SecurityException =
    | IdentifierConflict(identifier: Principal)
    | IdentifierMismatch(principal: Principal)

  /** The exceptions the core lets escape to its callers. */
  datatype Fault =
    | NullPointer(message: string)
    | IllegalArgument(message: string)
    | Security(cause: SecurityException)

  /** A handler that catches SecurityException sees exactly the vault's two exceptions. */
  predicate IsSecurityException(f: Fault) {
    f.Security?
  }

  /** The exception for a registration whose identifier is already taken. */
  function Collision(principal: Principal): (e: SecurityException)
    ensures e.IdentifierConflict? && e.identifier == principal
  {
    IdentifierConflict(principal)
  }

  /** The exception for an authentication the vault cannot match. */
  function Mismatch(principal: Principal): (e: SecurityException)
    ensures e.IdentifierMismatch? && e.principal == principal
  {
    IdentifierMismatch(principal)
  }

  /** Two exceptions made by the same factory are equal exactly when their principals are. */
  lemma ExceptionEqualityIsPrincipalEquality(p: Principal, q: Principal)
    ensures Collision(p) == Collision(q) <==> p == q
    ensures Mismatch(p) == Mismatch(q) <==> p == q
    ensures Collision(p) != Mismatch(q)
  {
  }

  const CONFLICT_MESSAGE := "Identifier Conflict"
  const TAKEN_PREFIX := "Identifier ["
  const TAKEN_SUFFIX := "] was already taken"

  /**
   * getMessage(): a conflict carries the fixed text; a mismatch is built without a message,
   * so it has none (null).
   */
  function Message(e: SecurityException): (m: Option<string>)
    ensures e.IdentifierConflict? <==> m.Some?
    ensures m.Some? ==> m.value == CONFLICT_MESSAGE
  {
    match e
    case IdentifierConflict(_) => Some(CONFLICT_MESSAGE)
    case IdentifierMismatch(_) => None
  }

  /**
   * getLocalizedMessage(): a conflict names the taken identifier; a mismatch falls back to its
   * (absent) message.
   */
  function LocalizedMessage(e: SecurityException): (m: Option<string>)
    ensures e.IdentifierConflict? <==> m.Some?
    ensures m.Some? ==> |m.value| == |TAKEN_PREFIX| + |e.identifier.Name()| + |TAKEN_SUFFIX|
    ensures m.Some? ==> m.value[..|TAKEN_PREFIX|] == TAKEN_PREFIX
    ensures m.Some? ==> m.value[|m.value| - |TAKEN_SUFFIX|..] == TAKEN_SUFFIX
    ensures m.Some? ==> m.value[|TAKEN_PREFIX|..|m.value| - |TAKEN_SUFFIX|] == e.identifier.Name()
  {
    match e
    case IdentifierConflict(p) => Some(TAKEN_PREFIX + p.Name() + TAKEN_SUFFIX)
    case IdentifierMismatch(_) => Message(e)
  }

  /** The localized conflict message tells which identifier was taken: it determines the name. */
  lemma TakenMessageDeterminesName(p: Principal, q: Principal)
    requires LocalizedMessage(Collision(p)) == LocalizedMessage(Collision(q))
    ensures p.Name() == q.Name()
  {
  }
}
