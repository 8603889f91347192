/**
 * The vault backed by the `credentials` table: registering a name stores the encoding of a
 * fresh token under that name and hands the plaintext token back once; matching looks the name
 * up and asks the password encoder whether the presented secret fits the stored encoding.
 */
module JpaVault {
  import opened Lang
  import opened AuthenticationVault

  /**
   * The password encoder the vault is given: a one-way encoding and the check that a raw
   * secret fits an encoding. Both come from outside and are left uninterpreted.
   */
  datatype PasswordEncoder = PasswordEncoder(
    encode: string -> string,
    matches: (string, string) -> bool)

  /** What every password encoder promises: a raw secret fits its own encoding. */
  ghost predicate Consistent(e: PasswordEncoder) {
    forall raw :: e.matches(raw, e.encode(raw))
  }

  /** An encoder under which no other secret fits a secret's encoding. */
  ghost predicate Discriminating(e: PasswordEncoder) {
    forall raw, other :: e.matches(other, e.encode(raw)) ==> other == raw
  }

  /** One row of the `credentials` table. */
  datatype CredentialsData = CredentialsData(key: string, token: string)

  /** The vault's own principal type: the name a principal is filed under. */
  datatype Key = Key(value: string)

  function KeyOf(p: Principal): (k: Key)
    ensures k.value == p.Name()
  {
    Key(p.Name())
  }

  const NULL_PRINCIPAL := "principal can not be null"
  const NULL_AUTHENTICATION := "vault can not be null"

  class JpaBasicAuthenticationVault {
    /** The `credentials` table: the encoded token stored under each key. */
    var vault: map<string, string>
    const encoder: PasswordEncoder
    /** The plaintext token handed out for each registered key. */
    ghost var issued: map<string, string>

    /** Every stored token is the encoding of the token handed out for its key. */
    ghost predicate Valid()
      reads this
    {
      && vault.Keys == issued.Keys
      && forall k :: k in vault ==> vault[k] == encoder.encode(issued[k])
    }

    constructor (encoder: PasswordEncoder)
      ensures Valid()
      ensures this.encoder == encoder && vault == map[]
    {
      this.encoder := encoder;
      vault := map[];
      issued := map[];
    }

    /**
     * Register a principal: throws when it is null, throws IdentifierConflict when its name is
     * taken (nothing is written), and otherwise stores encode(token) under the name and returns
     * an unauthenticated token carrying the plaintext. `token` stands for the random UUID.
     */
    method Register(principal: Option<Principal>, token: string) returns (r: Completion<Authentication, Fault>)
      requires Valid()
      modifies this
      ensures Valid()
      ensures principal.None? ==>
        r == Abrupt(NullPointer(NULL_PRINCIPAL)) && vault == old(vault)
      ensures principal.Some? && principal.value.Name() in old(vault) ==>
        r == Abrupt(Security(IdentifierConflict(principal.value))) && vault == old(vault)
      ensures principal.Some? && principal.value.Name() !in old(vault) ==>
        && vault == old(vault)[principal.value.Name() := encoder.encode(token)]
        && r == Normal(Authentication(principal.value.Name(), Text(token), [], false))
    {
      if principal.None? {
        return Abrupt(NullPointer(NULL_PRINCIPAL));
      }
      var attempt := TryToRegister(principal.value, token);
      match attempt
      case Success(a) => r := Normal(a);
      case Failure(_) => r := Abrupt(Security(Collision(principal.value)));
    }

    /** The existence check, then either a failure or the write. */
    method TryToRegister(principal: Principal, token: string) returns (r: Try<Authentication, SecurityException>)
      requires Valid()
      modifies this
      ensures Valid()
      ensures principal.Name() in old(vault) ==>
        r == Failure(Collision(principal)) && vault == old(vault)
      ensures principal.Name() !in old(vault) ==>
        && vault == old(vault)[principal.Name() := encoder.encode(token)]
        && r == Success(Authentication(principal.Name(), Text(token), [], false))
    {
      var key := KeyOf(principal);
      if key.value in vault {
        r := Failure(Collision(principal));
      } else {
        var a := PutToken(key, token);
        r := Success(a);
      }
    }

    /** Save the encoded token under the key and return the plaintext to the caller. */
    method PutToken(key: Key, token: string) returns (a: Authentication)
      requires Valid()
      modifies this
      ensures Valid()
      ensures vault == old(vault)[key.value := encoder.encode(token)]
      ensures issued == old(issued)[key.value := token]
      ensures a == Authentication(key.value, Text(token), [], false)
    {
      var secured := encoder.encode(token);
      vault := vault[key.value := secured];
      issued := issued[key.value := token];
      a := Authentication(key.value, Text(token), [], false);
    }

    /** The row stored under the key, if any. */
    function FindSecret(key: Key): (r: Option<CredentialsData>)
      reads this
      ensures r.Some? <==> key.value in vault
      ensures r.Some? ==> r.value == CredentialsData(key.value, vault[key.value])
    {
      if key.value in vault then Some(CredentialsData(key.value, vault[key.value])) else None
    }

    /**
     * Compare presented credentials with a stored row: an authenticated token for the key when
     * they are a string the encoder accepts, and null (None) otherwise.
     */
    function Compare(key: Key, secret: CredentialsData, authentication: Authentication): (r: Option<Authentication>)
      reads this
      ensures r.Some? <==>
        authentication.credentials.Text? && encoder.matches(authentication.credentials.text, secret.token)
      ensures r.Some? ==> r.value == Authentication(key.value, authentication.credentials, [], true)
    {
      if authentication.credentials.Text? && encoder.matches(authentication.credentials.text, secret.token) then
        Some(Authentication(key.value, authentication.credentials, [], true))
      else
        None
    }

    /** The lookup mapped through Compare: absent when the key is unknown, else Compare's answer. */
    function FindMatch(authentication: Authentication): (r: Option<Option<Authentication>>)
      reads this
      ensures r.Some? <==> authentication.principal in vault
      ensures r.Some? ==> r.value == Compare(KeyOf(Token(authentication)),
        CredentialsData(authentication.principal, vault[authentication.principal]), authentication)
    {
      var key := KeyOf(Token(authentication));
      match FindSecret(key)
      case None => None
      case Some(secret) => Some(Compare(key, secret, authentication))
    }

    /**
     * Match presented credentials: throws when the authentication is null; throws
     * IdentifierMismatch when the name is unknown; returns an authenticated token when the
     * credentials are a string that fits the stored encoding; returns null (None) otherwise.
     * Only reads the table.
     */
    function Match(authentication: Option<Authentication>): (r: Completion<Option<Authentication>, Fault>)
      reads this
      ensures authentication.None? ==> r == Abrupt(NullPointer(NULL_AUTHENTICATION))
      ensures authentication.Some? && authentication.value.principal !in vault ==>
        r == Abrupt(Security(IdentifierMismatch(Token(authentication.value))))
      ensures authentication.Some? && authentication.value.principal in vault ==>
        && r.Normal?
        && (r.value.Some? <==>
              && authentication.value.credentials.Text?
              && encoder.matches(authentication.value.credentials.text, vault[authentication.value.principal]))
        && (r.value.Some? ==>
              r.value.value == Authentication(authentication.value.principal, authentication.value.credentials, [], true))
    {
      match authentication
      case None => Abrupt(NullPointer(NULL_AUTHENTICATION))
      case Some(a) =>
        match FindMatch(a)
        case None => Abrupt(Security(Mismatch(Token(a))))
        case Some(found) => Normal(found)
    }
  }

  /** The authentication a caller presents with a name and a string secret. */
  function Presented(name: string, secret: string): (a: Authentication)
    ensures a.principal == name && a.credentials == Text(secret) && !a.authenticated
  {
    Authentication(name, Text(secret), [], false)
  }

  /** Round trip: every registered name matches with the token that was handed out for it. */
  lemma IssuedTokenMatches(v: JpaBasicAuthenticationVault, name: string)
    requires v.Valid() && Consistent(v.encoder)
    requires name in v.issued
    ensures v.Match(Some(Presented(name, v.issued[name])))
         == Normal(Some(Authentication(name, Text(v.issued[name]), [], true)))
  {
    assert v.encoder.matches(v.issued[name], v.encoder.encode(v.issued[name]));
  }

  /**
   * A wrong secret for a registered name yields null, not IdentifierMismatch, under an encoder
   * that accepts only the secret itself.
   */
  lemma WrongSecretGivesNull(v: JpaBasicAuthenticationVault, name: string, secret: string)
    requires v.Valid() && Discriminating(v.encoder)
    requires name in v.issued && secret != v.issued[name]
    ensures v.Match(Some(Presented(name, secret))) == Normal(None)
  {
    assert !v.encoder.matches(secret, v.encoder.encode(v.issued[name]));
  }

  /** Credentials that are not a string never match, whatever is stored. */
  lemma NonTextNeverMatches(v: JpaBasicAuthenticationVault, name: string)
    ensures v.Match(Some(Authentication(name, NotText, [], false))).Normal? <==> name in v.vault
    ensures v.Match(Some(Authentication(name, NotText, [], false))).Normal? ==>
            v.Match(Some(Authentication(name, NotText, [], false))).value == None
  {
  }

  /**
   * Registration followed by a match with the returned token: the match succeeds exactly when
   * the registration did, and a second registration of the same name is refused unchanged.
   */
  method RegisterThenMatch(v: JpaBasicAuthenticationVault, p: Principal, token: string)
    returns (registered: Completion<Authentication, Fault>, matched: Completion<Option<Authentication>, Fault>,
             again: Completion<Authentication, Fault>)
    requires v.Valid() && Consistent(v.encoder)
    modifies v
    ensures v.Valid()
    ensures registered.Normal? <==> p.Name() !in old(v.vault)
    ensures registered.Normal? ==> matched == Normal(Some(Authentication(p.Name(), Text(token), [], true)))
    ensures again == Abrupt(Security(IdentifierConflict(p)))
    ensures v.vault.Keys == old(v.vault.Keys) + {p.Name()}
  {
    registered := v.Register(Some(p), token);
    if registered.Normal? {
      IssuedTokenMatches(v, p.Name());
    }
    matched := v.Match(Some(Presented(p.Name(), token)));
    again := v.Register(Some(p), token);
  }
}
