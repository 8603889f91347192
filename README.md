# Credential vault, success journals and stream zipping, in Dafny

This project models two parts of a Java code base and proves properties of the models.

The first part is the basic-authentication sample.

- **Registration endpoint.** A login is checked by an ordered chain of rules:
  - it must be present;
  - it must not be blank after `trim()`;
  - it must be at most five characters long;
  - it must hold no space.

  A login that passes is registered with the vault. The endpoint answers with the name and the plaintext token. A refusal or an identifier conflict is rethrown.
- **JPA vault.** Registering a name that is not yet in the `credentials` table stores the password encoder's encoding of a fresh token under the name. The plaintext token is handed back once. A taken name throws `IdentifierConflict` and nothing is written. Matching looks the name up:
  - an unknown name throws `IdentifierMismatch`;
  - a string secret that the encoder accepts gives an authenticated token;
  - anything else gives `null`.
- **Vault exceptions.** The two security exceptions, their factories and their messages.
- **JPA success journal.** The writer appends one `(key, utc)` row per success. The reader takes the first page of a key's rows ordered by `utc`, newest first, and turns each row back into a `SUCCESSFUL` entry for the principal it was asked about.
- **In-memory success journal.** A map from principal to the list of its entries. It is appended in place with `computeIfPresent` followed by `computeIfAbsent`, and read with `takeRight(limit)`.

The second part is `zip` over iterables, collections and streams.

- `ZipIterator` creates both underlying iterators on the first `hasNext`. `next` takes one element from each side and combines them.
- `ZipSpliterator.tryAdvance` advances the left side, and inside that the right side. It records in a field whether the right side advanced.
- The characteristics of a zip are the bits both sides share, minus `DISTINCT` and `SORTED`. The size is the smaller exact size when both sides are `SIZED`.

How the Java code is represented:

- Java `null` arguments are `Option` values.
- A method that may throw returns a `Completion`: `Normal(value)` or `Abrupt(exception)`.
- vavr `Try` and `Validation` are datatypes of the same shape.
- The password encoder is a pair of uninterpreted functions (`encode`, `matches`). The lemmas state what they need of it as hypotheses:
  - `Consistent`: a secret fits its own encoding;
  - `Discriminating`: no other secret fits.
- The random token and the current time are parameters.
- The repositories are fields: a `map` for the `credentials` table, a `seq` of rows for the `SuccessAuthLog` table, and a `map` for the in-memory log.
- The stream sides are sequences with a cursor. The characteristics are `bv32` values, with the `java.util.Spliterator` constants.

Behaviour of the code that its interfaces and names do not suggest:

- **A wrong secret.** `AuthenticationVault.match` is declared `throws IdentifierMismatch` (`AuthenticationVault.java:13`), but the JPA vault throws it only for an unknown name. For a wrong secret, `compare` returns `null`, and `Option.map` keeps that `null` as a found value, so `match` returns `null` (`JpaVault.WrongSecretGivesNull`).
- **A limit of 0.** The two implementations of `AuthenticationInfo.successfulAttempts` disagree. The in-memory journal's `takeRight(0)` gives an empty list. The JPA reader builds `new PageRequest(0, limit)`, and that constructor throws `IllegalArgumentException` for a size below one (`JpaJournal.SuccessAuthenticationJournalReader.Load`).
- **Order of the entries.** The two implementations also disagree on order. The JPA reader's query is `OrderByUtcDesc`, so it returns the newest entry first (`JpaJournal.ThreeSuccessesThenRead`). The in-memory journal's `takeRight` returns the last entries oldest first (`InMemoryJournal.ThreeSuccessesThenRead`). `InMemoryJournal.JpaPageIsReversedInMemoryRead` proves that the two orders are reverses of each other.

Other behaviour of the code that the model keeps:

- The "too long" message hard-codes `5`.
- A tab or any other character up to U+0020, other than a space, passes the validator as long as one visible character is present.
- In the in-memory journal, the class named `...Writer` is the one that reads, and the class named `...Reader` is the one that writes.
- `ZipSpliterator.estimateSize` returns `-1`, not `Long.MAX_VALUE`, when the size is unknown.
- `ZipIterator.next` before any `hasNext` throws `NullPointerException`.
- `tryAdvance` consumes a left element when the right side is exhausted.
- A null function passed with an empty collection gives the empty spliterator, not an exception.
- A null pointer exception that the JDK raises without a message (dereferencing a null principal, `Objects.requireNonNull(x)`) carries the empty message `NO_MESSAGE`; the stream exceptions carry no message.

## Model

The source paths below start with `authentication-service/basic/raw/spring.authentication.sample/src/` and then either `main/java/io/vash/example/spring/security/auth/basic/` or `test/java/io/vash/example/spring/security/auth/basic/respository/`; they are written out in full in the table.

| member | source | states |
|---|---|---|
| RegistrationApi.TrimLeading | authentication-service/basic/raw/spring.authentication.sample/src/main/java/io/vash/example/spring/security/auth/basic/RegistrationApi.java:127 | the leading part `trim()` strips consists of characters up to U+0020; the rest is a suffix of the input and starts with a character above U+0020 |
| RegistrationApi.TrimTrailing | authentication-service/basic/raw/spring.authentication.sample/src/main/java/io/vash/example/spring/security/auth/basic/RegistrationApi.java:127 | the trailing part `trim()` strips consists of characters up to U+0020; the rest is a prefix of the input and ends with a character above U+0020 |
| RegistrationApi.Trim | authentication-service/basic/raw/spring.authentication.sample/src/main/java/io/vash/example/spring/security/auth/basic/RegistrationApi.java:127 | `trim()` returns the input between a prefix and a suffix of characters up to U+0020, and the result is empty or starts and ends with a character above U+0020 |
| RegistrationApi.TrimEmptyIffBlank | authentication-service/basic/raw/spring.authentication.sample/src/main/java/io/vash/example/spring/security/auth/basic/RegistrationApi.java:127 | `login.trim().isEmpty()` holds exactly when every character of the login is at most U+0020 |
| RegistrationApi.Validator.Validate | authentication-service/basic/raw/spring.authentication.sample/src/main/java/io/vash/example/spring/security/auth/basic/RegistrationApi.java:125-131 | every refusal is an IllegalArgumentException; an accepted login becomes the principal with exactly that name |
| RegistrationApi.ValidateIsFirstFailingRule | authentication-service/basic/raw/spring.authentication.sample/src/main/java/io/vash/example/spring/security/auth/basic/RegistrationApi.java:126-130 | the validator's answer is decided by the first failing rule in the order null, blank, too long, space, with each rule's own message; a login passing all four is accepted |
| RegistrationApi.DefaultAcceptsExactly | authentication-service/basic/raw/spring.authentication.sample/src/main/java/io/vash/example/spring/security/auth/basic/RegistrationApi.java:117-130 | DEFAULT accepts a login if and only if it has at most 5 characters, at least one above U+0020, and no space |
| RegistrationApi.BlankBeforeLength | authentication-service/basic/raw/spring.authentication.sample/src/main/java/io/vash/example/spring/security/auth/basic/RegistrationApi.java:127-128 | a blank login (every character at most U+0020, tabs included) longer than 5 characters is refused as empty, not as too long |
| RegistrationApi.LengthBeforeSpace | authentication-service/basic/raw/spring.authentication.sample/src/main/java/io/vash/example/spring/security/auth/basic/RegistrationApi.java:128-129 | a non-blank login longer than 5 characters that contains a space is refused as too long, not as separated |
| RegistrationApi.TryFor | authentication-service/basic/raw/spring.authentication.sample/src/main/java/io/vash/example/spring/security/auth/basic/RegistrationApi.java:105-109 | the fold maps the validation to a Try: success exactly when the login is valid, carrying the named principal; otherwise a failure carrying the validation's own error |
| RegistrationApi.ToSuccessfulRegistrationResponse | authentication-service/basic/raw/spring.authentication.sample/src/main/java/io/vash/example/spring/security/auth/basic/RegistrationApi.java:62-65 | the response carries the authentication's principal as the login and its credentials as the token |
| RegistrationApi.CatchSecurity | authentication-service/basic/raw/spring.authentication.sample/src/main/java/io/vash/example/spring/security/auth/basic/RegistrationApi.java:79-83 | the call completes normally exactly when the vault returned or threw a SecurityException; a returned value becomes a success, a SecurityException a failure, and any other exception propagates unchanged |
| RegistrationApi.Registrant.Register | authentication-service/basic/raw/spring.authentication.sample/src/main/java/io/vash/example/spring/security/auth/basic/RegistrationApi.java:77-84 | a null principal throws "Identifier can not be null" and the table is unchanged; a taken name gives a failure holding IdentifierConflict and no write; a new name gives a success holding the unauthenticated token and stores encode(token) under the name |
| RegistrationApi.Registrant.constructor | authentication-service/basic/raw/spring.authentication.sample/src/main/java/io/vash/example/spring/security/auth/basic/RegistrationApi.java:73-75 | the registrant keeps the vault it is given |
| RegistrationApi.RegistrationApi.Register | authentication-service/basic/raw/spring.authentication.sample/src/main/java/io/vash/example/spring/security/auth/basic/RegistrationApi.java:44-65 | an invalid login throws its validation error and the vault is not touched; a taken name throws IdentifierConflict for that name and nothing is written; a new name answers with the name and the plaintext token and stores only encode(token) under that name |
| RegistrationApi.RegistrationApi.constructor | authentication-service/basic/raw/spring.authentication.sample/src/main/java/io/vash/example/spring/security/auth/basic/RegistrationApi.java:40-42 | the endpoint keeps the registrant it is given |
| AuthenticationVault.Collision | authentication-service/basic/raw/spring.authentication.sample/src/main/java/io/vash/example/spring/security/auth/basic/service/AuthenticationVault.java:15-17 | the factory builds an IdentifierConflict carrying the given principal |
| AuthenticationVault.Mismatch | authentication-service/basic/raw/spring.authentication.sample/src/main/java/io/vash/example/spring/security/auth/basic/service/AuthenticationVault.java:19-21 | the factory builds an IdentifierMismatch carrying the given principal |
| AuthenticationVault.ExceptionEqualityIsPrincipalEquality | authentication-service/basic/raw/spring.authentication.sample/src/main/java/io/vash/example/spring/security/auth/basic/service/AuthenticationVault.java:23-43 | with equality that ignores the superclass, two exceptions from the same factory are equal if and only if their principals are, and a conflict never equals a mismatch |
| AuthenticationVault.Message | authentication-service/basic/raw/spring.authentication.sample/src/main/java/io/vash/example/spring/security/auth/basic/service/AuthenticationVault.java:28-31 | a conflict's message is "Identifier Conflict"; a mismatch has no message |
| AuthenticationVault.LocalizedMessage | authentication-service/basic/raw/spring.authentication.sample/src/main/java/io/vash/example/spring/security/auth/basic/service/AuthenticationVault.java:33-36 | a conflict's localized message is "Identifier [", then the identifier's name, then "] was already taken"; a mismatch has none |
| AuthenticationVault.TakenMessageDeterminesName | authentication-service/basic/raw/spring.authentication.sample/src/main/java/io/vash/example/spring/security/auth/basic/service/AuthenticationVault.java:33-36 | two conflicts with the same localized message name the same identifier |
| AuthenticationJournal.SuccessEntry | authentication-service/basic/raw/spring.authentication.sample/src/main/java/io/vash/example/spring/security/auth/basic/repository/JpaJournal.java:96 | the entry for a success carries the principal, SUCCESSFUL and the given time |
| JpaVault.KeyOf | authentication-service/basic/raw/spring.authentication.sample/src/main/java/io/vash/example/spring/security/auth/basic/repository/JpaVault.java:119-121 | a principal's key is its name |
| JpaVault.JpaBasicAuthenticationVault.constructor | authentication-service/basic/raw/spring.authentication.sample/src/main/java/io/vash/example/spring/security/auth/basic/repository/JpaVault.java:50-54 | the vault starts with the given encoder and an empty table |
| JpaVault.JpaBasicAuthenticationVault.Register | authentication-service/basic/raw/spring.authentication.sample/src/main/java/io/vash/example/spring/security/auth/basic/repository/JpaVault.java:56-61 | a null principal throws "principal can not be null"; a taken name throws IdentifierConflict for that principal and leaves the table unchanged; a new name adds exactly one row, encode(token) under the name, and returns the unauthenticated token with the plaintext |
| JpaVault.JpaBasicAuthenticationVault.TryToRegister | authentication-service/basic/raw/spring.authentication.sample/src/main/java/io/vash/example/spring/security/auth/basic/repository/JpaVault.java:96-100 | the existence check decides: a failure holding the conflict with no write, or a success after exactly one write |
| JpaVault.JpaBasicAuthenticationVault.PutToken | authentication-service/basic/raw/spring.authentication.sample/src/main/java/io/vash/example/spring/security/auth/basic/repository/JpaVault.java:102-108 | the table gains encode(token) under the key and nothing else changes; the caller gets the plaintext token for the key's name; every stored value stays the encoding of the token issued for its key |
| JpaVault.JpaBasicAuthenticationVault.FindSecret | authentication-service/basic/raw/spring.authentication.sample/src/main/java/io/vash/example/spring/security/auth/basic/repository/JpaVault.java:70-74 | the lookup finds a row exactly when the key is in the table, and the row found is the stored one |
| JpaVault.JpaBasicAuthenticationVault.Compare | authentication-service/basic/raw/spring.authentication.sample/src/main/java/io/vash/example/spring/security/auth/basic/repository/JpaVault.java:82-94 | non-null exactly when the presented credentials are a string the encoder matches against the stored token; it is then an authenticated token for the key's name with those credentials |
| JpaVault.JpaBasicAuthenticationVault.FindMatch | authentication-service/basic/raw/spring.authentication.sample/src/main/java/io/vash/example/spring/security/auth/basic/repository/JpaVault.java:76-80 | the result is present exactly when the presented name is in the table, and then it is Compare of the name's key, the stored row and the presented authentication |
| JpaVault.JpaBasicAuthenticationVault.Match | authentication-service/basic/raw/spring.authentication.sample/src/main/java/io/vash/example/spring/security/auth/basic/repository/JpaVault.java:63-68 | a null authentication throws "vault can not be null"; an unknown name throws IdentifierMismatch; a known name returns normally, with an authenticated token exactly when the credentials are a string matching the stored encoding, and null otherwise |
| JpaVault.Presented | authentication-service/basic/raw/spring.authentication.sample/src/main/java/io/vash/example/spring/security/auth/basic/repository/JpaVault.java:107 | a presented name and string secret form an unauthenticated token with that name and secret |
| JpaVault.IssuedTokenMatches | authentication-service/basic/raw/spring.authentication.sample/src/main/java/io/vash/example/spring/security/auth/basic/repository/JpaVault.java:63-108 | round trip: with a consistent encoder, presenting a registered name with the token issued for it gives the authenticated token |
| JpaVault.WrongSecretGivesNull | authentication-service/basic/raw/spring.authentication.sample/src/main/java/io/vash/example/spring/security/auth/basic/repository/JpaVault.java:82-94 | with an encoder that accepts only the secret itself, any other secret for a registered name returns null rather than throwing IdentifierMismatch |
| JpaVault.NonTextNeverMatches | authentication-service/basic/raw/spring.authentication.sample/src/main/java/io/vash/example/spring/security/auth/basic/repository/JpaVault.java:87 | credentials that are not a string never match: null for a known name, IdentifierMismatch for an unknown one |
| JpaVault.RegisterThenMatch | authentication-service/basic/raw/spring.authentication.sample/src/main/java/io/vash/example/spring/security/auth/basic/repository/JpaVault.java:56-68 | registration succeeds exactly for a new name, and matching with the returned token then authenticates; registering the name again always throws IdentifierConflict; the table's names grow by exactly that name |
| JpaJournal.FromEntry | authentication-service/basic/raw/spring.authentication.sample/src/main/java/io/vash/example/spring/security/auth/basic/repository/JpaJournal.java:36-39 | the row written for an entry carries the principal's name and the entry's time |
| JpaJournal.RowRoundTrip | authentication-service/basic/raw/spring.authentication.sample/src/main/java/io/vash/example/spring/security/auth/basic/repository/JpaJournal.java:61-63 | reading a success entry's row back for the same principal gives the entry again |
| JpaJournal.NewPageRequest | authentication-service/basic/raw/spring.authentication.sample/src/main/java/io/vash/example/spring/security/auth/basic/repository/JpaJournal.java:68 | a page request is built exactly when the page is at least 0 and the size at least 1; otherwise IllegalArgumentException with the page or size message, page checked first |
| JpaJournal.PageRequest.Offset | authentication-service/basic/raw/spring.authentication.sample/src/main/java/io/vash/example/spring/security/auth/basic/repository/JpaJournal.java:68 | page times size: no rows come before page 0, and at least one full page (and at least as many rows as the page number) comes before any later page |
| JpaJournal.NextPageOffset | authentication-service/basic/raw/spring.authentication.sample/src/main/java/io/vash/example/spring/security/auth/basic/repository/JpaJournal.java:68 | page p + 1 starts exactly one page size after page p |
| JpaJournal.WithKey | authentication-service/basic/raw/spring.authentication.sample/src/main/java/io/vash/example/spring/security/auth/basic/repository/JpaJournal.java:29 | every selected row is a table row with the key, and every table row with the key is selected |
| JpaJournal.WithKeyCounts | authentication-service/basic/raw/spring.authentication.sample/src/main/java/io/vash/example/spring/security/auth/basic/repository/JpaJournal.java:29 | the selection holds each table row with the key exactly as often as the table does, and no row of another key, so rows written in the same millisecond are all kept |
| JpaJournal.WithKeyAppend | authentication-service/basic/raw/spring.authentication.sample/src/main/java/io/vash/example/spring/security/auth/basic/repository/JpaJournal.java:29 | appending a row extends its own key's selection by that row and leaves every other key's selection unchanged |
| JpaJournal.SortByUtcDesc | authentication-service/basic/raw/spring.authentication.sample/src/main/java/io/vash/example/spring/security/auth/basic/repository/JpaJournal.java:29 | `OrderByUtcDesc`: the result is ordered by utc, newest first, and is a permutation of the input |
| JpaJournal.FindByKeyOrderByUtcDesc | authentication-service/basic/raw/spring.authentication.sample/src/main/java/io/vash/example/spring/security/auth/basic/repository/JpaJournal.java:29 | every row returned is a table row with the key; the page is ordered newest first and draws on the key's rows without duplication; any page holds min(size, rows with the key left after its offset) rows; on the first page, no row of the key left out is newer than any row on it |
| JpaJournal.PageIsSortedSlice | authentication-service/basic/raw/spring.authentication.sample/src/main/java/io/vash/example/spring/security/auth/basic/repository/JpaJournal.java:29 | any page, not only the first, is the run of the key's rows in newest-first order that starts at the page's offset (clamped to the number of rows) and holds at most one page size |
| JpaJournal.ConsecutivePages | authentication-service/basic/raw/spring.authentication.sample/src/main/java/io/vash/example/spring/security/auth/basic/repository/JpaJournal.java:29 | page p followed by page p + 1 is the run of the sorted rows from page p's offset to two page sizes further, so no row is skipped or repeated between consecutive pages |
| JpaJournal.JpaJournal.constructor | authentication-service/basic/raw/spring.authentication.sample/src/main/java/io/vash/example/spring/security/auth/basic/repository/JpaJournal.java:27 | the SuccessAuthLog table starts with no rows |
| JpaJournal.JpaJournal.Save | authentication-service/basic/raw/spring.authentication.sample/src/main/java/io/vash/example/spring/security/auth/basic/repository/JpaJournal.java:101 | saving appends exactly that row to the table |
| JpaJournal.SuccessAuthenticationJournalReader.Load | authentication-service/basic/raw/spring.authentication.sample/src/main/java/io/vash/example/spring/security/auth/basic/repository/JpaJournal.java:67-69 | a null principal throws; a limit below 1 throws the page-size IllegalArgumentException; otherwise min(limit, rows of the name) rows, all of them the name's, each at most as often as in the table, newest first, with none of the name's other rows newer |
| JpaJournal.SuccessAuthenticationJournalReader.constructor | authentication-service/basic/raw/spring.authentication.sample/src/main/java/io/vash/example/spring/security/auth/basic/repository/JpaJournal.java:55-57 | the reader keeps the repository it is given |
| JpaJournal.SuccessAuthenticationJournalReader.SuccessfulAttempts | authentication-service/basic/raw/spring.authentication.sample/src/main/java/io/vash/example/spring/security/auth/basic/repository/JpaJournal.java:60-65 | exceptions from the load propagate; otherwise one SUCCESSFUL entry for the queried principal per loaded row, carrying that row's utc, in the same order and count |
| JpaJournal.EntriesOf | authentication-service/basic/raw/spring.authentication.sample/src/main/java/io/vash/example/spring/security/auth/basic/repository/JpaJournal.java:61-64 | one entry per row, in row order, each the success entry of the principal at the row's utc |
| JpaJournal.SuccessAuthenticationJournalWriter.Success | authentication-service/basic/raw/spring.authentication.sample/src/main/java/io/vash/example/spring/security/auth/basic/repository/JpaJournal.java:93-97 | a null principal throws "identifier can not be null" and writes nothing; otherwise exactly one row (name, now) is appended and the SUCCESSFUL entry for the principal at now is returned |
| JpaJournal.SuccessAuthenticationJournalWriter.LogSuccess | authentication-service/basic/raw/spring.authentication.sample/src/main/java/io/vash/example/spring/security/auth/basic/repository/JpaJournal.java:99-103 | exactly the entry's row is appended, and the entry itself is returned |
| JpaJournal.SuccessAuthenticationJournalWriter.constructor | authentication-service/basic/raw/spring.authentication.sample/src/main/java/io/vash/example/spring/security/auth/basic/repository/JpaJournal.java:85-87 | the writer keeps the repository it is given |
| JpaJournal.OtherKeyIsInvisible | authentication-service/basic/raw/spring.authentication.sample/src/main/java/io/vash/example/spring/security/auth/basic/repository/JpaJournal.java:29 | a row written under another key leaves a key's first page unchanged |
| JpaJournal.HeadIsNewest | authentication-service/basic/raw/spring.authentication.sample/src/main/java/io/vash/example/spring/security/auth/basic/repository/JpaJournal.java:29 | a key with any row has a non-empty first page, and its head is at least as new as every row of the key |
| JpaJournal.NewestRowComesFirst | authentication-service/basic/raw/spring.authentication.sample/src/main/java/io/vash/example/spring/security/auth/basic/repository/JpaJournal.java:29 | a row newer than all of its key's rows heads that key's first page once written |
| JpaJournal.SortOfIncreasingIsReverse | authentication-service/basic/raw/spring.authentication.sample/src/main/java/io/vash/example/spring/security/auth/basic/repository/JpaJournal.java:29 | rows written with increasing timestamps come out of the newest-first ordering in reverse |
| JpaJournal.FirstPageIsReversedTail | authentication-service/basic/raw/spring.authentication.sample/src/main/java/io/vash/example/spring/security/auth/basic/repository/JpaJournal.java:29 | when a key's rows have increasing timestamps, its first page of size k is its last k rows, reversed |
| JpaJournal.ThreeSuccessesThenRead | authentication-service/basic/raw/spring.authentication.sample/src/main/java/io/vash/example/spring/security/auth/basic/repository/JpaJournal.java:60-103 | after three successes at t1 < t2 < t3 for a principal with no earlier rows, a read with limit 2 returns the entries for t3 and then t2 |
| InMemoryJournal.InMemoryUserVisitJournal.constructor | authentication-service/basic/raw/spring.authentication.sample/src/test/java/io/vash/example/spring/security/auth/basic/respository/InMemoryUserVisitJournal.java:16 | the log starts empty |
| InMemoryJournal.InMemoryUserVisitJournal.History | authentication-service/basic/raw/spring.authentication.sample/src/test/java/io/vash/example/spring/security/auth/basic/respository/InMemoryUserVisitJournal.java:21 | `getOrDefault(principal, List.empty())`: the stored list, or nothing for an unknown principal; on a valid log it is non-empty exactly for a recorded principal and holds only that principal's entries |
| InMemoryJournal.SuccessAuthenticationJournalWriter.constructor | authentication-service/basic/raw/spring.authentication.sample/src/test/java/io/vash/example/spring/security/auth/basic/respository/InMemoryUserVisitJournal.java:18 | the reading class holds the shared journal it is given, standing in for the static map |
| InMemoryJournal.SuccessAuthenticationJournalWriter.SuccessfulAttempts | authentication-service/basic/raw/spring.authentication.sample/src/test/java/io/vash/example/spring/security/auth/basic/respository/InMemoryUserVisitJournal.java:20-22 | the last min(limit, length of the list) entries of the principal's list, oldest first; nothing for a limit of 0 or less, a null principal or an unknown principal; only the principal's own entries; reads only |
| InMemoryJournal.SuccessAuthenticationJournalReader.constructor | authentication-service/basic/raw/spring.authentication.sample/src/test/java/io/vash/example/spring/security/auth/basic/respository/InMemoryUserVisitJournal.java:25 | the writing class holds the shared journal it is given, standing in for the static map |
| InMemoryJournal.SuccessAuthenticationJournalReader.Success | authentication-service/basic/raw/spring.authentication.sample/src/test/java/io/vash/example/spring/security/auth/basic/respository/InMemoryUserVisitJournal.java:31-35 | a null principal throws "identifier can not be null" and nothing changes; otherwise the SUCCESSFUL entry at now is appended to the principal's old list (or to an empty one) and returned; every other principal's list is unchanged |
| InMemoryJournal.SuccessAuthenticationJournalReader.LogSuccess | authentication-service/basic/raw/spring.authentication.sample/src/test/java/io/vash/example/spring/security/auth/basic/respository/InMemoryUserVisitJournal.java:37-42 | after computeIfPresent and then computeIfAbsent, the principal's list is its old list (or an empty one) plus exactly this entry; every other key is unchanged; each list stays non-empty and holds only its principal's entries |
| InMemoryJournal.ThreeSuccessesThenRead | authentication-service/basic/raw/spring.authentication.sample/src/test/java/io/vash/example/spring/security/auth/basic/respository/InMemoryUserVisitJournal.java:20-42 | after three successes at t1, t2, t3 for a new principal, a read with limit 2 returns the entries for t2 and then t3, oldest first; other principals' lists are unchanged |
| InMemoryJournal.RowsOf | authentication-service/basic/raw/spring.authentication.sample/src/main/java/io/vash/example/spring/security/auth/basic/repository/JpaJournal.java:36-39 | the rows written for a list of entries are the entries' rows, in order |
| InMemoryJournal.JpaPageIsReversedInMemoryRead | authentication-service/basic/raw/spring.authentication.sample/src/test/java/io/vash/example/spring/security/auth/basic/respository/InMemoryUserVisitJournal.java:21 | when a name's table rows are the rows of its in-memory list, with increasing timestamps, the JPA first page of size k is the rows of the in-memory read with limit k, reversed |
| Lang.TakeRight | authentication-service/basic/raw/spring.authentication.sample/src/test/java/io/vash/example/spring/security/auth/basic/respository/InMemoryUserVisitJournal.java:21 | `takeRight(n)` returns the last min(n, length) elements in their original order, and nothing when n is 0 or less |
| Lang.Min | java/util/stream/StreamSuppement.java:36 | the minimum is one of the two arguments and at most both |
| Lang.ReversedPrefixIsReversedTail | authentication-service/basic/raw/spring.authentication.sample/src/test/java/io/vash/example/spring/security/auth/basic/respository/InMemoryUserVisitJournal.java:21 | the first k elements of the reversal are the last k elements, reversed |
| StreamsSupplement.Zip | java/util/stream/StreamSuppement.java:67-69 | the zip of two sequences has the length of the shorter one, and its element i is func applied to the elements at index i |
| StreamsSupplement.ZipIterator.constructor | java/util/stream/StreamSuppement.java:53-57 | the iterator keeps the two sources and the function, and has no underlying iterators yet |
| StreamsSupplement.ZipIterator.Init | java/util/stream/StreamSuppement.java:71-76 | the underlying iterators are created once, at their starts, and never recreated |
| StreamsSupplement.ZipIterator.HasNext | java/util/stream/StreamSuppement.java:60-64 | creates the iterators on the first call; true if and only if both underlying iterators have a next element |
| StreamsSupplement.ZipIterator.Next | java/util/stream/StreamSuppement.java:66-69 | before any hasNext it throws NullPointerException; an exhausted left side throws NoSuchElementException with nothing consumed; an exhausted right side throws after the left element is consumed; otherwise it returns func of the next two elements and advances both sides by one |
| StreamsSupplement.DrainIterator | java/util/stream/StreamSuppement.java:60-69 | consuming a fresh iterator with hasNext and next yields exactly the zip of the two sources |
| StreamsSupplement.SpliteratorUnknownSize | java/util/stream/StreamSuppement.java:30-32 | a spliterator of unknown size keeps the given characteristics except SIZED and SUBSIZED, and estimates Long.MAX_VALUE |
| StreamsSupplement.SpliteratorOfSize | java/util/stream/StreamSuppement.java:38-41 | a spliterator of known size adds SIZED and SUBSIZED unless it is CONCURRENT, and estimates the given size |
| StreamsSupplement.FromIterables | java/util/stream/StreamSuppement.java:29-33 | any null argument throws NullPointerException; otherwise a NONNULL and ORDERED spliterator of unknown size over a fresh zip iterator of the two sources |
| StreamsSupplement.FromCollections | java/util/stream/StreamSuppement.java:35-42 | a null collection throws; an empty collection on either side gives the empty spliterator, even with a null function; otherwise a null function throws, and the result is a NONNULL, ORDERED, SIZED and SUBSIZED spliterator whose size is the length of the zip |
| StreamsSupplement.Source.GetExactSizeIfKnown | java/util/stream/StreamSuppement.java:116 | the number of remaining elements when the side is SIZED, and -1 otherwise |
| StreamsSupplement.ZipCharacteristics | java/util/stream/StreamSuppement.java:121-123 | DISTINCT and SORTED are clear, and every other bit is set exactly when both sides set it |
| StreamsSupplement.ZipKeepsSharedCharacteristics | java/util/stream/StreamSuppement.java:121-123 | SIZED, ORDERED and NONNULL survive zipping if and only if both sides have them; DISTINCT and SORTED never do |
| StreamsSupplement.ZipSpliterator.constructor | java/util/stream/StreamSuppement.java:95-99 | the spliterator keeps the two sides and the function, and has not yet advanced on the right |
| StreamsSupplement.ZipSpliterator.TryAdvance | java/util/stream/StreamSuppement.java:101-106 | true if and only if both sides had an element, and then the action receives func of the two and both sides advance; an exhausted left side changes nothing; an exhausted right side consumes the left element, records that the right did not advance, and returns false |
| StreamsSupplement.ZipSpliterator.TrySplit | java/util/stream/StreamSuppement.java:108-111 | the spliterator never splits |
| StreamsSupplement.ZipSpliterator.Characteristics | java/util/stream/StreamSuppement.java:120-124 | the characteristics the two sides share, with DISTINCT and SORTED cleared |
| StreamsSupplement.ZipSpliterator.EstimateSize | java/util/stream/StreamSuppement.java:113-118 | when both sides are SIZED, the number of pairs still to come (the length of the zip of what remains); otherwise -1 |
| StreamsSupplement.From | java/util/stream/StreamSuppement.java:86-88 | any null argument throws NullPointerException; otherwise a fresh zip spliterator over exactly those sides and that function |
| StreamsSupplement.FromStreams | java/util/stream/StreamSuppement.java:80-84 | a null stream or function throws NullPointerException; otherwise a fresh zip spliterator over the two streams' spliterators |
| StreamsSupplement.DrainSpliterator | java/util/stream/StreamSuppement.java:101-106 | calling tryAdvance until it answers false yields exactly the zip of what remained on both sides; the right side advances by that many elements, and the left side by one more when it was the longer |

## Left out

- The HTTP layer is not modelled: Spring wiring, the security filter chain, `RegistrationExceptionHandler` and `ApiError` (status codes and wall-clock timestamps), the journal and authentication endpoints, request-body validation annotations, and logging.
- The password encoder (BCrypt) is a pair of uninterpreted functions. One-wayness, salting and constant-time comparison are not modelled. So "the stored value never equals the plaintext" is not proved.
- `UUID.randomUUID()` and `System.currentTimeMillis()` are the parameters `token` and `now`. Fresh tokens are not proved distinct.
- `@Transactional` and concurrent callers are not modelled. Each operation runs alone, so the race between the existence check and the write is not modelled.
- Principals are compared as values.
  - Java compares them with `equals`. An authentication token's `equals` also looks at its credentials and authorities.
  - The JPA vault and journal key rows by `getName()`, and so does the model. The in-memory map keys by the principal value.
- `String.length()` counts UTF-16 code units. The model counts characters.
- `long` timestamps and `int` limits and sizes are unbounded integers. No overflow occurs on the paths modelled.
- `JpaAuthenticationData`'s generated `seq` id is not modelled. Rows with the same key and time are indistinguishable.
- The database's order among rows with equal `utc` is unspecified. The model fixes one order. Every property proved about a page holds whichever order is chosen among rows with equal `utc`.
- JpaJournal.PageRequest.Offset, JpaJournal.FindByKeyOrderByUtcDesc: the "no omitted row is newer" property is stated for page 0 only. Later pages are pinned down as slices of the newest-first order (`PageIsSortedSlice`, `ConsecutivePages`). The reader only asks for page 0.
- JpaVault.JpaBasicAuthenticationVault.constructor: the credentials table starts empty, and only this vault writes it. A repository injected with existing rows, or written by other code, cannot be represented, because `Valid()` ties every stored value to a token this vault issued.
- The private helpers `logFailure` and `map` in `JpaJournal.java` are never called. They are not modelled.
- The in-memory journal's map is a `static` shared by every instance. Here it is one object that the reading class and the writing class both hold.
- The in-memory vault (`InMemoryBasicAuthenticationVault`) is not part of this model.
- `StreamSupport.stream(...)` and the parallel flag (`StreamSuppement.java:14-24`) are not modelled. A stream side is represented by the spliterator it hands out.
- The zip function's own exceptions and `null` results are not modelled. The `NONNULL` characteristic is reported without a check.
- Each side of a stream zip is held by value inside the zip spliterator. Two zips sharing one underlying spliterator (aliasing) are not modelled.
- StreamsSupplement.Source.GetExactSizeIfKnown: a `SIZED` side is assumed to honour the `Spliterator` contract and report exactly the number of elements it has left. A side that reports `SIZED` but does not count down as it advances (the JDK's sized `IteratorSpliterator` keeps its initial estimate) is not modelled.
- Collections with more than `Integer.MAX_VALUE` elements are not modelled: Java's `size()` saturates there.
- An `Iterable` is represented by the sequence that each of its iterators produces.
- FromStreams: when only the second stream is null, Java has already taken the first stream's spliterator, which consumes that stream, before throwing. Streams are values here, so that consumption is not modelled.
