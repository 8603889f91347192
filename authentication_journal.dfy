/** The journal's value types: an entry records one authentication of a principal at a time. */
module AuthenticationJournal {
  import opened AuthenticationVault

  /** The only state an entry can have. */
  datatype AuthenticationState = SUCCESSFUL

  /** One journal entry; utc is a millisecond timestamp. */
  datatype AuthenticationLogEntry = AuthenticationLogEntry(
    principal: Principal,
    state: AuthenticationState,
    utc: int)

  /** The entry the journals create for a successful authentication. */
  function SuccessEntry(principal: Principal, utc: int): (e: AuthenticationLogEntry)
    ensures e.principal == principal && e.state == SUCCESSFUL && e.utc == utc
  {
    AuthenticationLogEntry(principal, SUCCESSFUL, utc)
  }
}
