/**
 * The in-memory journal used in tests: one list of entries per principal, appended in place on
 * each success and read back with takeRight(limit), i.e. the last `limit` entries oldest first.
 */
module InMemoryJournal {
  import opened Lang
  import opened AuthenticationVault
  import opened AuthenticationJournal
  import JpaJournal

  /** The shared success log: each principal's entries in the order they were recorded. */
  class InMemoryUserVisitJournal {
    var successLog: map<Principal, seq<AuthenticationLogEntry>>

    /** Every list is non-empty and holds only entries of the principal it is filed under. */
    ghost predicate Valid()
      reads this
    {
      forall p :: p in successLog ==>
        && successLog[p] != []
        && forall i :: 0 <= i < |successLog[p]| ==> successLog[p][i].principal == p
    }

    constructor ()
      ensures Valid() && successLog == map[]
    {
      successLog := map[];
    }

    /**
     * getOrDefault(principal, List.empty()): the principal's list, or nothing for a principal
     * never recorded; on a valid log, non-empty exactly for a recorded principal and holding
     * only its entries.
     */
    function History(principal: Principal): (h: seq<AuthenticationLogEntry>)
      reads this
      ensures principal in successLog ==> h == successLog[principal]
      ensures principal !in successLog ==> h == []
      ensures Valid() ==> (h != [] <==> principal in successLog)
      ensures Valid() ==> forall i :: 0 <= i < |h| ==> h[i].principal == principal
    {
      if principal in successLog then successLog[principal] else []
    }
  }

  /** The class the source names "Writer": it answers the reading side of the journal. */
  class SuccessAuthenticationJournalWriter {
    const journal: InMemoryUserVisitJournal

    constructor (journal: InMemoryUserVisitJournal)
      ensures this.journal == journal
    {
      this.journal := journal;
    }

    /**
     * The last `limit` entries recorded for the principal, oldest first: none for a limit of
     * zero or less, for a null principal or for a principal never recorded. Reads only.
     */
    function SuccessfulAttempts(principal: Option<Principal>, limit: int): (r: seq<AuthenticationLogEntry>)
      reads this, journal
      ensures principal.None? ==> r == []
      ensures principal.Some? ==>
        && |r| == (if limit <= 0 then 0 else Min(limit, |journal.History(principal.value)|))
        && r == journal.History(principal.value)[|journal.History(principal.value)| - |r|..]
      ensures principal.Some? && principal.value !in journal.successLog ==> r == []
      ensures journal.Valid() ==> forall i :: 0 <= i < |r| ==>
        principal.Some? && r[i].principal == principal.value
    {
      match principal
      case None => []
      case Some(p) => TakeRight(journal.History(p), limit)
    }
  }

  const NULL_IDENTIFIER := "identifier can not be null"

  /** The class the source names "Reader": it records successes. */
  class SuccessAuthenticationJournalReader {
    const journal: InMemoryUserVisitJournal

    constructor (journal: InMemoryUserVisitJournal)
      ensures this.journal == journal
    {
      this.journal := journal;
    }

    /**
     * Record a success: a null principal throws and nothing changes; otherwise the SUCCESSFUL
     * entry stamped `now` is appended to the principal's list and returned. `now` stands for
     * the current time in milliseconds.
     */
    method Success(principal: Option<Principal>, now: int) returns (r: Completion<AuthenticationLogEntry, Fault>)
      requires journal.Valid()
      modifies journal
      ensures journal.Valid()
      ensures principal.None? ==>
        r == Abrupt(NullPointer(NULL_IDENTIFIER)) && journal.successLog == old(journal.successLog)
      ensures principal.Some? ==>
        && r == Normal(SuccessEntry(principal.value, now))
        && journal.successLog
           == old(journal.successLog)[principal.value := old(journal.History(principal.value)) + [r.value]]
    {
      if principal.None? {
        return Abrupt(NullPointer(NULL_IDENTIFIER));
      }
      var entry := LogSuccess(SuccessEntry(principal.value, now));
      r := Normal(entry);
    }

    /**
     * Append the entry to its principal's list: the first step extends a list that is present,
     * the second starts a list that is absent, so exactly one of them acts. Every other
     * principal's list is left as it was.
     */
    method LogSuccess(entry: AuthenticationLogEntry) returns (r: AuthenticationLogEntry)
      requires journal.Valid()
      modifies journal
      ensures journal.Valid()
      ensures r == entry
      ensures journal.successLog
           == old(journal.successLog)[entry.principal := old(journal.History(entry.principal)) + [entry]]
    {
      var p := entry.principal;
      ghost var history := journal.History(p);
      if p in journal.successLog {
        journal.successLog := journal.successLog[p := journal.successLog[p] + [entry]];
      }
      if p !in journal.successLog {
        assert journal.successLog == old(journal.successLog) && history + [entry] == [entry];
        journal.successLog := journal.successLog[p := [entry]];
      }
      r := entry;
    }
  }

  /**
   * Three successes at increasing times, then a read with limit 2: the two later entries come
   * back oldest first, and no other principal's list has changed.
   */
  method ThreeSuccessesThenRead(writer: SuccessAuthenticationJournalWriter, reader: SuccessAuthenticationJournalReader,
                                p: Principal, t1: int, t2: int, t3: int)
    returns (read: seq<AuthenticationLogEntry>)
    requires reader.journal == writer.journal && reader.journal.Valid()
    requires p !in reader.journal.successLog
    modifies reader.journal
    ensures reader.journal.Valid()
    ensures read == [SuccessEntry(p, t2), SuccessEntry(p, t3)]
    ensures forall q :: q != p ==> reader.journal.History(q) == old(reader.journal.History(q))
  {
    var _ := reader.Success(Some(p), t1);
    var _ := reader.Success(Some(p), t2);
    var _ := reader.Success(Some(p), t3);
    assert reader.journal.History(p) == [SuccessEntry(p, t1), SuccessEntry(p, t2), SuccessEntry(p, t3)];
    read := writer.SuccessfulAttempts(Some(p), 2);
  }

  /** The table rows the JPA writer would have written for a list of entries, in order. */
  function RowsOf(history: seq<AuthenticationLogEntry>): (rows: seq<JpaJournal.JpaAuthenticationData>)
    ensures |rows| == |history|
    ensures forall i :: 0 <= i < |history| ==> rows[i] == JpaJournal.FromEntry(history[i])
  {
    seq(|history|, i requires 0 <= i < |history| => JpaJournal.FromEntry(history[i]))
  }

  /**
   * The two journals read the same entries in opposite orders: when a principal's rows in the
   * table are the rows of its in-memory list, written with increasing timestamps, the JPA
   * reader's first page of size k is the in-memory read with limit k, reversed.
   */
  lemma JpaPageIsReversedInMemoryRead(history: seq<AuthenticationLogEntry>, rows: seq<JpaJournal.JpaAuthenticationData>,
                                      name: string, k: int)
    requires k >= 1
    requires JpaJournal.WithKey(rows, name) == RowsOf(history)
    requires forall i, j :: 0 <= i < j < |history| ==> history[i].utc < history[j].utc
    ensures JpaJournal.FindByKeyOrderByUtcDesc(rows, name, JpaJournal.PageRequest(0, k))
         == Reverse(RowsOf(TakeRight(history, k)))
  {
    RowsKeepIncreasingUtc(history);
    JpaJournal.FirstPageIsReversedTail(rows, name, k);
    RowsOfTail(history, k);
  }

  lemma RowsKeepIncreasingUtc(history: seq<AuthenticationLogEntry>)
    requires forall i, j :: 0 <= i < j < |history| ==> history[i].utc < history[j].utc
    ensures JpaJournal.StrictlyIncreasingUtc(RowsOf(history))
  {
    var w := RowsOf(history);
    forall i, j | 0 <= i < j < |w| ensures w[i].utc < w[j].utc {
      assert w[i].utc == history[i].utc && w[j].utc == history[j].utc;
    }
  }

  lemma RowsOfTail(history: seq<AuthenticationLogEntry>, k: int)
    ensures TakeRight(RowsOf(history), k) == RowsOf(TakeRight(history, k))
  {
    var w := RowsOf(history);
    var tail := TakeRight(history, k);
    forall i | 0 <= i < |tail| ensures TakeRight(w, k)[i] == RowsOf(tail)[i] {
      assert tail[i] == history[|history| - |tail| + i];
    }
  }
}
