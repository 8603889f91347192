/**
 * The journal of successful authentications backed by the SuccessAuthLog table: the writer
 * appends one (key, utc) row per success; the reader asks for the first page of a key's rows
 * ordered by utc, newest first, and turns each row back into an entry for the principal asked.
 */
module JpaJournal {
  import opened Lang
  import opened AuthenticationVault
  import opened AuthenticationJournal

  /** One row of the table: the principal's name and the entry's timestamp. */
  datatype JpaAuthenticationData = JpaAuthenticationData(key: string, utc: int)

  /** The row written for an entry. */
  function FromEntry(entry: AuthenticationLogEntry): (d: JpaAuthenticationData)
    ensures d.key == entry.principal.Name() && d.utc == entry.utc
  {
    JpaAuthenticationData(entry.principal.Name(), entry.utc)
  }

  /** Reading a success entry's row back for its own principal gives the entry again. */
  lemma RowRoundTrip(entry: AuthenticationLogEntry)
    requires entry.state == SUCCESSFUL
    ensures SuccessEntry(entry.principal, FromEntry(entry).utc) == entry
  {
  }

  /** A page of a query result: page number and page size. */
  datatype PageRequest = PageRequest(page: int, size: int)
  {
    /**
     * How many rows come before the page: the page number times the page size, so none before
     * the first page and at least one full page before any later one.
     */
    function Offset(): (o: int)
      requires page >= 0 && size >= 1
      ensures o >= 0 && (page == 0 ==> o == 0)
      ensures page >= 1 ==> o >= size && o >= page
    {
      page * size
    }
  }

  /** The message of an exception thrown without one (getMessage() is null). */
  const NO_MESSAGE := ""

  const PAGE_INDEX_NEGATIVE := "Page index must not be less than zero!"
  const PAGE_SIZE_TOO_SMALL := "Page size must not be less than one!"

  /** Building a page request refuses a negative page and a size below one. */
  function NewPageRequest(page: int, size: int): (r: Completion<PageRequest, Fault>)
    ensures r.Normal? <==> page >= 0 && size >= 1
    ensures r.Normal? ==> r.value == PageRequest(page, size)
    ensures page < 0 ==> r == Abrupt(IllegalArgument(PAGE_INDEX_NEGATIVE))
    ensures page >= 0 && size < 1 ==> r == Abrupt(IllegalArgument(PAGE_SIZE_TOO_SMALL))
  {
    if page < 0 then Abrupt(IllegalArgument(PAGE_INDEX_NEGATIVE))
    else if size < 1 then Abrupt(IllegalArgument(PAGE_SIZE_TOO_SMALL))
    else Normal(PageRequest(page, size))
  }

  /** The rows filed under the key, in the order they were written. */
  function WithKey(rows: seq<JpaAuthenticationData>, key: string): (r: seq<JpaAuthenticationData>)
    ensures |r| <= |rows|
    ensures forall i :: 0 <= i < |r| ==> r[i].key == key && r[i] in rows
    ensures forall i :: 0 <= i < |rows| && rows[i].key == key ==> rows[i] in r
  {
    if rows == [] then []
    else
      var last := rows[|rows| - 1];
      WithKey(rows[..|rows| - 1], key) + if last.key == key then [last] else []
  }

  /**
   * The selection keeps every table row with the key as often as the table holds it, and no
   * row of another key.
   */
  lemma {:induction false} WithKeyCounts(rows: seq<JpaAuthenticationData>, key: string)
    ensures forall d :: multiset(WithKey(rows, key))[d] == if d.key == key then multiset(rows)[d] else 0
  {
    if rows != [] {
      var last := rows[|rows| - 1];
      WithKeyCounts(rows[..|rows| - 1], key);
      assert rows == rows[..|rows| - 1] + [last];
    }
  }

  /** Appending a row adds it to its own key's rows and to no other key's. */
  lemma WithKeyAppend(rows: seq<JpaAuthenticationData>, d: JpaAuthenticationData, key: string)
    ensures WithKey(rows + [d], key) == WithKey(rows, key) + if d.key == key then [d] else []
  {
    assert (rows + [d])[..|rows|] == rows;
  }

  ghost predicate SortedByUtcDesc(s: seq<JpaAuthenticationData>) {
    forall i, j :: 0 <= i < j < |s| ==> s[i].utc >= s[j].utc
  }

  /** Place a row into a newest-first sequence. */
  function Insert(d: JpaAuthenticationData, s: seq<JpaAuthenticationData>): (r: seq<JpaAuthenticationData>)
    requires SortedByUtcDesc(s)
    ensures SortedByUtcDesc(r)
    ensures multiset(r) == multiset(s) + multiset{d}
    ensures |r| == |s| + 1 && (r[0] == d || (s != [] && r[0] == s[0]))
  {
    if s == [] || d.utc >= s[0].utc then [d] + s
    else
      assert s == [s[0]] + s[1..];
      [s[0]] + Insert(d, s[1..])
  }

  /** The rows ordered by utc, newest first. */
  function SortByUtcDesc(s: seq<JpaAuthenticationData>): (r: seq<JpaAuthenticationData>)
    ensures SortedByUtcDesc(r)
    ensures multiset(r) == multiset(s)
    ensures |r| == |s|
  {
    if s == [] then []
    else
      assert s == [s[0]] + s[1..];
      Insert(s[0], SortByUtcDesc(s[1..]))
  }

  /** A slice of a newest-first sequence is newest first and drawn from it. */
  lemma SliceOfSorted(s: seq<JpaAuthenticationData>, from: nat, to: nat)
    requires SortedByUtcDesc(s) && from <= to <= |s|
    ensures SortedByUtcDesc(s[from..to])
    ensures multiset(s[from..to]) <= multiset(s)
    ensures forall i :: 0 <= i < to - from ==> s[from..to][i] in multiset(s)
  {
    assert s == s[..from] + s[from..to] + s[to..];
    forall i | 0 <= i < to - from ensures s[from..to][i] in multiset(s) {
      assert s[from..to][i] == s[from + i];
    }
  }

  /** A leading slice of a newest-first sequence holds its newest rows. */
  lemma PrefixIsNewest(s: seq<JpaAuthenticationData>, to: nat)
    requires SortedByUtcDesc(s) && to <= |s|
    ensures forall d :: d in multiset(s) - multiset(s[..to]) ==> forall i :: 0 <= i < to ==> d.utc <= s[i].utc
  {
    assert s == s[..to] + s[to..];
    assert multiset(s) - multiset(s[..to]) == multiset(s[to..]);
    forall d | d in multiset(s[to..]) ensures forall i :: 0 <= i < to ==> d.utc <= s[i].utc {
      var j :| 0 <= j < |s[to..]| && s[to..][j] == d;
      assert s[to + j] == d;
    }
  }

  /** A page cut from the newest-first ordering of a key's rows, and what it holds. */
  lemma PageOfSorted(matching: seq<JpaAuthenticationData>, sorted: seq<JpaAuthenticationData>, from: nat, to: nat)
    requires SortedByUtcDesc(sorted) && multiset(sorted) == multiset(matching) && from <= to <= |sorted|
    ensures SortedByUtcDesc(sorted[from..to])
    ensures multiset(sorted[from..to]) <= multiset(matching)
    ensures forall i :: 0 <= i < to - from ==> sorted[from..to][i] in matching
    ensures from == 0 ==>
      forall d :: d in multiset(matching) - multiset(sorted[from..to]) ==>
        forall i :: 0 <= i < to ==> d.utc <= sorted[from..to][i].utc
  {
    SliceOfSorted(sorted, from, to);
    if from == 0 {
      PrefixIsNewest(sorted, to);
      assert sorted[from..to] == sorted[..to];
    }
    forall i | 0 <= i < to - from ensures sorted[from..to][i] in matching {
      assert sorted[from..to][i] in multiset(matching);
    }
  }

  /**
   * The repository's derived query findByKeyOrderByUtcDesc: the key's rows, newest first, cut
   * to the requested page. The first page holds the newest rows of the key.
   */
  function FindByKeyOrderByUtcDesc(rows: seq<JpaAuthenticationData>, key: string, pageable: PageRequest)
    : (r: seq<JpaAuthenticationData>)
    requires pageable.page >= 0 && pageable.size >= 1
    ensures forall i :: 0 <= i < |r| ==> r[i].key == key && r[i] in rows
    ensures SortedByUtcDesc(r)
    ensures multiset(r) <= multiset(WithKey(rows, key))
    ensures pageable.page == 0 ==> |r| == Min(pageable.size, |WithKey(rows, key)|)
    ensures |r| == Min(pageable.size, |WithKey(rows, key)| - Min(pageable.Offset(), |WithKey(rows, key)|))
    ensures pageable.page == 0 ==>
      forall d :: d in multiset(WithKey(rows, key)) - multiset(r) ==>
        forall i :: 0 <= i < |r| ==> d.utc <= r[i].utc
  {
    var matching := WithKey(rows, key);
    var sorted := SortByUtcDesc(matching);
    PagedFacts(matching, sorted, pageable);
    Paged(sorted, pageable)
  }

  /** The rows of one page of an ordered query result. */
  function Paged(sorted: seq<JpaAuthenticationData>, pageable: PageRequest): seq<JpaAuthenticationData>
    requires pageable.page >= 0 && pageable.size >= 1
  {
    var from := Min(pageable.Offset(), |sorted|);
    sorted[from..Min(from + pageable.size, |sorted|)]
  }

  /** A page runs from its offset, or the end of the result, for at most one page size. */
  lemma PagedIsSlice(sorted: seq<JpaAuthenticationData>, pageable: PageRequest, from: int, to: int)
    requires pageable.page >= 0 && pageable.size >= 1
    requires from == Min(pageable.Offset(), |sorted|) && to == Min(from + pageable.size, |sorted|)
    ensures 0 <= from <= to <= |sorted| && Paged(sorted, pageable) == sorted[from..to]
  {
  }

  /** What a page of the newest-first ordering of some rows holds. */
  lemma PagedFacts(matching: seq<JpaAuthenticationData>, sorted: seq<JpaAuthenticationData>, pageable: PageRequest)
    requires pageable.page >= 0 && pageable.size >= 1
    requires SortedByUtcDesc(sorted) && multiset(sorted) == multiset(matching) && |sorted| == |matching|
    ensures forall i :: 0 <= i < |Paged(sorted, pageable)| ==> Paged(sorted, pageable)[i] in matching
    ensures SortedByUtcDesc(Paged(sorted, pageable))
    ensures multiset(Paged(sorted, pageable)) <= multiset(matching)
    ensures |Paged(sorted, pageable)| == Min(pageable.size, |matching| - Min(pageable.Offset(), |matching|))
    ensures pageable.page == 0 ==>
      forall d :: d in multiset(matching) - multiset(Paged(sorted, pageable)) ==>
        forall i :: 0 <= i < |Paged(sorted, pageable)| ==> d.utc <= Paged(sorted, pageable)[i].utc
  {
    var from := Min(pageable.Offset(), |sorted|);
    var to := Min(from + pageable.size, |sorted|);
    PagedIsSlice(sorted, pageable, from, to);
    PageOfSorted(matching, sorted, from, to);
  }

  /** The SuccessAuthLog table. */
  class JpaJournal {
    var rows: seq<JpaAuthenticationData>

    constructor ()
      ensures rows == []
    {
      rows := [];
    }

    method Save(d: JpaAuthenticationData)
      modifies this
      ensures rows == old(rows) + [d]
    {
      rows := rows + [d];
    }
  }

  class SuccessAuthenticationJournalReader {
    const journal: JpaJournal

    constructor (journal: JpaJournal)
      ensures this.journal == journal
    {
      this.journal := journal;
    }

    /**
     * The first page of `limit` rows for the principal's name, newest first: at most `limit`
     * rows, all of them the principal's, none of the principal's other rows newer. A null
     * principal throws when its name is asked for; a limit below one is then refused by the
     * page request.
     */
    function Load(principal: Option<Principal>, limit: int): (r: Completion<seq<JpaAuthenticationData>, Fault>)
      reads this, journal
      ensures principal.None? ==> r == Abrupt(NullPointer(NO_MESSAGE))
      ensures principal.Some? ==> (r.Normal? <==> limit >= 1)
      ensures principal.Some? && limit < 1 ==> r == Abrupt(IllegalArgument(PAGE_SIZE_TOO_SMALL))
      ensures r.Normal? ==> |r.value| == Min(limit, |WithKey(journal.rows, principal.value.Name())|)
      ensures r.Normal? ==> forall i :: 0 <= i < |r.value| ==>
        r.value[i] in journal.rows && r.value[i].key == principal.value.Name()
      ensures r.Normal? ==> SortedByUtcDesc(r.value)
      ensures r.Normal? ==> multiset(r.value) <= multiset(WithKey(journal.rows, principal.value.Name()))
      ensures r.Normal? ==> forall d :: multiset(r.value)[d] <= multiset(journal.rows)[d]
      ensures r.Normal? ==>
        forall d :: d in multiset(WithKey(journal.rows, principal.value.Name())) - multiset(r.value) ==>
          forall i :: 0 <= i < |r.value| ==> d.utc <= r.value[i].utc
    {
      match principal
      case None => Abrupt(NullPointer(NO_MESSAGE))
      case Some(p) =>
        match NewPageRequest(0, limit)
        case Abrupt(e) => Abrupt(e)
        case Normal(pageable) =>
          WithKeyCounts(journal.rows, p.Name());
          Normal(FindByKeyOrderByUtcDesc(journal.rows, p.Name(), pageable))
    }

    /**
     * The principal's successful attempts, newest first: one SUCCESSFUL entry for the principal
     * per loaded row, carrying that row's utc, in the same order; Load's exceptions propagate.
     */
    function SuccessfulAttempts(principal: Option<Principal>, limit: int): (r: Completion<seq<AuthenticationLogEntry>, Fault>)
      reads this, journal
      ensures r.Normal? <==> Load(principal, limit).Normal?
      ensures r.Abrupt? ==> r.exception == Load(principal, limit).exception
      ensures r.Normal? ==> |r.value| == |Load(principal, limit).value|
      ensures r.Normal? ==> forall i :: 0 <= i < |r.value| ==>
        r.value[i] == SuccessEntry(principal.value, Load(principal, limit).value[i].utc)
    {
      match Load(principal, limit)
      case Abrupt(e) => Abrupt(e)
      case Normal(rows) => Normal(EntriesOf(principal.value, rows))
    }
  }

  /** One SUCCESSFUL entry for the principal per row, with the row's timestamp, in row order. */
  function EntriesOf(principal: Principal, rows: seq<JpaAuthenticationData>): (es: seq<AuthenticationLogEntry>)
    ensures |es| == |rows|
    ensures forall i :: 0 <= i < |rows| ==> es[i] == SuccessEntry(principal, rows[i].utc)
  {
    seq(|rows|, i requires 0 <= i < |rows| => SuccessEntry(principal, rows[i].utc))
  }

  const NULL_IDENTIFIER := "identifier can not be null"

  class SuccessAuthenticationJournalWriter {
    const journal: JpaJournal

    constructor (journal: JpaJournal)
      ensures this.journal == journal
    {
      this.journal := journal;
    }

    /**
     * Record a success: a null principal throws and nothing is written; otherwise exactly one
     * row (the name, the timestamp) is appended and the new SUCCESSFUL entry is returned.
     * `now` stands for the current time in milliseconds.
     */
    method Success(principal: Option<Principal>, now: int) returns (r: Completion<AuthenticationLogEntry, Fault>)
      modifies journal
      ensures principal.None? ==>
        r == Abrupt(NullPointer(NULL_IDENTIFIER)) && journal.rows == old(journal.rows)
      ensures principal.Some? ==>
        && r == Normal(SuccessEntry(principal.value, now))
        && journal.rows == old(journal.rows) + [JpaAuthenticationData(principal.value.Name(), now)]
    {
      if principal.None? {
        return Abrupt(NullPointer(NULL_IDENTIFIER));
      }
      var entry := LogSuccess(SuccessEntry(principal.value, now));
      r := Normal(entry);
    }

    /** Append the entry's row and hand the entry back. */
    method LogSuccess(entry: AuthenticationLogEntry) returns (r: AuthenticationLogEntry)
      modifies journal
      ensures r == entry
      ensures journal.rows == old(journal.rows) + [FromEntry(entry)]
    {
      journal.Save(FromEntry(entry));
      r := entry;
    }
  }

  /** A row written under another key never shows up in, or changes, a key's first page. */
  lemma OtherKeyIsInvisible(rows: seq<JpaAuthenticationData>, d: JpaAuthenticationData, key: string, size: int)
    requires d.key != key && size >= 1
    ensures FindByKeyOrderByUtcDesc(rows + [d], key, PageRequest(0, size))
         == FindByKeyOrderByUtcDesc(rows, key, PageRequest(0, size))
  {
    WithKeyAppend(rows, d, key);
    assert WithKey(rows + [d], key) == WithKey(rows, key);
  }

  /** No row of a key is newer than the head of the key's first page. */
  lemma HeadIsNewest(rows: seq<JpaAuthenticationData>, key: string, size: int, d: JpaAuthenticationData)
    requires size >= 1
    requires d in rows && d.key == key
    ensures |FindByKeyOrderByUtcDesc(rows, key, PageRequest(0, size))| >= 1
    ensures d.utc <= FindByKeyOrderByUtcDesc(rows, key, PageRequest(0, size))[0].utc
  {
    var r := FindByKeyOrderByUtcDesc(rows, key, PageRequest(0, size));
    var w := WithKey(rows, key);
    assert d in multiset(w);
    if d in multiset(r) {
      var j :| 0 <= j < |r| && r[j] == d;
    } else {
      assert d in multiset(w) - multiset(r);
    }
  }

  /** A row newer than all of its key's rows heads that key's first page once it is written. */
  lemma NewestRowComesFirst(rows: seq<JpaAuthenticationData>, key: string, now: int, size: int)
    requires size >= 1
    requires forall d :: d in rows && d.key == key ==> d.utc < now
    ensures FindByKeyOrderByUtcDesc(rows + [JpaAuthenticationData(key, now)], key, PageRequest(0, size))[0]
         == JpaAuthenticationData(key, now)
  {
    var newest := JpaAuthenticationData(key, now);
    var all := rows + [newest];
    HeadIsNewest(all, key, size, newest);
    var r := FindByKeyOrderByUtcDesc(all, key, PageRequest(0, size));
    assert r[0] in all && r[0].key == key && r[0].utc >= now;
  }

  ghost predicate StrictlyIncreasingUtc(s: seq<JpaAuthenticationData>) {
    forall i, j :: 0 <= i < j < |s| ==> s[i].utc < s[j].utc
  }

  /** Rows written oldest first come out of the sort in reverse. */
  lemma {:induction false} SortOfIncreasingIsReverse(s: seq<JpaAuthenticationData>)
    requires StrictlyIncreasingUtc(s)
    ensures SortByUtcDesc(s) == Reverse(s)
  {
    if s != [] {
      SortOfIncreasingIsReverse(s[1..]);
      InsertOldest(s[0], Reverse(s[1..]));
      assert Reverse(s) == Reverse(s[1..]) + [s[0]];
    }
  }

  /** A row older than every row of a newest-first sequence goes to its end. */
  lemma {:induction false} InsertOldest(d: JpaAuthenticationData, s: seq<JpaAuthenticationData>)
    requires SortedByUtcDesc(s)
    requires forall i :: 0 <= i < |s| ==> d.utc < s[i].utc
    ensures Insert(d, s) == s + [d]
  {
    if s != [] {
      InsertOldest(d, s[1..]);
      assert s == [s[0]] + s[1..];
    }
  }

  /** The first page is the leading part of the key's rows sorted newest first. */
  lemma FirstPageIsSortedPrefix(rows: seq<JpaAuthenticationData>, key: string, k: int)
    requires k >= 1
    ensures FindByKeyOrderByUtcDesc(rows, key, PageRequest(0, k))
         == SortByUtcDesc(WithKey(rows, key))[..Min(k, |WithKey(rows, key)|)]
  {
  }

  /** The next page starts one page size after this one. */
  lemma NextPageOffset(p: int, size: int)
    requires p >= 0 && size >= 1
    ensures PageRequest(p + 1, size).Offset() == PageRequest(p, size).Offset() + size
  {
  }

  /**
   * Any page is the slice of the key's rows, sorted newest first, that starts at the page's
   * offset (or at the end, for a page past the last row) and holds at most one page size.
   */
  lemma {:induction false} PageIsSortedSlice(rows: seq<JpaAuthenticationData>, key: string, pageable: PageRequest,
                                              sorted: seq<JpaAuthenticationData>, from: int, to: int)
    requires pageable.page >= 0 && pageable.size >= 1
    requires sorted == SortByUtcDesc(WithKey(rows, key))
    requires from == Min(pageable.Offset(), |sorted|) && to == Min(from + pageable.size, |sorted|)
    ensures 0 <= from <= to <= |sorted|
    ensures FindByKeyOrderByUtcDesc(rows, key, pageable) == sorted[from..to]
  {
    PagedIsSlice(sorted, pageable, from, to);
  }

  /**
   * Consecutive pages tile the newest-first ordering: page p followed by page p + 1 of the same
   * size is the slice of the sorted rows from page p's offset to two pages further, so no row is
   * skipped or repeated between two pages.
   */
  lemma ConsecutivePages(rows: seq<JpaAuthenticationData>, key: string, p: int, size: int,
                         sorted: seq<JpaAuthenticationData>, o: int)
    requires p >= 0 && size >= 1
    requires sorted == SortByUtcDesc(WithKey(rows, key)) && o == PageRequest(p, size).Offset()
    ensures FindByKeyOrderByUtcDesc(rows, key, PageRequest(p, size)) + FindByKeyOrderByUtcDesc(rows, key, PageRequest(p + 1, size))
         == sorted[Min(o, |sorted|)..Min(o + 2 * size, |sorted|)]
  {
    NextPageOffset(p, size);
    var n := |sorted|;
    var a, b, c := Min(o, n), Min(o + size, n), Min(o + 2 * size, n);
    ClampedOffsets(o, size, n);
    PageIsSortedSlice(rows, key, PageRequest(p, size), sorted, a, b);
    PageIsSortedSlice(rows, key, PageRequest(p + 1, size), sorted, b, c);
    AdjacentSlices(sorted, FindByKeyOrderByUtcDesc(rows, key, PageRequest(p, size)),
                   FindByKeyOrderByUtcDesc(rows, key, PageRequest(p + 1, size)), a, b, c);
  }

  /** Cutting offsets one size apart at a length n: each cut is the previous one plus the size, clamped to n. */
  lemma ClampedOffsets(o: int, size: int, n: int)
    requires o >= 0 && size >= 1 && n >= 0
    ensures Min(Min(o, n) + size, n) == Min(o + size, n)
    ensures Min(Min(o + size, n) + size, n) == Min(o + 2 * size, n)
    ensures Min(o, n) <= Min(o + size, n) <= Min(o + 2 * size, n) <= n
  {
  }

  /** Two adjacent slices of a sequence join into the slice that spans both. */
  lemma AdjacentSlices<T>(s: seq<T>, first: seq<T>, second: seq<T>, a: int, b: int, c: int)
    requires 0 <= a <= b <= c <= |s|
    requires first == s[a..b] && second == s[b..c]
    ensures first + second == s[a..c]
  {
    assert s[a..b] + s[b..c] == s[a..c];
  }

  /**
   * When a key's rows were written with increasing timestamps, its first page of size k is the
   * last k rows in reverse: what the in-memory journal returns for the key, newest first.
   */
  lemma FirstPageIsReversedTail(rows: seq<JpaAuthenticationData>, key: string, k: int)
    requires k >= 1
    requires StrictlyIncreasingUtc(WithKey(rows, key))
    ensures FindByKeyOrderByUtcDesc(rows, key, PageRequest(0, k)) == Reverse(TakeRight(WithKey(rows, key), k))
  {
    var w := WithKey(rows, key);
    SortOfIncreasingIsReverse(w);
    FirstPageIsSortedPrefix(rows, key, k);
    ReversedPrefixIsReversedTail(w, k);
  }

  /**
   * Three successes of a principal with no earlier rows, at increasing times, then a read with
   * limit 2: the two later entries come back, the newest first.
   */
  method ThreeSuccessesThenRead(writer: SuccessAuthenticationJournalWriter, reader: SuccessAuthenticationJournalReader,
                                p: Principal, t1: int, t2: int, t3: int)
    returns (read: Completion<seq<AuthenticationLogEntry>, Fault>)
    requires reader.journal == writer.journal
    requires WithKey(writer.journal.rows, p.Name()) == []
    requires t1 < t2 < t3
    modifies writer.journal
    ensures read == Normal([SuccessEntry(p, t3), SuccessEntry(p, t2)])
  {
    var rows0 := writer.journal.rows;
    var _ := writer.Success(Some(p), t1);
    var _ := writer.Success(Some(p), t2);
    var _ := writer.Success(Some(p), t3);
    ReaderSeesThreeRows(reader, rows0, p, t1, t2, t3);
    read := reader.SuccessfulAttempts(Some(p), 2);
  }

  lemma ReaderSeesThreeRows(reader: SuccessAuthenticationJournalReader, rows: seq<JpaAuthenticationData>,
                            p: Principal, t1: int, t2: int, t3: int)
    requires WithKey(rows, p.Name()) == [] && t1 < t2 < t3
    requires reader.journal.rows
          == rows + [JpaAuthenticationData(p.Name(), t1)] + [JpaAuthenticationData(p.Name(), t2)] + [JpaAuthenticationData(p.Name(), t3)]
    ensures reader.SuccessfulAttempts(Some(p), 2) == Normal([SuccessEntry(p, t3), SuccessEntry(p, t2)])
  {
    ThreeRowsFirstPage(rows, p.Name(), t1, t2, t3);
    ReadIsFirstPage(reader, p, 2);
    EntriesOfTwo(p, JpaAuthenticationData(p.Name(), t3), JpaAuthenticationData(p.Name(), t2));
  }

  lemma EntriesOfTwo(p: Principal, a: JpaAuthenticationData, b: JpaAuthenticationData)
    ensures EntriesOf(p, [a, b]) == [SuccessEntry(p, a.utc), SuccessEntry(p, b.utc)]
  {
  }

  /** A read with a positive limit is the first page of that size, as entries. */
  lemma ReadIsFirstPage(reader: SuccessAuthenticationJournalReader, p: Principal, limit: int)
    requires limit >= 1
    ensures reader.SuccessfulAttempts(Some(p), limit)
         == Normal(EntriesOf(p, FindByKeyOrderByUtcDesc(reader.journal.rows, p.Name(), PageRequest(0, limit))))
  {
  }

  lemma {:induction false} ThreeRowsFirstPage(rows: seq<JpaAuthenticationData>, key: string, t1: int, t2: int, t3: int)
    requires WithKey(rows, key) == [] && t1 < t2 < t3
    ensures FindByKeyOrderByUtcDesc(
              rows + [JpaAuthenticationData(key, t1)] + [JpaAuthenticationData(key, t2)] + [JpaAuthenticationData(key, t3)],
              key, PageRequest(0, 2))
         == [JpaAuthenticationData(key, t3), JpaAuthenticationData(key, t2)]
  {
    var d1, d2, d3 := JpaAuthenticationData(key, t1), JpaAuthenticationData(key, t2), JpaAuthenticationData(key, t3);
    ThreeRowsWithKey(rows, key, d1, d2, d3);
    FirstPageIsReversedTail(rows + [d1] + [d2] + [d3], key, 2);
    LastTwoReversed(d1, d2, d3);
  }

  lemma {:induction false} ThreeRowsWithKey(rows: seq<JpaAuthenticationData>, key: string, d1: JpaAuthenticationData, d2: JpaAuthenticationData, d3: JpaAuthenticationData)
    requires WithKey(rows, key) == [] && d1.key == key && d2.key == key && d3.key == key
    ensures WithKey(rows + [d1] + [d2] + [d3], key) == [d1, d2, d3]
  {
    ThreeAppended(d1, d2, d3);
    AppendOwnRow(rows, d1, key, []);
    AppendOwnRow(rows + [d1], d2, key, [d1]);
    AppendOwnRow(rows + [d1] + [d2], d3, key, [d1, d2]);
  }

  lemma ThreeAppended<T>(a: T, b: T, c: T)
    ensures [] + [a] == [a] && [a] + [b] == [a, b] && [a, b] + [c] == [a, b, c]
  {
  }

  lemma {:induction false} AppendOwnRow(rows: seq<JpaAuthenticationData>, d: JpaAuthenticationData, key: string, before: seq<JpaAuthenticationData>)
    requires WithKey(rows, key) == before && d.key == key
    ensures WithKey(rows + [d], key) == before + [d]
  {
    WithKeyAppend(rows, d, key);
  }
}
