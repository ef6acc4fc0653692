/** The system logs route: filtered, newest-first, paged listing of the
    audit log; appending an entry; and clearing entries older than a number
    of days. */
module SystemLogsApi {
  import opened Common
  import opened Text
  import opened Calendar
  import opened SystemLogModel
  import opened Store

  const DefaultLimit := 100
  const DefaultPage := 1
  const DefaultRetentionDays := 30

  // ---------------------------------------------------------------------
  // GET

  /** The query parameters: texts are None when missing or empty, the dates
      are the instants they parse to. */
  datatype LogFilter = LogFilter(
    userType: Option<string>,
    action: Option<string>,
    severity: Option<string>,
    startDate: Option<Time>,
    endDate: Option<Time>)

  /** ASCII case folding, as the `i` option applies it to letters. */
  function Lower(c: char): char {
    if 'A' <= c <= 'Z' then (c as int + 32) as char else c
  }

  /** Whether `p` occurs in `s` at position `i`, ignoring case. */
  predicate MatchesAt(s: string, p: string, i: int) {
    0 <= i && i + |p| <= |s| && forall k :: 0 <= k < |p| ==> Lower(s[i + k]) == Lower(p[k])
  }

  /** `{ $regex: p, $options: 'i' }` for a pattern without metacharacters. */
  predicate ContainsIgnoringCase(s: string, p: string) {
    exists i :: 0 <= i <= |s| - |p| && MatchesAt(s, p, i)
  }

  predicate LogMatches(f: LogFilter, l: SystemLog) {
    (f.userType.None? || UserTypeName(l.userType) == f.userType.value) &&
    (f.action.None? || ContainsIgnoringCase(l.action, f.action.value)) &&
    (f.severity.None? || SeverityName(l.severity) == f.severity.value) &&
    (f.startDate.None? || f.startDate.value <= l.createdAt) &&
    (f.endDate.None? || l.createdAt <= f.endDate.value)
  }

  predicate NewerOrSame(a: SystemLog, b: SystemLog) {
    a.createdAt >= b.createdAt
  }

  /** `.skip(skip).limit(limit)`: a limit of 0 means no limit and a negative
      limit takes as many as its magnitude. */
  function Window<T>(s: seq<T>, skip: nat, limit: int): (r: seq<T>)
    ensures |r| <= |s|
  {
    var rest := if skip <= |s| then s[skip..] else [];
    var k := if limit == 0 then |rest| else if limit < 0 then -limit else limit;
    if k <= |rest| then rest[..k] else rest
  }

  /** `Math.ceil(total / limit)` as JSON shows it: null when the limit is 0
      (division by zero gives Infinity or NaN). */
  function TotalPages(total: nat, limit: int): Option<int> {
    if limit == 0 then None
    else if limit > 0 then Some((total + limit - 1) / limit)
    else Some(-(total / -limit))
  }

  datatype Pagination = Pagination(page: int, limit: int, total: nat, totalPages: Option<int>)

  datatype LogPage = LogPage(logs: seq<SystemLog>, pagination: Pagination)

  /** The GET handler; `limit` and `page` are None when the parameter is
      missing or empty. A negative skip is refused by the database. */
  function ListLogs(m: map<Id, SystemLog>, n: nat, f: LogFilter, limit: Option<int>, page: Option<int>)
    : Response<LogPage>
  {
    var lim := limit.GetOr(DefaultLimit);
    var pg := page.GetOr(DefaultPage);
    var skip := (pg - 1) * lim;
    if skip < 0 then Fail(500, "Failed to fetch system logs")
    else
      var all := Query(m, n, (l: SystemLog) => LogMatches(f, l), NewerOrSame);
      Ok(LogPage(Window(all, skip, lim), Pagination(pg, lim, |all|, TotalPages(|all|, lim))))
  }

  /** The pages are newest first and hold only matching logs; `total`
      counts every matching log, on whichever page. A page is refused
      exactly when its skip is negative; otherwise it is the slice of the
      full newest-first listing that starts at the skip and holds at most
      the limit's magnitude of logs (all the rest for a limit of 0), and it
      is empty past the end. */
  lemma {:induction false} ListLogsSpec(m: map<Id, SystemLog>, n: nat, f: LogFilter, limit: Option<int>,
                                        page: Option<int>)
    ensures var r := ListLogs(m, n, f, limit, page);
            r.Ok? ==>
              SortedBy(r.value.logs, NewerOrSame) &&
              (forall l :: l in r.value.logs ==> LogMatches(f, l) && exists j :: j < n && j in m && m[j] == l) &&
              r.value.pagination.total == |Select(m, n, (l: SystemLog) => LogMatches(f, l))|
    ensures var r := ListLogs(m, n, f, limit, page);
            var lim := limit.GetOr(DefaultLimit);
            var skip := (page.GetOr(DefaultPage) - 1) * lim;
            var all := Query(m, n, (l: SystemLog) => LogMatches(f, l), NewerOrSame);
            var size := if lim == 0 then |all| else if lim < 0 then -lim else lim;
            (r.Ok? <==> skip >= 0) &&
            (r.Ok? && lim != 0 ==> |r.value.logs| <= size) &&
            (r.Ok? && skip <= |all| ==>
               r.value.logs == all[skip..if skip + size <= |all| then skip + size else |all|]) &&
            (r.Ok? && skip >= |all| ==> r.value.logs == [])
  {
    ListedLogsMatch(m, n, f, limit, page);
    var lim := limit.GetOr(DefaultLimit);
    var skip := (page.GetOr(DefaultPage) - 1) * lim;
    if skip >= 0 {
      WindowSlice(Query(m, n, (l: SystemLog) => LogMatches(f, l), NewerOrSame), skip, lim);
    }
  }

  lemma {:induction false} ListedLogsMatch(m: map<Id, SystemLog>, n: nat, f: LogFilter, limit: Option<int>,
                                           page: Option<int>)
    ensures var r := ListLogs(m, n, f, limit, page);
            r.Ok? ==>
              SortedBy(r.value.logs, NewerOrSame) &&
              (forall l :: l in r.value.logs ==> LogMatches(f, l) && exists j :: j < n && j in m && m[j] == l) &&
              r.value.pagination.total == |Select(m, n, (l: SystemLog) => LogMatches(f, l))|
  {
    var all := Query(m, n, (l: SystemLog) => LogMatches(f, l), NewerOrSame);
    QuerySpec(m, n, (l: SystemLog) => LogMatches(f, l), NewerOrSame);
    assert |all| == |multiset(all)|;
    var r := ListLogs(m, n, f, limit, page);
    if r.Ok? {
      var lim := limit.GetOr(DefaultLimit);
      var skip := (page.GetOr(DefaultPage) - 1) * lim;
      WindowSorted(all, skip, lim, NewerOrSame);
    }
  }

  /** `.skip(skip).limit(limit)` takes the slice starting at the skip, at
      most the limit's magnitude long (the whole rest for 0), and nothing
      past the end. */
  lemma WindowSlice<T>(s: seq<T>, skip: nat, limit: int)
    ensures var w := Window(s, skip, limit);
            var size := if limit == 0 then |s| else if limit < 0 then -limit else limit;
            (limit != 0 ==> |w| <= size) &&
            (skip <= |s| ==> w == s[skip..if skip + size <= |s| then skip + size else |s|]) &&
            (skip >= |s| ==> w == [])
  {
  }

  lemma {:induction false} WindowSorted<T>(s: seq<T>, skip: nat, limit: int, le: (T, T) -> bool)
    requires SortedBy(s, le)
    ensures SortedBy(Window(s, skip, limit), le)
    ensures forall x :: x in Window(s, skip, limit) ==> x in s
  {
    var w := Window(s, skip, limit);
    if skip <= |s| {
      var k := if limit == 0 then |s| - skip else if limit < 0 then -limit else limit;
      assert w == s[skip..skip + (if k <= |s| - skip then k else |s| - skip)];
    }
  }

  /** With a positive limit, `totalPages` pages are just enough: they hold
      every log and the last one is not empty. */
  lemma TotalPagesBounds(total: nat, limit: int)
    requires limit > 0
    ensures var p := TotalPages(total, limit).value;
            p >= 0 && total <= p * limit && (total > 0 ==> (p - 1) * limit < total)
  {
    var p := (total + limit - 1) / limit;
    var q, r := (total + limit - 1) / limit, (total + limit - 1) % limit;
    assert total + limit - 1 == q * limit + r && 0 <= r < limit;
  }

  /** Page arithmetic: position `i` lies on page `i / limit + 1`, whose skip
      is at most `i`, within one page of it, and that page is not past the
      last. */
  lemma PageOfIndex(total: nat, limit: int, i: int)
    requires limit > 0 && 0 <= i < total
    ensures var skip := (i / limit + 1 - 1) * limit;
            0 <= skip <= i && i - skip == i % limit < limit &&
            i / limit + 1 <= TotalPages(total, limit).value
  {
    var q := i / limit;
    assert i == q * limit + i % limit;
    TotalPagesBounds(total, limit);
  }

  lemma WindowAt<T>(s: seq<T>, skip: nat, limit: int, i: int)
    requires limit > 0 && skip <= i < |s| && i - skip < limit
    ensures i - skip < |Window(s, skip, limit)| && Window(s, skip, limit)[i - skip] == s[i]
  {
  }

  /** With a positive limit, the log at position `i` of the full listing is
      at position `i % limit` of page `i / limit + 1`, which is not past the
      last page. */
  lemma {:induction false} EveryLogOnItsPage(m: map<Id, SystemLog>, n: nat, f: LogFilter, limit: int, i: int)
    requires limit > 0
    requires 0 <= i < |Query(m, n, (l: SystemLog) => LogMatches(f, l), NewerOrSame)|
    ensures var all := Query(m, n, (l: SystemLog) => LogMatches(f, l), NewerOrSame);
            var r := ListLogs(m, n, f, Some(limit), Some(i / limit + 1));
            r.Ok? && i % limit < |r.value.logs| && r.value.logs[i % limit] == all[i] &&
            i / limit + 1 <= r.value.pagination.totalPages.value
  {
    var all := Query(m, n, (l: SystemLog) => LogMatches(f, l), NewerOrSame);
    PageOfIndex(|all|, limit, i);
    WindowAt(all, (i / limit + 1 - 1) * limit, limit, i);
  }

  /** A page number below 1 with a positive limit is refused. */
  lemma NonPositivePageRefused(m: map<Id, SystemLog>, n: nat, f: LogFilter, limit: int, page: int)
    requires limit > 0 && page <= 0
    ensures ListLogs(m, n, f, Some(limit), Some(page)) == Fail(500, "Failed to fetch system logs")
  {
    NegativeSkip(page - 1, limit);
  }

  lemma NegativeSkip(p: int, limit: int)
    requires p < 0 < limit
    ensures p * limit < 0
  {
    assert p * limit <= p;
  }

  /** A limit of 0 lists every matching log on page 1 and reports no page
      count. */
  lemma {:induction false} ZeroLimitListsAll(m: map<Id, SystemLog>, n: nat, f: LogFilter)
    ensures var r := ListLogs(m, n, f, Some(0), None);
            r.Ok? && r.value.logs == Query(m, n, (l: SystemLog) => LogMatches(f, l), NewerOrSame) &&
            r.value.pagination.totalPages.None?
  {
    var all := Query(m, n, (l: SystemLog) => LogMatches(f, l), NewerOrSame);
    assert all[0..] == all;
  }

  // ---------------------------------------------------------------------
  // POST

  /** The POST handler: the body is the new entry; a schema violation is a 500. */
  function CreateLog(m: map<Id, SystemLog>, n: nat, b: LogFields, now: Time): Outcome<SystemLog, SystemLog> {
    var l := NewLog(b, now);
    if l.None? then Outcome(Fail(500, "Failed to create system log"), m, n)
    else Outcome(Ok(l.value), m[n := l.value], n + 1)
  }

  /** An entry is stored exactly when its type and severity are known names
      and its action and description are non-empty; it is stored under a
      fresh id and holds the body's fields as given, dated now unless the
      body gives its own `createdAt`. */
  lemma {:induction false} CreateLogSpec(m: map<Id, SystemLog>, n: nat, b: LogFields, now: Time)
    requires Below(m, n)
    ensures var o := CreateLog(m, n, b, now);
            Below(o.docs, o.nextId) &&
            (o.response.Ok? <==> b.userType.Some? && ParseUserType(b.userType.value).Some? &&
                                 b.action.GetOr("") != "" && b.description.GetOr("") != "" &&
                                 (b.severity.None? || ParseSeverity(b.severity.value).Some?)) &&
            (o.response.Fail? ==> o.docs == m && o.nextId == n) &&
            (o.response.Ok? ==> n !in m && o.docs == m[n := o.response.value] && o.nextId == n + 1 &&
                                o.response.value.createdAt == b.createdAt.GetOr(now) &&
                                BodyOf(o.response.value) ==
                                  b.(severity := Some(b.severity.GetOr("info")), createdAt := Some(b.createdAt.GetOr(now))))
  {
  }

  method CreateLogRecord(db: Db, b: LogFields, now: Time) returns (r: Response<SystemLog>)
    requires db.Valid()
    modifies db`logs, db`nextId
    ensures db.Valid()
    ensures CreateLog(old(db.logs), old(db.nextId), b, now) == Outcome(r, db.logs, db.nextId)
  {
    var l := NewLog(b, now);
    if l.None? {
      return Fail(500, "Failed to create system log");
    }
    db.logs := db.logs[db.nextId := l.value];
    db.nextId := db.nextId + 1;
    r := Ok(l.value);
  }

  // ---------------------------------------------------------------------
  // DELETE

  /** `setDate(getDate() - days)`: the same local time `days` days earlier. */
  function Cutoff(now: Time, days: int): Time {
    now - days * MsPerDay
  }

  datatype Cleared = Cleared(message: string, deleted: nat, logs: map<Id, SystemLog>)

  /** The DELETE handler: every entry created before the cutoff goes;
      `days` is None when the parameter is missing or empty. */
  function ClearLogs(m: map<Id, SystemLog>, now: Time, days: Option<int>): Cleared {
    var cutoff := Cutoff(now, days.GetOr(DefaultRetentionDays));
    var kept := map k | k in m && !(m[k].createdAt < cutoff) :: m[k];
    var count := |m.Keys - kept.Keys|;
    Cleared(NatText(count) + " logs deleted", count, kept)
  }

  /** Clearing keeps exactly the entries created at or after the cutoff,
      unchanged, counts the others in its message, and a second clearing at
      the same moment deletes nothing. */
  lemma {:induction false} ClearLogsSpec(m: map<Id, SystemLog>, now: Time, days: Option<int>)
    ensures var c := ClearLogs(m, now, days);
            var cutoff := Cutoff(now, days.GetOr(DefaultRetentionDays));
            (forall k :: k in c.logs <==> k in m && m[k].createdAt >= cutoff) &&
            (forall k :: k in c.logs ==> c.logs[k] == m[k]) &&
            c.deleted + |c.logs| == |m| &&
            c.message == NatText(c.deleted) + " logs deleted" &&
            ClearLogs(c.logs, now, days).deleted == 0 && ClearLogs(c.logs, now, days).logs == c.logs
  {
    var c := ClearLogs(m, now, days);
    CountOfRemoved(m.Keys, c.logs.Keys);
    ClearAgainKeepsAll(c.logs, now, days);
  }

  /** Removing a subset removes as many elements as it lacks. */
  lemma CountOfRemoved<K>(all: set<K>, kept: set<K>)
    requires kept <= all
    ensures |all - kept| == |all| - |kept|
  {
    assert all == (all - kept) + kept;
  }

  /** A collection that holds only entries at or after the cutoff is left
      whole by a clearing. */
  lemma {:induction false} ClearAgainKeepsAll(m: map<Id, SystemLog>, now: Time, days: Option<int>)
    requires forall k :: k in m ==> m[k].createdAt >= Cutoff(now, days.GetOr(DefaultRetentionDays))
    ensures ClearLogs(m, now, days).deleted == 0 && ClearLogs(m, now, days).logs == m
  {
    var c := ClearLogs(m, now, days);
    assert c.logs == m;
    assert m.Keys - c.logs.Keys == {};
  }

  /** A client may date its entry before the retention window: such an
      entry, though just posted, goes with the next clearing. */
  lemma {:induction false} BackdatedLogCleared(m: map<Id, SystemLog>, n: nat, b: LogFields, now: Time,
                                               days: Option<int>)
    requires Below(m, n) && CreateLog(m, n, b, now).response.Ok?
    requires b.createdAt.Some? && b.createdAt.value < Cutoff(now, days.GetOr(DefaultRetentionDays))
    ensures var o := CreateLog(m, n, b, now);
            n in o.docs && n !in ClearLogs(o.docs, now, days).logs
  {
    CreateLogSpec(m, n, b, now);
    var o := CreateLog(m, n, b, now);
    ClearLogsSpec(o.docs, now, days);
  }

  method ClearLogRecords(db: Db, now: Time, days: Option<int>) returns (message: string)
    requires db.Valid()
    modifies db`logs
    ensures db.Valid()
    ensures var c := ClearLogs(old(db.logs), now, days);
            message == c.message && db.logs == c.logs
  {
    var c := ClearLogs(db.logs, now, days);
    db.logs := c.logs;
    message := c.message;
  }
}
