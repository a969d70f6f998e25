/** The BOJ status-page readers: the `top`-cursor walker that collects the
    problems accepted in a window (get_weekly_solved_from_boj_status), its
    page-numbered variant (get_recent_solved_count), the first-accepted-row
    check for one problem (check_problem_solved_from_status and
    check_problem_solved) and the tier-filtered decision map
    (check_problems_solved_with_tier). Pages arrive already reduced to rows. */
module StatusPages {
  import opened Base
  import History

  /** The submission-time cell: missing or empty, an absolute "YYYY-MM-DD hh:mm:ss"
      (as seconds), or anything else (a relative time, a malformed date). */
  datatype RowTime = NoTime | Absolute(t: int) | Unparsed

  /** One status-table row: the submission number from the first cell if it parses as an
      integer, the text of the result cell if there is one, the time cell, and the problem
      number of the row's /problem/N link if there is one. */
  datatype Row = Row(submissionId: Option<int>, result: Option<string>, time: RowTime, problem: Option<int>)

  /** One request: it raised, or it answered with a status, whether the body is an AWS WAF
      challenge, and the rows of the status table (None when there is no table or no tbody). */
  datatype StatusFetch = Raised | Page(status: int, waf: bool, rows: Option<seq<Row>>)

  const AcceptedText: string := "맞았습니다"
  const CorrectText: string := "정답"
  const MaxStatusPages: int := 50
  const RecentPages: int := 10

  predicate Accepted(r: Row) {
    r.result.Some? && Contains(r.result.value, AcceptedText)
  }

  /** An accepted row with an absolute time inside [start, end] and a problem link: its problem is collected. */
  predicate Counted(r: Row, start: int, end: int) {
    Accepted(r) && r.time.Absolute? && start <= r.time.t <= end && r.problem.Some?
  }

  /** An accepted row with an absolute time before the window: the walker stops there. */
  predicate Older(r: Row, start: int) {
    Accepted(r) && r.time.Absolute? && r.time.t < start
  }

  /** The problems the counted rows of a page name. */
  function CountedIds(rows: seq<Row>, start: int, end: int): set<int> {
    set r | r in rows && Counted(r, start, end) :: r.problem.value
  }

  function Found(solved: seq<int>): History.WindowResult {
    History.WindowResult(|solved|, solved)
  }

  // ---------------------------------------------------------------------
  // One page of the top-cursor walker.
  // ---------------------------------------------------------------------

  /** The state of the row loop: solved problems so far (ascending), the smallest submission
      number seen on the page, whether a row was collected, and whether an older row was met. */
  datatype Scan = Scan(solved: seq<int>, lastSid: Option<int>, valid: bool, older: bool)

  function NextSid(last: Option<int>, sid: Option<int>): Option<int> {
    if sid.None? then last
    else if last.None? || sid.value < last.value then sid
    else last
  }

  function RowStep(r: Row, s: Scan, start: int, end: int): Scan {
    var sid := NextSid(s.lastSid, r.submissionId);
    if Counted(r, start, end) then s.(solved := Insert(r.problem.value, s.solved), lastSid := sid, valid := true)
    else if Older(r, start) then s.(lastSid := sid, older := true)
    else s.(lastSid := sid)
  }

  /** The row loop, which ends at the first older row. */
  function ScanFrom(rows: seq<Row>, s: Scan, start: int, end: int): Scan
    decreases |rows|
  {
    if rows == [] || s.older then s else ScanFrom(rows[1..], RowStep(rows[0], s, start, end), start, end)
  }

  /** The row loop of the walker. */
  method ScanRows(rows: seq<Row>, solved0: seq<int>, start: int, end: int) returns (s: Scan)
    ensures s == ScanFrom(rows, Scan(solved0, None, false, false), start, end)
  {
    ghost var spec := ScanFrom(rows, Scan(solved0, None, false, false), start, end);
    var solved := solved0;
    var lastSid: Option<int> := None;
    var valid := false;
    var older := false;
    var i := 0;
    while i < |rows| && !older
      invariant 0 <= i <= |rows|
      invariant ScanFrom(rows[i..], Scan(solved, lastSid, valid, older), start, end) == spec
    {
      var row := rows[i];
      assert rows[i..][1..] == rows[i + 1..];
      if row.submissionId.Some? && (lastSid.None? || row.submissionId.value < lastSid.value) {
        lastSid := row.submissionId;
      }
      if row.result.Some? && Contains(row.result.value, AcceptedText) && row.time.Absolute? {
        var t := row.time.t;
        if start <= t && t <= end {
          if row.problem.Some? {
            solved := Insert(row.problem.value, solved);
            valid := true;
          }
        } else if t < start {
          older := true;
        }
      }
      i := i + 1;
    }
    s := Scan(solved, lastSid, valid, older);
  }

  /** What one request does to the walk. */
  datatype Turn<R> = Return(result: R) | Halt(solved: seq<int>) | Retry | Advance(top: int, solved: seq<int>)

  /** One request of the walker; `fallback` is what the history diff would return. */
  function StatusStep(fetch: StatusFetch, pageCount: int, solved: seq<int>, start: int, end: int,
                      fallback: History.WindowResult): Turn<History.WindowResult>
  {
    match fetch
    case Raised => Return(History.NoResult)
    case Page(status, waf, rows) =>
      if status == 403 then (if pageCount == 0 then Return(fallback) else Halt(solved))
      else if status != 200 then Halt(solved)
      else if waf then (if pageCount == 0 then Return(fallback) else Retry)
      else if rows.None? || rows.value == [] then Halt(solved)
      else
        var s := ScanFrom(rows.value, Scan(solved, None, false, false), start, end);
        if s.older then Return(Found(s.solved))
        else if s.lastSid.None? || !s.valid then Halt(s.solved)
        else Advance(s.lastSid.value, s.solved)
  }

  method StatusPage(fetch: StatusFetch, pageCount: int, solved: seq<int>, start: int, end: int,
                    histStatus: Option<int>, histData: seq<History.RawEntry>) returns (turn: Turn<History.WindowResult>)
    ensures turn == StatusStep(fetch, pageCount, solved, start, end,
                               History.WeeklyCount(histStatus, histData, History.Naive(start), History.Naive(end)))
  {
    if fetch.Raised? {
      return Return(History.NoResult);
    }
    if fetch.status == 403 || (fetch.status == 200 && fetch.waf) {
      if pageCount == 0 {
        var fallback := History.GetWeeklySolvedCount(histStatus, histData, History.Naive(start), History.Naive(end));
        return Return(fallback);
      }
      return if fetch.status == 403 then Halt(solved) else Retry;
    }
    if fetch.status != 200 || fetch.rows.None? || fetch.rows.value == [] {
      return Halt(solved);
    }
    var s := ScanRows(fetch.rows.value, solved, start, end);
    if s.older {
      return Return(Found(s.solved));
    }
    if s.lastSid.None? || !s.valid {
      return Halt(s.solved);
    }
    return Advance(s.lastSid.value, s.solved);
  }

  // ---------------------------------------------------------------------
  // The walk. Requests are numbered from 0; a WAF page after the first repeats the
  // same cursor without counting a page, so the walk is bounded by `fuel` requests.
  // ---------------------------------------------------------------------

  datatype Outcome = Done(result: History.WindowResult) | OutOfFuel

  type StatusSite = (nat, Option<int>) -> StatusFetch

  function StatusFrom(site: StatusSite, fuel: nat, req: nat, top: Option<int>, pageCount: int, solved: seq<int>,
                      start: int, end: int, fallback: History.WindowResult): Outcome
    decreases fuel
  {
    if pageCount >= MaxStatusPages then Done(Found(solved))
    else if fuel == 0 then OutOfFuel
    else match StatusStep(site(req, top), pageCount, solved, start, end, fallback)
      case Return(r) => Done(r)
      case Halt(s) => Done(Found(s))
      case Retry => StatusFrom(site, fuel - 1, req + 1, top, pageCount, solved, start, end, fallback)
      case Advance(t, s) => StatusFrom(site, fuel - 1, req + 1, Some(t), pageCount + 1, s, start, end, fallback)
  }

  function StatusWalk(site: StatusSite, fuel: nat, start: int, end: int,
                      histStatus: Option<int>, histData: seq<History.RawEntry>): Outcome
  {
    StatusFrom(site, fuel, 0, None, 0, [], start, end,
               History.WeeklyCount(histStatus, histData, History.Naive(start), History.Naive(end)))
  }

  /** get_weekly_solved_from_boj_status, with the window bounds naive. */
  method GetWeeklySolvedFromStatus(site: StatusSite, fuel: nat, start: int, end: int,
                                   histStatus: Option<int>, histData: seq<History.RawEntry>) returns (o: Outcome)
    ensures o == StatusWalk(site, fuel, start, end, histStatus, histData)
  {
    ghost var fallback := History.WeeklyCount(histStatus, histData, History.Naive(start), History.Naive(end));
    ghost var spec := StatusWalk(site, fuel, start, end, histStatus, histData);
    var solved: seq<int> := [];
    var top: Option<int> := None;
    var pageCount := 0;
    var req: nat := 0;
    var left: nat := fuel;
    while pageCount < MaxStatusPages
      invariant StatusFrom(site, left, req, top, pageCount, solved, start, end, fallback) == spec
      decreases left
    {
      if left == 0 {
        return OutOfFuel;
      }
      var turn := StatusPage(site(req, top), pageCount, solved, start, end, histStatus, histData);
      left := left - 1;
      req := req + 1;
      match turn
      case Return(r) =>
        return Done(r);
      case Halt(s) =>
        return Done(Found(s));
      case Retry =>
      case Advance(t, s) =>
        top := Some(t);
        solved := s;
        pageCount := pageCount + 1;
    }
    return Done(Found(solved));
  }

  // ---------------------------------------------------------------------
  // Facts about the row loop.
  // ---------------------------------------------------------------------

  lemma CountedIdsCons(r: Row, rows: seq<Row>, start: int, end: int)
    ensures CountedIds([r] + rows, start, end)
         == (if Counted(r, start, end) then {r.problem.value} else {}) + CountedIds(rows, start, end)
  {
    var all := [r] + rows;
    forall p ensures p in CountedIds(all, start, end)
               <==> p in (if Counted(r, start, end) then {r.problem.value} else {}) + CountedIds(rows, start, end) {
      if p in CountedIds(all, start, end) {
        var q :| q in all && Counted(q, start, end) && q.problem.value == p;
        if q != r { assert q in rows; }
      }
      if p in CountedIds(rows, start, end) {
        var q :| q in rows && Counted(q, start, end) && q.problem.value == p;
        assert q in all;
      }
    }
  }

  /** The row loop keeps the set ascending and adds only counted problems. */
  lemma {:induction false} ScanSpec(rows: seq<Row>, s: Scan, start: int, end: int)
    requires StrictlySorted(s.solved)
    ensures StrictlySorted(ScanFrom(rows, s, start, end).solved)
    ensures Elems(ScanFrom(rows, s, start, end).solved) <= Elems(s.solved) + CountedIds(rows, start, end)
    decreases |rows|
  {
    if rows != [] && !s.older {
      var s1 := RowStep(rows[0], s, start, end);
      if Counted(rows[0], start, end) {
        InsertSpec(rows[0].problem.value, s.solved);
      }
      ScanSpec(rows[1..], s1, start, end);
      assert rows == [rows[0]] + rows[1..];
      CountedIdsCons(rows[0], rows[1..], start, end);
    }
  }

  /** On a page without an older row the loop adds every counted problem and reports
      whether there was one. */
  lemma {:induction false} ScanExact(rows: seq<Row>, s: Scan, start: int, end: int)
    requires StrictlySorted(s.solved) && !s.older
    requires forall k :: 0 <= k < |rows| ==> !Older(rows[k], start)
    ensures Elems(ScanFrom(rows, s, start, end).solved) == Elems(s.solved) + CountedIds(rows, start, end)
    ensures !ScanFrom(rows, s, start, end).older
    ensures ScanFrom(rows, s, start, end).valid <==> s.valid || CountedIds(rows, start, end) != {}
    decreases |rows|
  {
    if rows == [] {
      assert CountedIds(rows, start, end) == {};
    } else {
      var s1 := RowStep(rows[0], s, start, end);
      assert !Older(rows[0], start);
      if Counted(rows[0], start, end) {
        InsertSpec(rows[0].problem.value, s.solved);
      }
      forall k | 0 <= k < |rows[1..]| ensures !Older(rows[1..][k], start) {
        assert rows[1..][k] == rows[k + 1];
      }
      ScanExact(rows[1..], s1, start, end);
      assert rows == [rows[0]] + rows[1..];
      CountedIdsCons(rows[0], rows[1..], start, end);
    }
  }

  /** The row loop ends at an older row: nothing after it on the page is read. */
  lemma {:induction false} ScanStopsAtOlder(rows: seq<Row>, s: Scan, start: int, end: int, k: nat)
    requires k < |rows| && Older(rows[k], start)
    ensures ScanFrom(rows, s, start, end) == ScanFrom(rows[..k + 1], s, start, end)
    ensures ScanFrom(rows, s, start, end).older
    decreases k
  {
    if !s.older {
      var s1 := RowStep(rows[0], s, start, end);
      if k == 0 {
        assert s1.older;
      } else {
        assert rows[..k + 1][1..] == rows[1..][..k];
        ScanStopsAtOlder(rows[1..], s1, start, end, k - 1);
      }
    }
  }

  /** A page none of whose rows is counted cannot let the walk go on. */
  lemma ScanWithoutCountedRow(rows: seq<Row>, solved: seq<int>, start: int, end: int)
    requires StrictlySorted(solved)
    requires forall k :: 0 <= k < |rows| ==> !Counted(rows[k], start, end)
    ensures ScanFrom(rows, Scan(solved, None, false, false), start, end).solved == solved
    ensures !ScanFrom(rows, Scan(solved, None, false, false), start, end).valid
  {
    ScanNoCounted(rows, Scan(solved, None, false, false), start, end);
  }

  lemma {:induction false} ScanNoCounted(rows: seq<Row>, s: Scan, start: int, end: int)
    requires forall k :: 0 <= k < |rows| ==> !Counted(rows[k], start, end)
    ensures ScanFrom(rows, s, start, end).solved == s.solved
    ensures ScanFrom(rows, s, start, end).valid == s.valid
    decreases |rows|
  {
    if rows != [] && !s.older {
      assert !Counted(rows[0], start, end);
      ScanNoCounted(rows[1..], RowStep(rows[0], s, start, end), start, end);
    }
  }

  // ---------------------------------------------------------------------
  // Facts about the walk.
  // ---------------------------------------------------------------------

  /** Every row a fetched page could count names a problem in E. */
  ghost predicate CountedWithin(site: StatusSite, start: int, end: int, e: set<int>) {
    forall req, top :: site(req, top).Page? && site(req, top).rows.Some? ==>
      CountedIds(site(req, top).rows.value, start, end) <= e
  }

  /** A finished walk returns the history-diff result, or a count equal to the number of
      problems listed, ascending, each from an accepted row inside the window. */
  lemma {:induction false} StatusFromSound(site: StatusSite, fuel: nat, req: nat, top: Option<int>, pageCount: int,
                                           solved: seq<int>, start: int, end: int, fallback: History.WindowResult, e: set<int>)
    requires StrictlySorted(solved) && Elems(solved) <= e
    requires CountedWithin(site, start, end, e)
    ensures StatusFrom(site, fuel, req, top, pageCount, solved, start, end, fallback).Done? ==>
      var r := StatusFrom(site, fuel, req, top, pageCount, solved, start, end, fallback).result;
      r == fallback || (r.count == |r.problems| && StrictlySorted(r.problems) && Elems(r.problems) <= e)
    decreases fuel
  {
    if pageCount < MaxStatusPages && fuel > 0 {
      var fetch := site(req, top);
      if fetch.Page? && fetch.status == 200 && !fetch.waf && fetch.rows.Some? && fetch.rows.value != [] {
        ScanSpec(fetch.rows.value, Scan(solved, None, false, false), start, end);
      }
      match StatusStep(fetch, pageCount, solved, start, end, fallback)
      case Return(r) =>
      case Halt(s) =>
      case Retry =>
        StatusFromSound(site, fuel - 1, req + 1, top, pageCount, solved, start, end, fallback, e);
      case Advance(t, s) =>
        StatusFromSound(site, fuel - 1, req + 1, Some(t), pageCount + 1, s, start, end, fallback, e);
    }
  }

  lemma StatusWalkSound(site: StatusSite, fuel: nat, start: int, end: int,
                        histStatus: Option<int>, histData: seq<History.RawEntry>, e: set<int>)
    requires CountedWithin(site, start, end, e)
    ensures StatusWalk(site, fuel, start, end, histStatus, histData).Done? ==>
      var r := StatusWalk(site, fuel, start, end, histStatus, histData).result;
      r == History.WeeklyCount(histStatus, histData, History.Naive(start), History.Naive(end))
      || (r.count == |r.problems| && StrictlySorted(r.problems) && Elems(r.problems) <= e)
  {
    StatusFromSound(site, fuel, 0, None, 0, [], start, end,
                    History.WeeklyCount(histStatus, histData, History.Naive(start), History.Naive(end)), e);
  }

  /** A 403 or a WAF challenge on the first request hands over to the history diff; a first
      request that raises gives {0, []}. */
  lemma FirstRequestFallback(site: StatusSite, fuel: nat, start: int, end: int,
                             histStatus: Option<int>, histData: seq<History.RawEntry>)
    requires fuel > 0
    ensures site(0, None).Page? && (site(0, None).status == 403 || (site(0, None).status == 200 && site(0, None).waf)) ==>
      StatusWalk(site, fuel, start, end, histStatus, histData)
        == Done(History.WeeklyCount(histStatus, histData, History.Naive(start), History.Naive(end)))
    ensures site(0, None).Raised? ==> StatusWalk(site, fuel, start, end, histStatus, histData) == Done(History.NoResult)
  {
  }

  /** A first page whose accepted row at index k is older than the window ends the walk with
      what the rows up to k collected; the cursor and any later page play no part. */
  lemma OlderRowEndsWalk(site: StatusSite, fuel: nat, start: int, end: int,
                         histStatus: Option<int>, histData: seq<History.RawEntry>, rows: seq<Row>, k: nat)
    requires fuel > 0
    requires site(0, None) == Page(200, false, Some(rows))
    requires k < |rows| && Older(rows[k], start)
    ensures StatusWalk(site, fuel, start, end, histStatus, histData)
         == Done(Found(ScanFrom(rows[..k + 1], Scan([], None, false, false), start, end).solved))
  {
    ScanStopsAtOlder(rows, Scan([], None, false, false), start, end, k);
  }

  /** A page without a counted row ends the walk with what was collected before it. */
  lemma PageWithoutCountedRowEndsWalk(fetch: StatusFetch, pageCount: int, solved: seq<int>, start: int, end: int,
                                      fallback: History.WindowResult, rows: seq<Row>)
    requires StrictlySorted(solved)
    requires fetch == Page(200, false, Some(rows))
    requires forall k :: 0 <= k < |rows| ==> !Counted(rows[k], start, end)
    ensures StatusStep(fetch, pageCount, solved, start, end, fallback) == Halt(solved)
         || StatusStep(fetch, pageCount, solved, start, end, fallback) == Return(Found(solved))
  {
    if rows != [] {
      ScanWithoutCountedRow(rows, solved, start, end);
    }
  }

  /** A 403 or another non-200 answer on a later page ends the walk with what was collected. */
  lemma LaterFailureHalts(fetch: StatusFetch, pageCount: int, solved: seq<int>, start: int, end: int,
                          fallback: History.WindowResult)
    requires pageCount > 0
    requires fetch.Page? && fetch.status != 200
    ensures StatusStep(fetch, pageCount, solved, start, end, fallback) == Halt(solved)
  {
  }

  /** A WAF challenge on a later page repeats the request with the same cursor and count. */
  lemma LaterWafRepeats(site: StatusSite, fuel: nat, req: nat, top: Option<int>, pageCount: int, solved: seq<int>,
                        start: int, end: int, fallback: History.WindowResult)
    requires 0 < pageCount < MaxStatusPages && fuel > 0
    requires site(req, top).Page? && site(req, top).status == 200 && site(req, top).waf
    ensures StatusFrom(site, fuel, req, top, pageCount, solved, start, end, fallback)
         == StatusFrom(site, fuel - 1, req + 1, top, pageCount, solved, start, end, fallback)
  {
  }

  /** More fuel never changes a finished walk. */
  lemma {:induction false} StatusFuelMonotone(site: StatusSite, fuel: nat, more: nat, req: nat, top: Option<int>,
                                              pageCount: int, solved: seq<int>, start: int, end: int,
                                              fallback: History.WindowResult)
    requires fuel <= more
    requires StatusFrom(site, fuel, req, top, pageCount, solved, start, end, fallback).Done?
    ensures StatusFrom(site, more, req, top, pageCount, solved, start, end, fallback)
         == StatusFrom(site, fuel, req, top, pageCount, solved, start, end, fallback)
    decreases fuel
  {
    if pageCount < MaxStatusPages {
      match StatusStep(site(req, top), pageCount, solved, start, end, fallback)
      case Return(r) =>
      case Halt(s) =>
      case Retry =>
        StatusFuelMonotone(site, fuel - 1, more - 1, req + 1, top, pageCount, solved, start, end, fallback);
      case Advance(t, s) =>
        StatusFuelMonotone(site, fuel - 1, more - 1, req + 1, Some(t), pageCount + 1, s, start, end, fallback);
    }
  }

  ghost predicate NoLaterWaf(site: StatusSite) {
    forall req, top :: req > 0 && site(req, top).Page? ==> !site(req, top).waf
  }

  /** Without WAF challenges after the first request each request either ends the walk or
      counts a page, so 50 requests always finish it. */
  lemma {:induction false} StatusFinishes(site: StatusSite, fuel: nat, req: nat, top: Option<int>, pageCount: int,
                                          solved: seq<int>, start: int, end: int, fallback: History.WindowResult)
    requires NoLaterWaf(site)
    requires 0 <= pageCount <= req && fuel + pageCount >= MaxStatusPages
    ensures StatusFrom(site, fuel, req, top, pageCount, solved, start, end, fallback).Done?
    decreases fuel
  {
    if pageCount < MaxStatusPages {
      match StatusStep(site(req, top), pageCount, solved, start, end, fallback)
      case Return(r) =>
      case Halt(s) =>
      case Retry =>
        assert false;
      case Advance(t, s) =>
        StatusFinishes(site, fuel - 1, req + 1, Some(t), pageCount + 1, s, start, end, fallback);
    }
  }

  lemma StatusWalkFinishes(site: StatusSite, start: int, end: int, histStatus: Option<int>, histData: seq<History.RawEntry>)
    requires NoLaterWaf(site)
    ensures StatusWalk(site, MaxStatusPages, start, end, histStatus, histData).Done?
  {
    StatusFinishes(site, MaxStatusPages, 0, None, 0, [], start, end,
                   History.WeeklyCount(histStatus, histData, History.Naive(start), History.Naive(end)));
  }

  /** Both window ends are inclusive and compared as given, with no zone shift. */
  lemma WindowInclusive(r: Row, start: int, end: int)
    requires Accepted(r) && r.problem.Some?
    requires start <= end
    ensures r.time == Absolute(start) ==> Counted(r, start, end)
    ensures r.time == Absolute(end) ==> Counted(r, start, end)
    ensures r.time == Absolute(start - 1) ==> Older(r, start) && !Counted(r, start, end)
    ensures r.time == Absolute(end + 1) ==> !Counted(r, start, end) && !Older(r, start)
  {
  }

  // ---------------------------------------------------------------------
  // get_recent_solved_count: pages 1..10 by number, no cursor, no early
  // stop at older rows, and a bare count.
  // ---------------------------------------------------------------------

  type PageSite = int -> StatusFetch

  /** The row loop of the page-numbered variant: every counted problem is added. */
  function RecentScan(rows: seq<Row>, solved: seq<int>, valid: bool, start: int, end: int): (seq<int>, bool)
    decreases |rows|
  {
    if rows == [] then (solved, valid)
    else if Counted(rows[0], start, end) then RecentScan(rows[1..], Insert(rows[0].problem.value, solved), true, start, end)
    else RecentScan(rows[1..], solved, valid, start, end)
  }

  function RecentFrom(site: PageSite, page: int, solved: seq<int>, start: int, end: int): Option<seq<int>>
    decreases RecentPages + 1 - page
  {
    if page > RecentPages then Some(solved)
    else match site(page)
      case Raised => None
      case Page(status, _, rows) =>
        if status != 200 || rows.None? || rows.value == [] then Some(solved)
        else
          var (s, valid) := RecentScan(rows.value, solved, false, start, end);
          if !valid then Some(s) else RecentFrom(site, page + 1, s, start, end)
  }

  /** The whole function: the number of problems collected, or 0 when a request raised. */
  function RecentCount(site: PageSite, start: int, end: int): int {
    match RecentFrom(site, 1, [], start, end)
    case None => 0
    case Some(s) => |s|
  }

  method RecentPage(rows: seq<Row>, solved0: seq<int>, start: int, end: int) returns (solved: seq<int>, valid: bool)
    ensures (solved, valid) == RecentScan(rows, solved0, false, start, end)
  {
    solved := solved0;
    valid := false;
    var i := 0;
    while i < |rows|
      invariant 0 <= i <= |rows|
      invariant RecentScan(rows[i..], solved, valid, start, end) == RecentScan(rows, solved0, false, start, end)
    {
      var row := rows[i];
      assert rows[i..][1..] == rows[i + 1..];
      if row.result.Some? && Contains(row.result.value, AcceptedText) && row.time.Absolute? {
        var t := row.time.t;
        if start <= t && t <= end && row.problem.Some? {
          solved := Insert(row.problem.value, solved);
          valid := true;
        }
      }
      i := i + 1;
    }
  }

  /** get_recent_solved_count. */
  method GetRecentSolvedCount(site: PageSite, start: int, end: int) returns (n: int)
    ensures n == RecentCount(site, start, end)
  {
    ghost var spec := RecentFrom(site, 1, [], start, end);
    var solved: seq<int> := [];
    var page := 1;
    while page <= RecentPages
      invariant RecentFrom(site, page, solved, start, end) == spec
      decreases RecentPages + 1 - page
    {
      var fetch := site(page);
      if fetch.Raised? {
        return 0;
      }
      if fetch.status != 200 || fetch.rows.None? || fetch.rows.value == [] {
        break;
      }
      var valid;
      solved, valid := RecentPage(fetch.rows.value, solved, start, end);
      if !valid {
        break;
      }
      page := page + 1;
    }
    return |solved|;
  }

  /** One page of the variant collects exactly its counted problems, and goes on exactly
      when there was one. */
  lemma {:induction false} RecentScanExact(rows: seq<Row>, solved: seq<int>, valid: bool, start: int, end: int)
    requires StrictlySorted(solved)
    ensures StrictlySorted(RecentScan(rows, solved, valid, start, end).0)
    ensures Elems(RecentScan(rows, solved, valid, start, end).0) == Elems(solved) + CountedIds(rows, start, end)
    ensures RecentScan(rows, solved, valid, start, end).1 <==> valid || CountedIds(rows, start, end) != {}
    decreases |rows|
  {
    if rows == [] {
      assert CountedIds(rows, start, end) == {};
    } else {
      if Counted(rows[0], start, end) {
        InsertSpec(rows[0].problem.value, solved);
        RecentScanExact(rows[1..], Insert(rows[0].problem.value, solved), true, start, end);
      } else {
        RecentScanExact(rows[1..], solved, valid, start, end);
      }
      assert rows == [rows[0]] + rows[1..];
      CountedIdsCons(rows[0], rows[1..], start, end);
    }
  }

  ghost predicate PagesCountedWithin(site: PageSite, start: int, end: int, e: set<int>) {
    forall page :: site(page).Page? && site(page).rows.Some? ==> CountedIds(site(page).rows.value, start, end) <= e
  }

  /** The variant's problems are distinct and all come from counted rows. */
  lemma {:induction false} RecentFromSound(site: PageSite, page: int, solved: seq<int>, start: int, end: int, e: set<int>)
    requires StrictlySorted(solved) && Elems(solved) <= e
    requires PagesCountedWithin(site, start, end, e)
    ensures RecentFrom(site, page, solved, start, end).Some? ==>
      StrictlySorted(RecentFrom(site, page, solved, start, end).value) && Elems(RecentFrom(site, page, solved, start, end).value) <= e
    decreases RecentPages + 1 - page
  {
    if page <= RecentPages {
      var fetch := site(page);
      if fetch.Page? && fetch.status == 200 && fetch.rows.Some? && fetch.rows.value != [] {
        RecentScanExact(fetch.rows.value, solved, false, start, end);
        var (s, valid) := RecentScan(fetch.rows.value, solved, false, start, end);
        if valid {
          RecentFromSound(site, page + 1, s, start, end, e);
        }
      }
    }
  }

  lemma RecentCountSound(site: PageSite, start: int, end: int, e: set<int>)
    requires PagesCountedWithin(site, start, end, e)
    ensures RecentCount(site, start, end) >= 0
    ensures RecentFrom(site, 1, [], start, end).Some? ==>
      var s := RecentFrom(site, 1, [], start, end).value;
      RecentCount(site, start, end) == |s| && StrictlySorted(s) && Elems(s) <= e
  {
    RecentFromSound(site, 1, [], start, end, e);
  }

  /** Only pages 1 to 10 are ever read. */
  lemma {:induction false} RecentReadsTenPages(a: PageSite, b: PageSite, page: int, solved: seq<int>, start: int, end: int)
    requires forall p :: page <= p <= RecentPages ==> a(p) == b(p)
    ensures RecentFrom(a, page, solved, start, end) == RecentFrom(b, page, solved, start, end)
    decreases RecentPages + 1 - page
  {
    if page <= RecentPages {
      assert a(page) == b(page);
      match a(page)
      case Raised =>
      case Page(status, _, rows) =>
        if !(status != 200 || rows.None? || rows.value == []) {
          var (s, valid) := RecentScan(rows.value, solved, false, start, end);
          if valid {
            RecentReadsTenPages(a, b, page + 1, s, start, end);
          }
        }
    }
  }

  // ---------------------------------------------------------------------
  // check_problem_solved_from_status and check_problem_solved.
  // ---------------------------------------------------------------------

  /** The result texts the one-problem check takes as solved. */
  predicate ShowsSolved(r: Row) {
    r.result.Some? && (Contains(r.result.value, AcceptedText) || Contains(r.result.value, CorrectText))
  }

  /** Index of the first row that shows a solve, |rows| when none does. */
  function FirstSolved(rows: seq<Row>): (k: nat)
    ensures k <= |rows|
    ensures k < |rows| ==> ShowsSolved(rows[k])
    ensures forall j :: 0 <= j < k ==> !ShowsSolved(rows[j])
  {
    if rows == [] then 0
    else if ShowsSolved(rows[0]) then 0
    else 1 + FirstSolved(rows[1..])
  }

  /** submitted_at: no time cell gives None, an absolute time itself, and anything else "now". */
  function SubmittedAt(t: RowTime, now: int): Option<int> {
    match t
    case NoTime => None
    case Absolute(at) => Some(at)
    case Unparsed => Some(now)
  }

  datatype SolvedCheck = SolvedCheck(solved: bool, submittedAt: Option<int>, result: Option<string>)

  const NotSolved: SolvedCheck := SolvedCheck(false, None, None)

  function CheckFromStatus(fetch: StatusFetch, now: int): Option<SolvedCheck> {
    match fetch
    case Raised => None
    case Page(status, _, rows) =>
      if status != 200 then None
      else if rows.None? then Some(NotSolved)
      else
        var k := FirstSolved(rows.value);
        if k == |rows.value| then Some(NotSolved)
        else Some(SolvedCheck(true, SubmittedAt(rows.value[k].time, now), rows.value[k].result))
  }

  function CheckProblemSolved(fetch: StatusFetch, now: int): bool {
    match CheckFromStatus(fetch, now)
    case None => false
    case Some(c) => c.solved
  }

  /** No answer on a failed request; otherwise solved exactly when some row shows a solve,
      reporting the first such row's result text, and its time as submitted_at. */
  lemma CheckFromStatusExact(fetch: StatusFetch, now: int)
    ensures CheckFromStatus(fetch, now).None? <==> fetch.Raised? || fetch.status != 200
    ensures CheckFromStatus(fetch, now).Some? ==>
      (CheckFromStatus(fetch, now).value.solved <==>
       fetch.rows.Some? && exists k :: 0 <= k < |fetch.rows.value| && ShowsSolved(fetch.rows.value[k]))
    ensures CheckFromStatus(fetch, now).Some? && CheckFromStatus(fetch, now).value.solved ==>
      var rows := fetch.rows.value;
      var k := FirstSolved(rows);
      && k < |rows|
      && (forall j :: 0 <= j < k ==> !ShowsSolved(rows[j]))
      && CheckFromStatus(fetch, now).value.result == rows[k].result
      && CheckFromStatus(fetch, now).value.submittedAt == SubmittedAt(rows[k].time, now)
    ensures CheckFromStatus(fetch, now).Some? && !CheckFromStatus(fetch, now).value.solved ==>
      CheckFromStatus(fetch, now).value == NotSolved
  {
  }

  /** check_problem_solved: a failed check counts as not solved. */
  lemma CheckProblemSolvedExact(fetch: StatusFetch, now: int)
    ensures CheckProblemSolved(fetch, now) <==>
      fetch.Page? && fetch.status == 200 && fetch.rows.Some?
      && exists k :: 0 <= k < |fetch.rows.value| && ShowsSolved(fetch.rows.value[k])
  {
    CheckFromStatusExact(fetch, now);
  }

  // ---------------------------------------------------------------------
  // check_problems_solved_with_tier.
  // ---------------------------------------------------------------------

  /** The decision map: one key per requested problem, true exactly when the problem is
      among the solved ones and, if a minimum tier is given, its tier is known and at least
      that minimum. `tierOf` stands for get_problem_tier. */
  method CheckProblemsSolvedWithTier(problemIds: seq<int>, solved: seq<int>, minTier: Option<int>,
                                     tierOf: int -> Option<int>) returns (r: map<int, bool>)
    ensures r.Keys == set p | p in problemIds
    ensures forall p :: p in r ==>
      (r[p] <==> p in solved && (minTier.None? || (tierOf(p).Some? && tierOf(p).value >= minTier.value)))
  {
    r := map[];
    var i := 0;
    while i < |problemIds|
      invariant 0 <= i <= |problemIds|
      invariant r.Keys == set p | p in problemIds[..i]
      invariant forall p :: p in r ==>
        (r[p] <==> p in solved && (minTier.None? || (tierOf(p).Some? && tierOf(p).value >= minTier.value)))
    {
      var problem := problemIds[i];
      assert problemIds[..i + 1] == problemIds[..i] + [problem];
      if problem in solved {
        if minTier.Some? {
          var tier := tierOf(problem);
          if tier.Some? && tier.value >= minTier.value {
            r := r[problem := true];
          } else {
            r := r[problem := false];
          }
        } else {
          r := r[problem := true];
        }
      } else {
        r := r[problem := false];
      }
      i := i + 1;
    }
    assert problemIds[..i] == problemIds;
  }
}
