/** The solved-set resolver: which problems a solved.ac user has solved, read
    from the problem search (`s@handle`) or page by page from the profile's
    solved list. A page is what the HTML scrape yields: the HTTP status, the
    problem IDs linked from the page and the page numbers in its pagination
    links. The search walker as written answers from page 1 alone; the
    paginated search walk its docstring describes is modelled beside it. */
module Resolver {
  import opened Base

  datatype Fetch =
    | Raised                                                   // the request raised an exception
    | Page(status: int, ids: seq<int>, links: seq<int>)

  /** The site as a function from page number to what fetching that page yields. */
  type Site = int -> Fetch

  /** Both walkers start with at most this many pages. */
  const PageLimit: int := 100

  /** Above this many target IDs the search query gets too long and the profile pages are read instead. */
  const SearchTargetLimit: int := 50

  function MaxOf(s: seq<int>): (m: int)
    requires s != []
    ensures m in s && forall x :: x in s ==> x <= m
  {
    if |s| == 1 then s[0]
    else
      var rest := MaxOf(s[1..]);
      assert s == [s[0]] + s[1..];
      if s[0] >= rest then s[0] else rest
  }

  function Min(a: int, b: int): int {
    if a <= b then a else b
  }

  /** How far the walk may go once a page is read: page 1's links lower the cap to the largest page number shown. */
  function NextLast(page: int, lastPage: Option<int>, links: seq<int>): Option<int> {
    if page == 1 && lastPage.None? && links != [] then Some(MaxOf(links)) else lastPage
  }

  function NextMax(page: int, lastPage: Option<int>, maxPages: int, links: seq<int>): int {
    if page == 1 && lastPage.None? && links != [] then Min(maxPages, MaxOf(links)) else maxPages
  }

  /** `if last_page and page >= last_page`: a last page of 0 is falsy and never stops the walk. */
  predicate AtLastPage(page: int, lastPage: Option<int>) {
    lastPage.Some? && lastPage.value != 0 && page >= lastPage.value
  }

  /** One page of a walk: either the walk ends with a result, or it goes on to the next page
      with the new page cap, last page and collected IDs. */
  datatype Step<R> = Stop(result: R) | Next(maxPages: int, lastPage: Option<int>, found: seq<int>)

  // ---------------------------------------------------------------------
  // The search walker (_check_problems_via_search_api).
  // ---------------------------------------------------------------------

  /** How one pass of a loop body ends: a `return` with its value, a `break` with the IDs
      collected so far, or on to the next page with the new page cap, last page and IDs. */
  datatype Flow<R> = Return(value: R) | Break(found: seq<int>) | Continue(maxPages: int, lastPage: Option<int>, found: seq<int>)

  /** The body of the search walker's `while` for the fetch of page `page`. An exception
      is caught by the function's `except`, which returns []. */
  function SearchBody(target: set<int>, page: int, maxPages: int, lastPage: Option<int>, found: seq<int>, fetch: Fetch): (f: Flow<seq<int>>)
    requires maxPages <= PageLimit
    ensures f.Continue? ==> f.maxPages <= PageLimit
  {
    match fetch
    case Raised => Return([])
    case Page(status, ids, links) =>
      if status != 200 then (if page == 1 then Return([]) else Break(found))
      else
        var last := NextLast(page, lastPage, links);
        var max := NextMax(page, lastPage, maxPages, links);
        if ids == [] then Break(found)
        else
          var found' := found + FilterIn(ids, target);
          if |Elems(found')| == |target| then Break(found')
          else if AtLastPage(page, last) then Break(found')
          else Continue(max, last, found')
  }

  /** The search walker as written. Its final sort and `return` sit inside the `while`, so the
      first pass over page 1 decides everything: a pass that completes returns page 1's sorted
      target IDs, and after a `break` the function ends without a `return`, giving None. */
  function SearchAsWritten(site: Site, target: seq<int>): Option<seq<int>> {
    match SearchBody(Elems(target), 1, PageLimit, None, [], site(1))
    case Return(r) => Some(r)
    case Break(_) => None
    case Continue(_, _, found) => Some(SortedDistinct(found))
  }

  /** One page of the paginated walk the walker's docstring describes, with the sort and
      `return` after the loop: a `break` ends the walk with the sorted IDs found so far. */
  function SearchStep(target: set<int>, page: int, maxPages: int, lastPage: Option<int>, found: seq<int>, fetch: Fetch): (s: Step<seq<int>>)
    requires maxPages <= PageLimit
    ensures s.Next? ==> s.maxPages <= PageLimit
  {
    match SearchBody(target, page, maxPages, lastPage, found, fetch)
    case Return(r) => Stop(r)
    case Break(f) => Stop(SortedDistinct(f))
    case Continue(m, l, f) => Next(m, l, f)
  }

  /** The rest of the paginated search walk from `page`, having collected `found`. */
  function SearchFrom(site: Site, target: set<int>, page: int, maxPages: int, lastPage: Option<int>, found: seq<int>): seq<int>
    requires page >= 1 && maxPages <= PageLimit
    decreases PageLimit + 1 - page
  {
    if page > maxPages then SortedDistinct(found)
    else
      match SearchStep(target, page, maxPages, lastPage, found, site(page))
      case Stop(r) => r
      case Next(max, last, found') => SearchFrom(site, target, page + 1, max, last, found')
  }

  /** One unfolding of the walk: a stopping page gives the result, otherwise the walk goes on. */
  lemma SearchFromStep(site: Site, target: set<int>, page: int, maxPages: int, lastPage: Option<int>, found: seq<int>)
    requires 1 <= page <= maxPages <= PageLimit
    ensures match SearchStep(target, page, maxPages, lastPage, found, site(page))
      case Stop(r) => SearchFrom(site, target, page, maxPages, lastPage, found) == r
      case Next(m, l, f) => SearchFrom(site, target, page, maxPages, lastPage, found) == SearchFrom(site, target, page + 1, m, l, f)
  {
  }

  /** The paginated search walk from page 1 with a cap of 100 pages. */
  function SearchWalk(site: Site, target: seq<int>): seq<int> {
    SearchFrom(site, Elems(target), 1, PageLimit, None, [])
  }

  /** The loop that appends the page's IDs that are in the target, in page order. */
  method AppendTargets(solved: seq<int>, ids: seq<int>, targetSet: set<int>) returns (r: seq<int>)
    ensures r == solved + FilterIn(ids, targetSet)
  {
    r := solved;
    var i := 0;
    while i < |ids|
      invariant 0 <= i <= |ids|
      invariant r == solved + FilterIn(ids[..i], targetSet)
    {
      if ids[i] in targetSet {
        r := r + [ids[i]];
      }
      assert ids[..i + 1][..i] == ids[..i];
      i := i + 1;
    }
    assert ids[..i] == ids;
  }

  /** The body of the search walker's loop for one fetched page. */
  method SearchPage(targetSet: set<int>, page: int, maxPages0: int, lastPage0: Option<int>, solved0: seq<int>, fetch: Fetch)
    returns (flow: Flow<seq<int>>)
    requires maxPages0 <= PageLimit
    ensures flow == SearchBody(targetSet, page, maxPages0, lastPage0, solved0, fetch)
  {
    var maxPages, lastPage, solved := maxPages0, lastPage0, solved0;
    if fetch.Raised? {
      return Return([]);
    }
    if fetch.status != 200 {
      if page == 1 {
        return Return([]);
      }
      return Break(solved);
    }
    if page == 1 && lastPage.None? && fetch.links != [] {
      lastPage := Some(MaxOf(fetch.links));
      maxPages := Min(maxPages, lastPage.value);
    }
    if fetch.ids == [] {
      return Break(solved);
    }
    solved := AppendTargets(solved, fetch.ids, targetSet);
    var foundSet := Elems(solved);
    if |foundSet| == |targetSet| {
      return Break(solved);
    }
    if lastPage.Some? && lastPage.value != 0 && page >= lastPage.value {
      return Break(solved);
    }
    return Continue(maxPages, lastPage, solved);
  }

  /** _check_problems_via_search_api as written. `page <= max_pages` holds on entry (1 <= 100)
      and every way through the loop's body returns or breaks, so the body runs once, on
      page 1; after a `break` the function ends without a `return`, giving None. */
  method CheckProblemsViaSearch(site: Site, target: seq<int>) returns (r: Option<seq<int>>)
    ensures r == SearchAsWritten(site, target)
  {
    var targetSet := Elems(target);
    var flow := SearchPage(targetSet, 1, PageLimit, None, [], site(1));
    match flow
    case Return(v) =>
      r := Some(v);
    case Break(_) =>
      r := None;
    case Continue(_, _, solved) =>
      r := Some(SortedDistinct(solved));
  }

  /** The same loop with the sort and `return` after it, as the docstring describes: the
      walk goes on to later pages and every `break` returns the sorted IDs found. */
  method PaginatedSearch(site: Site, target: seq<int>) returns (r: seq<int>)
    ensures r == SearchWalk(site, target)
  {
    var targetSet := Elems(target);
    var solved: seq<int> := [];
    var page := 1;
    var maxPages := PageLimit;
    var lastPage: Option<int> := None;
    ghost var spec := SearchWalk(site, target);
    assert SearchFrom(site, targetSet, page, maxPages, lastPage, solved) == spec;
    while page <= maxPages
      invariant page >= 1 && maxPages <= PageLimit
      invariant SearchFrom(site, targetSet, page, maxPages, lastPage, solved) == spec
      decreases PageLimit + 1 - page
    {
      SearchFromStep(site, targetSet, page, maxPages, lastPage, solved);
      var flow := SearchPage(targetSet, page, maxPages, lastPage, solved, site(page));
      match flow
      case Return(v) =>
        return v;
      case Break(f) =>
        solved := f;
        break;
      case Continue(m, l, f) =>
        maxPages, lastPage, solved := m, l, f;
        page := page + 1;
    }
    return SortedDistinct(solved);
  }

  // ---------------------------------------------------------------------
  // The profile walker (_get_all_solved_problems_via_pages).
  // ---------------------------------------------------------------------

  /** The final sort and the filter to the target (none when the target is empty). */
  function Finish(found: seq<int>, target: set<int>): seq<int> {
    if target == {} then SortedDistinct(found) else FilterIn(SortedDistinct(found), target)
  }

  /** What the profile walker does with one fetch; Stop(None) when the fetch raised
      (the exception leaves the walker). */
  function ProfileStep(target: set<int>, page: int, maxPages: int, lastPage: Option<int>, found: seq<int>, fetch: Fetch): (s: Step<Option<seq<int>>>)
    requires maxPages <= PageLimit
    ensures s.Next? ==> s.maxPages <= PageLimit
  {
    match fetch
    case Raised => Stop(None)
    case Page(status, ids, links) =>
      if status != 200 then (if page == 1 then Stop(Some([])) else Stop(Some(Finish(found, target))))
      else
        var last := NextLast(page, lastPage, links);
        var max := NextMax(page, lastPage, maxPages, links);
        if ids == [] then Stop(Some(Finish(found, target)))
        else
          var found' := found + ids;
          if target != {} && |Elems(found') * target| == |target| then Stop(Some(FilterIn(SortedDistinct(found'), target)))
          else if AtLastPage(page, last) then Stop(Some(Finish(found', target)))
          else Next(max, last, found')
  }

  function ProfileFrom(site: Site, target: set<int>, page: int, maxPages: int, lastPage: Option<int>, found: seq<int>): Option<seq<int>>
    requires page >= 1 && maxPages <= PageLimit
    decreases PageLimit + 1 - page
  {
    if page > maxPages then Some(Finish(found, target))
    else
      match ProfileStep(target, page, maxPages, lastPage, found, site(page))
      case Stop(r) => r
      case Next(max, last, found') => ProfileFrom(site, target, page + 1, max, last, found')
  }

  lemma ProfileFromStep(site: Site, target: set<int>, page: int, maxPages: int, lastPage: Option<int>, found: seq<int>)
    requires 1 <= page <= maxPages <= PageLimit
    ensures match ProfileStep(target, page, maxPages, lastPage, found, site(page))
      case Stop(r) => ProfileFrom(site, target, page, maxPages, lastPage, found) == r
      case Next(m, l, f) => ProfileFrom(site, target, page, maxPages, lastPage, found) == ProfileFrom(site, target, page + 1, m, l, f)
  {
  }

  function ProfileWalk(site: Site, target: seq<int>): Option<seq<int>> {
    ProfileFrom(site, Elems(target), 1, PageLimit, None, [])
  }

  /** The body of the profile walker's loop for one fetched page. */
  method ProfilePage(targetSet: set<int>, page: int, maxPages0: int, lastPage0: Option<int>, solved0: seq<int>, fetch: Fetch)
    returns (step: Step<Option<seq<int>>>)
    requires maxPages0 <= PageLimit
    ensures step == ProfileStep(targetSet, page, maxPages0, lastPage0, solved0, fetch)
  {
    var maxPages, lastPage, solved := maxPages0, lastPage0, solved0;
    if fetch.Raised? {
      return Stop(None);
    }
    if fetch.status != 200 {
      if page == 1 {
        return Stop(Some([]));
      }
      return Stop(Some(Finish(solved, targetSet)));
    }
    if page == 1 && lastPage.None? && fetch.links != [] {
      lastPage := Some(MaxOf(fetch.links));
      maxPages := Min(maxPages, lastPage.value);
    }
    if fetch.ids == [] {
      return Stop(Some(Finish(solved, targetSet)));
    }
    solved := solved + fetch.ids;
    if targetSet != {} {
      var foundProblems := Elems(solved) * targetSet;
      if |foundProblems| == |targetSet| {
        return Stop(Some(FilterIn(SortedDistinct(solved), targetSet)));
      }
    }
    if lastPage.Some? && lastPage.value != 0 && page >= lastPage.value {
      return Stop(Some(Finish(solved, targetSet)));
    }
    return Next(maxPages, lastPage, solved);
  }

  /** _get_all_solved_problems_via_pages; None when a fetch raised. */
  method GetAllSolvedViaPages(site: Site, target: seq<int>) returns (r: Option<seq<int>>)
    ensures r == ProfileWalk(site, target)
  {
    var targetSet := Elems(target);
    var solved: seq<int> := [];
    var page := 1;
    var maxPages := PageLimit;
    var lastPage: Option<int> := None;
    ghost var spec := ProfileWalk(site, target);
    assert ProfileFrom(site, targetSet, page, maxPages, lastPage, solved) == spec;
    while page <= maxPages
      invariant page >= 1 && maxPages <= PageLimit
      invariant ProfileFrom(site, targetSet, page, maxPages, lastPage, solved) == spec
      decreases PageLimit + 1 - page
    {
      ProfileFromStep(site, targetSet, page, maxPages, lastPage, solved);
      var step := ProfilePage(targetSet, page, maxPages, lastPage, solved, site(page));
      if step.Stop? {
        return step.result;
      }
      maxPages, lastPage, solved := step.maxPages, step.lastPage, step.found;
      page := page + 1;
    }
    return Some(Finish(solved, targetSet));
  }

  // ---------------------------------------------------------------------
  // The dispatcher (get_user_solved_problems_from_solved_ac).
  // ---------------------------------------------------------------------

  predicate UsesSearch(target: seq<int>) {
    target != [] && |target| <= SearchTargetLimit
  }

  /** get_user_solved_problems_from_solved_ac: the search walker's answer is passed on as it
      is, None included; an exception from the profile walker yields []. */
  method GetUserSolvedProblems(searchSite: Site, profileSite: Site, target: seq<int>) returns (r: Option<seq<int>>)
    ensures UsesSearch(target) ==> r == SearchAsWritten(searchSite, target)
    ensures !UsesSearch(target) ==> r == Some(if ProfileWalk(profileSite, target).Some? then ProfileWalk(profileSite, target).value else [])
  {
    if target != [] && |target| <= SearchTargetLimit {
      r := CheckProblemsViaSearch(searchSite, target);
    } else {
      var o := GetAllSolvedViaPages(profileSite, target);
      r := Some(if o.Some? then o.value else []);
    }
  }

  /** verify_user_exists, on the status of the solved.ac user lookup (None: the request raised). */
  function UserExists(status: Option<int>): (r: bool)
    ensures r <==> status == Some(200)
  {
    match status
    case None => false
    case Some(code) =>
      if code == 200 then true
      else if code == 404 then false
      else false
  }

  // ---------------------------------------------------------------------
  // The search walker as written answers from page 1 alone.
  // ---------------------------------------------------------------------

  /** A failed page 1 gives []. A page 1 with status 200 gives None exactly when it lists no
      problem, lists the whole target, or its links name page 1 as the last page; any other
      page 1 gives the target IDs it lists, ascending and distinct. */
  lemma SearchAsWrittenExact(site: Site, target: seq<int>)
    ensures (site(1).Raised? || site(1).status != 200) ==> SearchAsWritten(site, target) == Some([])
    ensures site(1).Page? && site(1).status == 200 ==>
      (SearchAsWritten(site, target).None? <==>
        site(1).ids == [] || Elems(target) <= Elems(site(1).ids) ||
        (site(1).links != [] && MaxOf(site(1).links) != 0 && MaxOf(site(1).links) <= 1))
    ensures site(1).Page? && site(1).status == 200 && SearchAsWritten(site, target).Some? ==>
      StrictlySorted(SearchAsWritten(site, target).value) &&
      Elems(SearchAsWritten(site, target).value) == Elems(site(1).ids) * Elems(target)
  {
    if site(1).Page? && site(1).status == 200 && site(1).ids != [] {
      SearchFirstPage(Elems(target), site(1).ids, site(1).links);
    }
  }

  /** What the first pass makes of a page 1 with status 200 that lists some problem. */
  lemma SearchFirstPage(t: set<int>, ids: seq<int>, links: seq<int>)
    requires ids != []
    ensures var flow := SearchBody(t, 1, PageLimit, None, [], Page(200, ids, links));
      && (flow.Break? <==> t <= Elems(ids) || (links != [] && MaxOf(links) != 0 && MaxOf(links) <= 1))
      && (flow.Continue? ==> StrictlySorted(SortedDistinct(flow.found)) && Elems(SortedDistinct(flow.found)) == Elems(ids) * t)
  {
    var found := FilterIn(ids, t);
    assert [] + found == found;
    FilterInSpec(ids, t);
    SortedDistinctSpec(found);
    assert |Elems(found)| == |t| <==> t <= Elems(ids) by {
      if |Elems(found)| == |t| {
        SubsetSameSize(Elems(found), t);
      }
      if t <= Elems(ids) {
        assert Elems(found) == t;
      }
    }
    var last := NextLast(1, None, links);
    assert AtLastPage(1, last) <==> links != [] && MaxOf(links) != 0 && MaxOf(links) <= 1;
    assert SearchBody(t, 1, PageLimit, None, [], Page(200, ids, links)) ==
      if t <= Elems(ids) || AtLastPage(1, last) then Break(found)
      else Continue(NextMax(1, None, PageLimit, links), last, found);
  }

  /** Two sites that agree on page 1 get the same answer: page 2 is never fetched. */
  lemma SearchReadsFirstPageOnly(a: Site, b: Site, target: seq<int>)
    requires a(1) == b(1)
    ensures SearchAsWritten(a, target) == SearchAsWritten(b, target)
  {
  }

  /** With the target 1000 and 1001, page 1 listing 1000 and linking to page 2, and page 2
      listing 1001, the walker as written returns [1000]; the paginated walk returns both. */
  lemma SearchAsWrittenMissesPageTwo(site: Site)
    requires site(1) == Page(200, [1000], [1, 2])
    requires site(2) == Page(200, [1001], [])
    ensures SearchAsWritten(site, [1000, 1001]) == Some([1000])
    ensures SearchWalk(site, [1000, 1001]) == [1000, 1001]
  {
    var t := Elems([1000, 1001]);
    assert t == {1000, 1001};
    assert MaxOf([1, 2]) == 2;
    assert FilterIn([1000], t) == [1000];
    assert Elems([1000]) == {1000};
    assert SearchBody(t, 1, PageLimit, None, [], site(1)) == Continue(2, Some(2), [1000]);
    assert SortedDistinct([1000]) == [1000];
    SearchFromStep(site, t, 1, PageLimit, None, []);
    PageTwoEndsWalk(site, t);
  }

  /** Page 2 of that site completes the target, so the paginated walk stops there. */
  lemma PageTwoEndsWalk(site: Site, t: set<int>)
    requires t == {1000, 1001}
    requires site(2) == Page(200, [1001], [])
    ensures SearchFrom(site, t, 2, 2, Some(2), [1000]) == [1000, 1001]
  {
    var found' := [1000] + FilterIn([1001], t);
    assert FilterIn([1001], t) == [1001];
    assert found' == [1000, 1001];
    assert Elems(found') == t by {
      assert forall x :: x in found' <==> x == 1000 || x == 1001;
    }
    assert |t| == 2;
    assert SearchBody(t, 2, 2, Some(2), [1000], site(2)) == Break(found');
    SearchFromStep(site, t, 2, 2, Some(2), [1000]);
    assert SortedDistinct([1000, 1001]) == [1000, 1001] by {
      assert [1000, 1001][..1] == [1000];
    }
  }

  // ---------------------------------------------------------------------
  // What the walkers promise.
  // ---------------------------------------------------------------------

  /** Every problem ID linked from pages 1..100 of the site. */
  ghost function ListedIds(site: Site): set<int> {
    set p, x | 1 <= p <= PageLimit && site(p).Page? && x in site(p).ids :: x
  }

  lemma PageListed(site: Site, page: int)
    requires 1 <= page <= PageLimit && site(page).Page?
    ensures Elems(site(page).ids) <= ListedIds(site)
  {
    forall x | x in Elems(site(page).ids) ensures x in ListedIds(site) {
      assert x in site(page).ids;
    }
  }

  lemma ElemsConcat(a: seq<int>, b: seq<int>)
    ensures Elems(a + b) == Elems(a) + Elems(b)
  {
    assert forall x :: x in a + b <==> x in a || x in b;
  }

  /** A subset with as many elements as the whole set is the whole set. */
  lemma SubsetSameSize(a: set<int>, b: set<int>)
    requires a <= b && |a| == |b|
    ensures a == b
  {
    assert |b - a| == 0 by {
      assert b == a + (b - a);
      assert a * (b - a) == {};
    }
    assert b - a == {};
    assert b == a + (b - a);
  }

  /** The results a page can stop with are ascending and, if found is, within the bound. */
  lemma FinishSound(found: seq<int>, target: set<int>, bound: set<int>)
    requires Elems(found) <= bound
    ensures StrictlySorted(SortedDistinct(found)) && Elems(SortedDistinct(found)) <= bound
    ensures StrictlySorted(FilterIn(SortedDistinct(found), target))
    ensures Elems(FilterIn(SortedDistinct(found), target)) <= bound * target
    ensures StrictlySorted(Finish(found, target))
    ensures Elems(Finish(found, target)) <= if target == {} then bound else bound * target
  {
    SortedDistinctSpec(found);
    FilterInSpec(SortedDistinct(found), target);
  }

  lemma SearchStepSound(site: Site, target: set<int>, page: int, maxPages: int, lastPage: Option<int>, found: seq<int>)
    requires 1 <= page <= maxPages <= PageLimit
    requires Elems(found) <= target * ListedIds(site)
    ensures match SearchStep(target, page, maxPages, lastPage, found, site(page))
      case Stop(r) => StrictlySorted(r) && Elems(r) <= target * ListedIds(site)
      case Next(_, _, found') => Elems(found') <= target * ListedIds(site)
  {
    FinishSound(found, target, target * ListedIds(site));
    var f := site(page);
    if f.Page? && f.status == 200 && f.ids != [] {
      var extra := FilterIn(f.ids, target);
      FilterInSpec(f.ids, target);
      PageListed(site, page);
      ElemsConcat(found, extra);
      FinishSound(found + extra, target, target * ListedIds(site));
    }
  }

  /** A page the paginated search walk goes on from; the rest of the walk is the induction step. */
  lemma {:induction false} SearchSoundNext(site: Site, target: set<int>, page: int, maxPages: int, lastPage: Option<int>, found: seq<int>)
    requires 1 <= page <= maxPages <= PageLimit
    requires Elems(found) <= target * ListedIds(site)
    requires SearchStep(target, page, maxPages, lastPage, found, site(page)).Next?
    ensures StrictlySorted(SearchFrom(site, target, page, maxPages, lastPage, found))
    ensures Elems(SearchFrom(site, target, page, maxPages, lastPage, found)) <= target * ListedIds(site)
    decreases PageLimit + 1 - page, 0
  {
    SearchStepSound(site, target, page, maxPages, lastPage, found);
    SearchFromStep(site, target, page, maxPages, lastPage, found);
    var step := SearchStep(target, page, maxPages, lastPage, found, site(page));
    SearchFromSound(site, target, page + 1, step.maxPages, step.lastPage, step.found);
  }

  /** The paginated search walk returns an ascending list of target IDs that some page lists. */
  lemma {:induction false} SearchFromSound(site: Site, target: set<int>, page: int, maxPages: int, lastPage: Option<int>, found: seq<int>)
    requires page >= 1 && maxPages <= PageLimit
    requires Elems(found) <= target * ListedIds(site)
    ensures StrictlySorted(SearchFrom(site, target, page, maxPages, lastPage, found))
    ensures Elems(SearchFrom(site, target, page, maxPages, lastPage, found)) <= target * ListedIds(site)
    decreases PageLimit + 1 - page, 1
  {
    if page <= maxPages {
      if SearchStep(target, page, maxPages, lastPage, found, site(page)).Next? {
        SearchSoundNext(site, target, page, maxPages, lastPage, found);
      } else {
        SearchStepSound(site, target, page, maxPages, lastPage, found);
        SearchFromStep(site, target, page, maxPages, lastPage, found);
      }
    } else {
      FinishSound(found, target, target * ListedIds(site));
    }
  }

  lemma SearchWalkSound(site: Site, target: seq<int>)
    ensures StrictlySorted(SearchWalk(site, target))
    ensures forall x :: x in SearchWalk(site, target) ==> x in target && x in ListedIds(site)
  {
    SearchFromSound(site, Elems(target), 1, PageLimit, None, []);
    forall x | x in SearchWalk(site, target) ensures x in target && x in ListedIds(site) {
      assert x in Elems(SearchWalk(site, target));
    }
  }

  lemma ProfileStepSound(site: Site, target: set<int>, page: int, maxPages: int, lastPage: Option<int>, found: seq<int>)
    requires 1 <= page <= maxPages <= PageLimit
    requires Elems(found) <= ListedIds(site)
    ensures match ProfileStep(target, page, maxPages, lastPage, found, site(page))
      case Stop(None) => true
      case Stop(Some(r)) => StrictlySorted(r) && Elems(r) <= if target == {} then ListedIds(site) else ListedIds(site) * target
      case Next(_, _, found') => Elems(found') <= ListedIds(site)
  {
    FinishSound(found, target, ListedIds(site));
    var f := site(page);
    if f.Page? && f.status == 200 && f.ids != [] {
      PageListed(site, page);
      ElemsConcat(found, f.ids);
      FinishSound(found + f.ids, target, ListedIds(site));
    }
  }

  /** A page the profile walk goes on from; the rest of the walk is the induction step. */
  lemma {:induction false} ProfileSoundNext(site: Site, target: set<int>, page: int, maxPages: int, lastPage: Option<int>, found: seq<int>)
    requires 1 <= page <= maxPages <= PageLimit
    requires Elems(found) <= ListedIds(site)
    requires ProfileStep(target, page, maxPages, lastPage, found, site(page)).Next?
    ensures match ProfileFrom(site, target, page, maxPages, lastPage, found)
      case None => true
      case Some(r) => StrictlySorted(r) && Elems(r) <= if target == {} then ListedIds(site) else ListedIds(site) * target
    decreases PageLimit + 1 - page, 0
  {
    ProfileStepSound(site, target, page, maxPages, lastPage, found);
    ProfileFromStep(site, target, page, maxPages, lastPage, found);
    var step := ProfileStep(target, page, maxPages, lastPage, found, site(page));
    ProfileFromSound(site, target, page + 1, step.maxPages, step.lastPage, step.found);
  }

  lemma {:induction false} ProfileFromSound(site: Site, target: set<int>, page: int, maxPages: int, lastPage: Option<int>, found: seq<int>)
    requires page >= 1 && maxPages <= PageLimit
    requires Elems(found) <= ListedIds(site)
    ensures match ProfileFrom(site, target, page, maxPages, lastPage, found)
      case None => true
      case Some(r) => StrictlySorted(r) && Elems(r) <= if target == {} then ListedIds(site) else ListedIds(site) * target
    decreases PageLimit + 1 - page, 1
  {
    if page <= maxPages {
      if ProfileStep(target, page, maxPages, lastPage, found, site(page)).Next? {
        ProfileSoundNext(site, target, page, maxPages, lastPage, found);
      } else {
        ProfileStepSound(site, target, page, maxPages, lastPage, found);
        ProfileFromStep(site, target, page, maxPages, lastPage, found);
      }
    } else {
      FinishSound(found, target, ListedIds(site));
    }
  }

  lemma ProfileWalkSound(site: Site, target: seq<int>)
    ensures match ProfileWalk(site, target)
      case None => true
      case Some(r) => StrictlySorted(r) && forall x :: x in r ==> (target != [] ==> x in target) && x in ListedIds(site)
  {
    ProfileFromSound(site, Elems(target), 1, PageLimit, None, []);
    ElemsEmpty(target);
    match ProfileWalk(site, target)
    case None =>
    case Some(r) =>
      forall x | x in r ensures (target != [] ==> x in target) && x in ListedIds(site) {
        assert x in Elems(r);
      }
  }

  /** Whichever walker the dispatcher picks, a list it returns is ascending, distinct and
      within a non-empty target; only the search walker's `break` gives None. */
  lemma SolvedProblemsSound(searchSite: Site, profileSite: Site, target: seq<int>, r: Option<seq<int>>)
    requires UsesSearch(target) ==> r == SearchAsWritten(searchSite, target)
    requires !UsesSearch(target) ==> r == Some(if ProfileWalk(profileSite, target).Some? then ProfileWalk(profileSite, target).value else [])
    ensures r.None? ==> UsesSearch(target)
    ensures r.Some? ==> StrictlySorted(r.value)
    ensures r.Some? && target != [] ==> forall x :: x in r.value ==> x in target
  {
    if UsesSearch(target) {
      SearchAsWrittenExact(searchSite, target);
      if r.Some? {
        forall x | x in r.value ensures x in target {
          assert x in Elems(r.value);
        }
      }
    } else {
      ProfileWalkSound(profileSite, target);
    }
  }

  // ---------------------------------------------------------------------
  // What the walkers read, and that their results are exactly that.
  // ---------------------------------------------------------------------

  /** What a fetch adds when the walk reads it: the IDs linked from a page with status 200. */
  function PageIds(f: Fetch): set<int> {
    if f.Page? && f.status == 200 then Elems(f.ids) else {}
  }

  /** The IDs of every page the paginated search walk reads from `page` until it stops,
      or None when one of the fetches it makes raised. */
  ghost function SearchRead(site: Site, target: set<int>, page: int, maxPages: int, lastPage: Option<int>, found: seq<int>): Option<set<int>>
    requires page >= 1 && maxPages <= PageLimit
    decreases PageLimit + 1 - page
  {
    if page > maxPages then Some({})
    else if site(page).Raised? then None
    else
      match SearchStep(target, page, maxPages, lastPage, found, site(page))
      case Stop(_) => Some(PageIds(site(page)))
      case Next(max, last, found') =>
        var rest := SearchRead(site, target, page + 1, max, last, found');
        if rest.Some? then Some(PageIds(site(page)) + rest.value) else None
  }

  /** One page of the paginated search walk keeps exactly the target IDs it lists; a raised fetch drops everything. */
  lemma SearchStepExact(target: set<int>, page: int, maxPages: int, lastPage: Option<int>, found: seq<int>, f: Fetch)
    requires maxPages <= PageLimit
    requires page == 1 ==> found == []
    ensures match SearchStep(target, page, maxPages, lastPage, found, f)
      case Stop(r) => if f.Raised? then r == [] else Elems(r) == Elems(found) + target * PageIds(f)
      case Next(_, _, found') => Elems(found') == Elems(found) + target * PageIds(f)
  {
    match f
    case Raised =>
    case Page(status, ids, links) =>
      if status != 200 {
        if page == 1 {
          ElemsEmpty(found);
          ElemsEmpty([]);
        } else {
          SortedDistinctSpec(found);
        }
      } else if ids == [] {
        ElemsEmpty(ids);
        SortedDistinctSpec(found);
      } else {
        var found' := found + FilterIn(ids, target);
        FilterInSpec(ids, target);
        ElemsConcat(found, FilterIn(ids, target));
        assert Elems(found') == Elems(found) + target * PageIds(f);
        SortedDistinctSpec(found');
      }
  }

  /** Two sets of IDs found, one page later: the target IDs of the page are added. */
  lemma AddRead(found: set<int>, found': set<int>, pageIds: set<int>, rest: set<int>, target: set<int>)
    requires found' == found + target * pageIds
    ensures found + target * (pageIds + rest) == found' + target * rest
  {
  }

  /** From `page` on, a paginated search walk that raises nowhere ends with the IDs found so far and
      the target IDs of every page it reads. */
  ghost predicate SearchExactFrom(site: Site, target: set<int>, page: int, maxPages: int, lastPage: Option<int>, found: seq<int>)
    requires page >= 1 && maxPages <= PageLimit
  {
    && (SearchRead(site, target, page, maxPages, lastPage, found).None? ==> SearchFrom(site, target, page, maxPages, lastPage, found) == [])
    && ((page == 1 ==> found == []) && SearchRead(site, target, page, maxPages, lastPage, found).Some? ==>
      Elems(SearchFrom(site, target, page, maxPages, lastPage, found))
        == Elems(found) + target * SearchRead(site, target, page, maxPages, lastPage, found).value)
  }

  /** The stopping page of a paginated search walk. */
  lemma SearchExactStop(site: Site, target: set<int>, page: int, maxPages: int, lastPage: Option<int>, found: seq<int>)
    requires 1 <= page <= maxPages <= PageLimit
    requires SearchStep(target, page, maxPages, lastPage, found, site(page)).Stop?
    ensures SearchExactFrom(site, target, page, maxPages, lastPage, found)
  {
    SearchFromStep(site, target, page, maxPages, lastPage, found);
    if page == 1 ==> found == [] {
      SearchStepExact(target, page, maxPages, lastPage, found, site(page));
    }
  }

  /** A page the paginated search walk reads and goes on from; the rest of the walk is the induction step. */
  lemma {:induction false} SearchExactNext(site: Site, target: set<int>, page: int, maxPages: int, lastPage: Option<int>, found: seq<int>)
    requires 1 <= page <= maxPages <= PageLimit
    requires SearchStep(target, page, maxPages, lastPage, found, site(page)).Next?
    ensures SearchExactFrom(site, target, page, maxPages, lastPage, found)
    decreases PageLimit + 1 - page, 0
  {
    var step := SearchStep(target, page, maxPages, lastPage, found, site(page));
    SearchFromExact(site, target, page + 1, step.maxPages, step.lastPage, step.found);
    SearchFromStep(site, target, page, maxPages, lastPage, found);
    if (page == 1 ==> found == []) && SearchRead(site, target, page, maxPages, lastPage, found).Some? {
      SearchStepExact(target, page, maxPages, lastPage, found, site(page));
      var rest := SearchRead(site, target, page + 1, step.maxPages, step.lastPage, step.found);
      assert rest.Some? && SearchRead(site, target, page, maxPages, lastPage, found).value == PageIds(site(page)) + rest.value;
      AddRead(Elems(found), Elems(step.found), PageIds(site(page)), rest.value, target);
    }
  }

  /** The paginated search walk from any page, by induction on the pages left. */
  lemma {:induction false} SearchFromExact(site: Site, target: set<int>, page: int, maxPages: int, lastPage: Option<int>, found: seq<int>)
    requires page >= 1 && maxPages <= PageLimit
    ensures SearchExactFrom(site, target, page, maxPages, lastPage, found)
    decreases PageLimit + 1 - page, 1
  {
    if page <= maxPages {
      var step := SearchStep(target, page, maxPages, lastPage, found, site(page));
      if step.Next? {
        SearchExactNext(site, target, page, maxPages, lastPage, found);
      } else {
        SearchExactStop(site, target, page, maxPages, lastPage, found);
      }
    } else {
      SortedDistinctSpec(found);
    }
  }

  /** The IDs of the pages the paginated search walk over `target` reads. */
  ghost function SearchedIds(site: Site, target: seq<int>): Option<set<int>> {
    SearchRead(site, Elems(target), 1, PageLimit, None, [])
  }

  /** The paginated search walk returns the sorted, distinct target IDs of all pages it read,
      and nothing at all once a fetch raised. */
  lemma SearchWalkExact(site: Site, target: seq<int>)
    ensures SearchedIds(site, target).None? ==> SearchWalk(site, target) == []
    ensures SearchedIds(site, target).Some? ==>
      SearchWalk(site, target) == SortedDistinct(FilterIn(target, SearchedIds(site, target).value))
  {
    SearchFromExact(site, Elems(target), 1, PageLimit, None, []);
    if SearchedIds(site, target).Some? {
      ElemsEmpty([]);
      var read := SearchedIds(site, target).value;
      SearchWalkSound(site, target);
      FilterInSpec(target, read);
      SortedDistinctSpec(FilterIn(target, read));
      SortedUnique(SearchWalk(site, target), SortedDistinct(FilterIn(target, read)));
    }
  }

  /** On any page, once the IDs found so far and the page's own cover the target, the
      paginated search walk stops there with the whole target and reads no further page. */
  lemma SearchStopsWhenCovered(site: Site, target: set<int>, page: int, maxPages: int, lastPage: Option<int>, found: seq<int>)
    requires 1 <= page <= maxPages <= PageLimit
    requires Elems(found) <= target
    requires site(page).Page? && site(page).status == 200 && site(page).ids != []
    requires target <= Elems(found) + Elems(site(page).ids)
    ensures SearchFrom(site, target, page, maxPages, lastPage, found) == SortedDistinct(found + FilterIn(site(page).ids, target))
    ensures Elems(SearchFrom(site, target, page, maxPages, lastPage, found)) == target
    ensures SearchRead(site, target, page, maxPages, lastPage, found) == Some(Elems(site(page).ids))
  {
    var ids := site(page).ids;
    var found' := found + FilterIn(ids, target);
    FilterInSpec(ids, target);
    ElemsConcat(found, FilterIn(ids, target));
    assert Elems(found') == target;
    SearchFromStep(site, target, page, maxPages, lastPage, found);
    SortedDistinctSpec(found');
  }

  /** The IDs of every page the profile walk reads from `page` until it stops,
      or None when one of the fetches it makes raised. */
  ghost function ProfileRead(site: Site, target: set<int>, page: int, maxPages: int, lastPage: Option<int>, found: seq<int>): Option<set<int>>
    requires page >= 1 && maxPages <= PageLimit
    decreases PageLimit + 1 - page
  {
    if page > maxPages then Some({})
    else if site(page).Raised? then None
    else
      match ProfileStep(target, page, maxPages, lastPage, found, site(page))
      case Stop(_) => Some(PageIds(site(page)))
      case Next(max, last, found') =>
        var rest := ProfileRead(site, target, page + 1, max, last, found');
        if rest.Some? then Some(PageIds(site(page)) + rest.value) else None
  }

  /** What the profile walker keeps of the IDs it read: all of them for an empty target,
      otherwise those in the target. */
  function Kept(read: set<int>, target: set<int>): set<int> {
    if target == {} then read else read * target
  }

  lemma ProfileStepExact(target: set<int>, page: int, maxPages: int, lastPage: Option<int>, found: seq<int>, f: Fetch)
    requires maxPages <= PageLimit
    requires page == 1 ==> found == []
    ensures match ProfileStep(target, page, maxPages, lastPage, found, f)
      case Stop(None) => f.Raised?
      case Stop(Some(r)) => Elems(r) == Kept(Elems(found) + PageIds(f), target)
      case Next(_, _, found') => Elems(found') == Elems(found) + PageIds(f)
  {
    match f
    case Raised =>
    case Page(status, ids, links) =>
      if status != 200 && page == 1 {
        ElemsEmpty(found);
        ElemsEmpty([]);
      } else {
        SortedDistinctSpec(found);
        FilterInSpec(SortedDistinct(found), target);
        if status == 200 && ids == [] {
          ElemsEmpty(ids);
        } else if status == 200 {
          var found' := found + ids;
          ElemsConcat(found, ids);
          SortedDistinctSpec(found');
          FilterInSpec(SortedDistinct(found'), target);
        }
      }
  }

  /** From `page` on, the profile walk raises exactly when one of the fetches it makes
      raises, and otherwise keeps, of the IDs found so far and those of every page it
      reads, what `Kept` says. */
  ghost predicate ProfileExactFrom(site: Site, target: set<int>, page: int, maxPages: int, lastPage: Option<int>, found: seq<int>)
    requires page >= 1 && maxPages <= PageLimit
  {
    && (ProfileFrom(site, target, page, maxPages, lastPage, found).None?
        <==> ProfileRead(site, target, page, maxPages, lastPage, found).None?)
    && ((page == 1 ==> found == []) && ProfileRead(site, target, page, maxPages, lastPage, found).Some? ==>
      Elems(ProfileFrom(site, target, page, maxPages, lastPage, found).value)
        == Kept(Elems(found) + ProfileRead(site, target, page, maxPages, lastPage, found).value, target))
  }

  /** What is kept, one page later: the IDs of the page are added. */
  lemma KeptRead(found: set<int>, found': set<int>, pageIds: set<int>, rest: set<int>, target: set<int>)
    requires found' == found + pageIds
    ensures Kept(found + (pageIds + rest), target) == Kept(found' + rest, target)
  {
    assert found + (pageIds + rest) == found' + rest;
  }

  /** The stopping page of a profile walk. */
  lemma ProfileExactStop(site: Site, target: set<int>, page: int, maxPages: int, lastPage: Option<int>, found: seq<int>)
    requires 1 <= page <= maxPages <= PageLimit
    requires ProfileStep(target, page, maxPages, lastPage, found, site(page)).Stop?
    ensures ProfileExactFrom(site, target, page, maxPages, lastPage, found)
  {
    ProfileFromStep(site, target, page, maxPages, lastPage, found);
    if page == 1 ==> found == [] {
      ProfileStepExact(target, page, maxPages, lastPage, found, site(page));
    }
  }

  /** A page the profile walk reads and goes on from; the rest of the walk is the induction step. */
  lemma {:induction false} ProfileExactNext(site: Site, target: set<int>, page: int, maxPages: int, lastPage: Option<int>, found: seq<int>)
    requires 1 <= page <= maxPages <= PageLimit
    requires ProfileStep(target, page, maxPages, lastPage, found, site(page)).Next?
    ensures ProfileExactFrom(site, target, page, maxPages, lastPage, found)
    decreases PageLimit + 1 - page, 0
  {
    var step := ProfileStep(target, page, maxPages, lastPage, found, site(page));
    ProfileFromExact(site, target, page + 1, step.maxPages, step.lastPage, step.found);
    ProfileFromStep(site, target, page, maxPages, lastPage, found);
    if (page == 1 ==> found == []) && ProfileRead(site, target, page, maxPages, lastPage, found).Some? {
      ProfileStepExact(target, page, maxPages, lastPage, found, site(page));
      var rest := ProfileRead(site, target, page + 1, step.maxPages, step.lastPage, step.found);
      assert rest.Some? && ProfileRead(site, target, page, maxPages, lastPage, found).value == PageIds(site(page)) + rest.value;
      KeptRead(Elems(found), Elems(step.found), PageIds(site(page)), rest.value, target);
    }
  }

  /** The profile walk from any page, by induction on the pages left. */
  lemma {:induction false} ProfileFromExact(site: Site, target: set<int>, page: int, maxPages: int, lastPage: Option<int>, found: seq<int>)
    requires page >= 1 && maxPages <= PageLimit
    ensures ProfileExactFrom(site, target, page, maxPages, lastPage, found)
    decreases PageLimit + 1 - page, 1
  {
    if page <= maxPages {
      var step := ProfileStep(target, page, maxPages, lastPage, found, site(page));
      if step.Next? {
        ProfileExactNext(site, target, page, maxPages, lastPage, found);
      } else {
        ProfileExactStop(site, target, page, maxPages, lastPage, found);
      }
    } else {
      FinishSound(found, target, Elems(found));
      SortedDistinctSpec(found);
      FilterInSpec(SortedDistinct(found), target);
    }
  }

  /** The IDs of the pages the profile walk over `target` reads. */
  ghost function ProfiledIds(site: Site, target: seq<int>): Option<set<int>> {
    ProfileRead(site, Elems(target), 1, PageLimit, None, [])
  }

  /** The profile walk returns the sorted IDs of all pages it read that are in the target,
      or all of them when the target is empty; None exactly when a fetch raised. */
  lemma ProfileWalkExact(site: Site, target: seq<int>)
    ensures ProfileWalk(site, target).None? <==> ProfiledIds(site, target).None?
    ensures ProfiledIds(site, target).Some? ==>
      StrictlySorted(ProfileWalk(site, target).value) &&
      forall x :: x in ProfileWalk(site, target).value <==>
        x in ProfiledIds(site, target).value && (target != [] ==> x in target)
  {
    ProfileFromExact(site, Elems(target), 1, PageLimit, None, []);
    ProfileWalkSound(site, target);
    ElemsEmpty(target);
    if ProfiledIds(site, target).Some? {
      var r := ProfileWalk(site, target).value;
      forall x ensures x in r <==> x in ProfiledIds(site, target).value && (target != [] ==> x in target) {
        assert x in r <==> x in Elems(r);
      }
    }
  }

  /** On any page, once the IDs read so far and the page's own cover a non-empty target,
      the profile walk stops there with the whole target and reads no further page. */
  lemma ProfileStopsWhenCovered(site: Site, target: set<int>, page: int, maxPages: int, lastPage: Option<int>, found: seq<int>)
    requires 1 <= page <= maxPages <= PageLimit
    requires target != {}
    requires site(page).Page? && site(page).status == 200 && site(page).ids != []
    requires target <= Elems(found) + Elems(site(page).ids)
    ensures ProfileFrom(site, target, page, maxPages, lastPage, found) == Some(FilterIn(SortedDistinct(found + site(page).ids), target))
    ensures Elems(ProfileFrom(site, target, page, maxPages, lastPage, found).value) == target
    ensures ProfileRead(site, target, page, maxPages, lastPage, found) == Some(Elems(site(page).ids))
  {
    var ids := site(page).ids;
    var found' := found + ids;
    ElemsConcat(found, ids);
    assert Elems(found') * target == target;
    ProfileFromStep(site, target, page, maxPages, lastPage, found);
    SortedDistinctSpec(found');
    FilterInSpec(SortedDistinct(found'), target);
  }

  /** A failed first page yields the empty list from both walkers. */
  lemma FirstPageFailure(site: Site, target: seq<int>)
    requires site(1).Raised? || site(1).status != 200
    ensures SearchAsWritten(site, target) == Some([])
    ensures SearchWalk(site, target) == []
    ensures site(1).Page? ==> ProfileWalk(site, target) == Some([])
    ensures site(1).Raised? ==> ProfileWalk(site, target) == None
  {
  }

  lemma SearchTargetOnFirstPage(site: Site, target: seq<int>, ids: seq<int>, links: seq<int>)
    requires target != []
    requires site(1) == Page(200, ids, links)
    requires Elems(target) <= Elems(ids)
    ensures SearchWalk(site, target) == SortedDistinct(target)
  {
    var t := Elems(target);
    ElemsEmpty(target);
    ElemsEmpty(ids);
    var found := [] + FilterIn(ids, t);
    assert found == FilterIn(ids, t);
    FilterInSpec(ids, t);
    assert Elems(found) == t;
    SearchFromStep(site, t, 1, PageLimit, None, []);
    assert SearchStep(t, 1, PageLimit, None, [], site(1)) == Stop(SortedDistinct(found));
    SortedDistinctSpec(found);
    SortedDistinctSpec(target);
    SortedUnique(SortedDistinct(found), SortedDistinct(target));
  }

  lemma ProfileTargetOnFirstPage(site: Site, target: seq<int>, ids: seq<int>, links: seq<int>)
    requires target != []
    requires site(1) == Page(200, ids, links)
    requires Elems(target) <= Elems(ids)
    ensures ProfileWalk(site, target) == Some(SortedDistinct(target))
  {
    var t := Elems(target);
    ElemsEmpty(target);
    ElemsEmpty(ids);
    var all := [] + ids;
    assert all == ids;
    assert Elems(all) * t == t;
    ProfileFromStep(site, t, 1, PageLimit, None, []);
    assert ProfileStep(t, 1, PageLimit, None, [], site(1)) == Stop(Some(FilterIn(SortedDistinct(all), t)));
    SortedDistinctSpec(all);
    FilterInSpec(SortedDistinct(all), t);
    SortedDistinctSpec(target);
    SortedUnique(FilterIn(SortedDistinct(all), t), SortedDistinct(target));
  }

  /** When page 1 already lists the whole target, both walkers stop there. The profile walker
      returns the sorted target; the search walker as written breaks and returns None, where
      the paginated walk returns the sorted target too. */
  lemma TargetOnFirstPage(site: Site, target: seq<int>, ids: seq<int>, links: seq<int>)
    requires target != []
    requires site(1) == Page(200, ids, links)
    requires Elems(target) <= Elems(ids)
    ensures SearchAsWritten(site, target) == None
    ensures SearchWalk(site, target) == SortedDistinct(target)
    ensures ProfileWalk(site, target) == Some(SortedDistinct(target))
  {
    SearchAsWrittenExact(site, target);
    SearchTargetOnFirstPage(site, target, ids, links);
    ProfileTargetOnFirstPage(site, target, ids, links);
  }

  /** The profile walk and the paginated search walk read page 1 and then no page above
      the cap page 1's links set. */
  function Cap(site: Site): int {
    match site(1)
    case Page(status, ids, links) => if status == 200 && links != [] then Min(PageLimit, MaxOf(links)) else PageLimit
    case Raised => PageLimit
  }

  lemma {:induction false} SearchFromLocal(a: Site, b: Site, target: set<int>, page: int, maxPages: int, lastPage: Option<int>, found: seq<int>)
    requires page >= 1 && maxPages <= PageLimit
    requires forall p :: page <= p <= maxPages ==> a(p) == b(p)
    ensures SearchFrom(a, target, page, maxPages, lastPage, found) == SearchFrom(b, target, page, maxPages, lastPage, found)
    decreases PageLimit + 1 - page
  {
    if page <= maxPages {
      assert a(page) == b(page);
      match SearchStep(target, page, maxPages, lastPage, found, a(page))
      case Stop(r) =>
      case Next(max, last, found') =>
        assert max <= maxPages;
        SearchFromLocal(a, b, target, page + 1, max, last, found');
    }
  }

  lemma {:induction false} ProfileFromLocal(a: Site, b: Site, target: set<int>, page: int, maxPages: int, lastPage: Option<int>, found: seq<int>)
    requires page >= 1 && maxPages <= PageLimit
    requires forall p :: page <= p <= maxPages ==> a(p) == b(p)
    ensures ProfileFrom(a, target, page, maxPages, lastPage, found) == ProfileFrom(b, target, page, maxPages, lastPage, found)
    decreases PageLimit + 1 - page
  {
    if page <= maxPages {
      assert a(page) == b(page);
      match ProfileStep(target, page, maxPages, lastPage, found, a(page))
      case Stop(r) =>
      case Next(max, last, found') =>
        assert max <= maxPages;
        ProfileFromLocal(a, b, target, page + 1, max, last, found');
    }
  }

  /** Two sites that agree on page 1 and on the pages up to the cap give the same paginated search result:
      no page past min(100, largest page number in page 1's links) is ever read. */
  lemma SearchReadsOnlyUpToCap(a: Site, b: Site, target: seq<int>)
    requires a(1) == b(1)
    requires forall p :: 1 <= p <= Cap(a) ==> a(p) == b(p)
    ensures SearchWalk(a, target) == SearchWalk(b, target)
  {
    var t := Elems(target);
    SearchFromStep(a, t, 1, PageLimit, None, []);
    SearchFromStep(b, t, 1, PageLimit, None, []);
    match SearchStep(t, 1, PageLimit, None, [], a(1))
    case Stop(r) =>
    case Next(max, last, found') =>
      assert max == Cap(a);
      SearchFromLocal(a, b, t, 2, max, last, found');
  }

  /** The same for the profile walker. */
  lemma ProfileReadsOnlyUpToCap(a: Site, b: Site, target: seq<int>)
    requires a(1) == b(1)
    requires forall p :: 1 <= p <= Cap(a) ==> a(p) == b(p)
    ensures ProfileWalk(a, target) == ProfileWalk(b, target)
  {
    var t := Elems(target);
    ProfileFromStep(a, t, 1, PageLimit, None, []);
    ProfileFromStep(b, t, 1, PageLimit, None, []);
    match ProfileStep(t, 1, PageLimit, None, [], a(1))
    case Stop(r) =>
    case Next(max, last, found') =>
      assert max == Cap(a);
      ProfileFromLocal(a, b, t, 2, max, last, found');
  }
}
