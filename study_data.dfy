/** The persisted bot data shared by the assignment, submission and channel commands:
    the studies with their assignments, and the registered users with their submission
    lists and blog links. The whole data file is a `Store` whose `users` map the
    commands update in place before saving. */
module StudyData {
  import opened Base

  /** A start_date or deadline in an assignment's config: missing or empty, present
      but not an ISO 8601 timestamp (datetime.fromisoformat raises), or the instant it
      names, in seconds as in Base. */
  datatype Bound = Unset | Malformed | At(t: int)

  /** The assignment's type field: 블로그, 문제풀이, 모의테스트, or any other value. */
  datatype Kind = Blog | ProblemSolving | MockTest | OtherKind

  /** An assignment with the config fields the rules read. minSolved holds
      config.get('min_solved', 1) and count holds config.get('count', 0);
      problemIds are a mock test's problems, problems a problem set's required IDs. */
  datatype Assignment = Assignment(
    id: string, kind: Kind, start: Bound, deadline: Bound,
    problemIds: seq<int>, minSolved: int, count: int, problems: seq<int>)

  /** One entry of data['studies']: the role name and its assignments in insertion order. */
  datatype Study = Study(role: string, assignments: seq<Assignment>)

  /** A submission record. link is "" where the record has no (or an empty) 'link';
      problemId is None where it has no 'problem_id'; verified is the 'verified' flag
      (False when absent); solved is a mock test's solved_problems. */
  datatype Entry = Entry(link: string, problemId: Option<int>, verified: bool, solved: seq<int>)

  /** An element of tistory_links: a {'link': ...} record, or a bare link string left
      by older versions of the bot. */
  datatype TistoryEntry = LinkRecord(link: string) | BareLink(link: string)

  /** A registered user: boj_handle ("" where missing or empty), submissions keyed by
      assignment ID or by the 블로그_일반 / 문제풀이_일반 keys, and tistory_links. */
  datatype User = User(handle: string, submissions: map<string, seq<Entry>>, tistory: seq<TistoryEntry>)

  /** The loaded data file; commands change `users` and then save it. */
  class Store {
    var users: map<string, User>

    constructor (users: map<string, User>)
      ensures this.users == users
    {
      this.users := users;
    }
  }

  /** submissions.get(key, []) */
  function SubsFor(u: User, key: string): seq<Entry> {
    if key in u.submissions then u.submissions[key] else []
  }

  /** Create the list under key when missing, then append e. */
  function AppendEntry(u: User, key: string, e: Entry): (r: User)
    ensures SubsFor(r, key) == SubsFor(u, key) + [e]
    ensures forall k :: k != key ==> SubsFor(r, k) == SubsFor(u, k)
    ensures r.handle == u.handle && r.tistory == u.tistory
  {
    u.(submissions := u.submissions[key := SubsFor(u, key) + [e]])
  }

  /** sub.get('problem_id') is truthy: present and not 0. */
  predicate HasProblemId(e: Entry) {
    e.problemId.Some? && e.problemId.value != 0
  }

  /** Some entry of the list carries the verified flag. */
  predicate AnyVerified(entries: seq<Entry>) {
    exists i :: 0 <= i < |entries| && entries[i].verified
  }

  /** What the status check reports for a member's problem: not solved (or no answer),
      or solved, with the submission time it found. */
  datatype Solve = Unsolved | Solved(at: Bound)

  /** A verified problem record as the problem submissions store it. */
  function ProblemRecord(problem: int): Entry {
    Entry("", Some(problem), true, [])
  }

  /** The truthy problem_id values of a submission list. */
  function IdsIn(entries: seq<Entry>): set<int> {
    set i | 0 <= i < |entries| && HasProblemId(entries[i]) :: entries[i].problemId.value
  }

  // ---------------------------------------------------------------------
  // Blog links.
  // ---------------------------------------------------------------------

  /** The key both blog commands file their records under. */
  const BlogKey: string := "블로그_일반"

  /** The key the general problem command files its records under. */
  const ProblemKey: string := "문제풀이_일반"

  /** What a blog submission answers; Raises stands for an exception that ends the
      command without a reply or a change. */
  datatype BlogOutcome = NotTistory | BlogUnregistered | DuplicateLink | Raises | BlogAccepted

  /** A blog record: the link, no problem and no verified flag. */
  function BlogRecord(link: string): Entry {
    Entry(link, None, false, [])
  }

  /** The truthy 'link' values of a submission list. */
  function LinksIn(entries: seq<Entry>): set<string> {
    set i | 0 <= i < |entries| && entries[i].link != "" :: entries[i].link
  }

  /** The truthy 'link' values across every submission list of the user. */
  function SubmissionLinks(u: User): set<string> {
    set k, l | k in u.submissions && l in LinksIn(u.submissions[k]) :: l
  }

  lemma LinksInSnoc(entries: seq<Entry>, e: Entry)
    ensures LinksIn(entries + [e]) == LinksIn(entries) + (if e.link != "" then {e.link} else {})
  {
    var es := entries + [e];
    forall l | l in LinksIn(es) ensures l in LinksIn(entries) || (e.link != "" && l == e.link) {
      var i :| 0 <= i < |es| && es[i].link != "" && es[i].link == l;
      if i < |entries| {
        assert entries[i] == es[i];
      }
    }
    forall l | l in LinksIn(entries) ensures l in LinksIn(es) {
      var i :| 0 <= i < |entries| && entries[i].link != "" && entries[i].link == l;
      assert es[i] == entries[i];
    }
    if e.link != "" {
      assert es[|entries|] == e;
    }
  }

  /** An accepted blog: one record under 블로그_일반 and one {'link'} entry in tistory_links. */
  function AddBlog(u: User, link: string): (r: User)
    ensures SubsFor(r, BlogKey) == SubsFor(u, BlogKey) + [BlogRecord(link)]
    ensures forall k :: k != BlogKey ==> SubsFor(r, k) == SubsFor(u, k)
    ensures r.tistory == u.tistory + [LinkRecord(link)] && r.handle == u.handle
  {
    AppendEntry(u, BlogKey, BlogRecord(link)).(tistory := u.tistory + [LinkRecord(link)])
  }

  /** The inner loop over one submission list. */
  method CollectEntryLinks(entries: seq<Entry>) returns (links: seq<string>)
    ensures forall l :: l in links <==> l in LinksIn(entries)
  {
    links := [];
    var i := 0;
    while i < |entries|
      invariant 0 <= i <= |entries|
      invariant forall l :: l in links <==> exists j :: 0 <= j < i && entries[j].link != "" && entries[j].link == l
    {
      if entries[i].link != "" {
        links := links + [entries[i].link];
      }
      i := i + 1;
    }
  }

  /** The outer loop over the user's submission lists; the map's keys are taken in some
      order, which only changes the order of the collected links. */
  method CollectSubmissionLinks(u: User) returns (links: seq<string>)
    ensures forall l :: l in links <==> l in SubmissionLinks(u)
  {
    links := [];
    var keys := u.submissions.Keys;
    while keys != {}
      invariant keys <= u.submissions.Keys
      invariant forall l :: l in links <==>
                  exists k :: k in u.submissions && k !in keys && l in LinksIn(u.submissions[k])
      decreases |keys|
    {
      var k :| k in keys;
      var more := CollectEntryLinks(u.submissions[k]);
      links := links + more;
      keys := keys - {k};
    }
  }

  // ---------------------------------------------------------------------
  // Finding a study's assignment and the first eligible one in role order.
  // ---------------------------------------------------------------------

  /** studies.get(role, {}).get('assignments', {}): the role names are the map's keys,
      so the first study with that role is the only one. */
  function AssignmentsOf(studies: seq<Study>, role: string): seq<Assignment> {
    if studies == [] then []
    else if studies[0].role == role then studies[0].assignments
    else AssignmentsOf(studies[1..], role)
  }

  /** assignments.get(id): the assignment with that ID, if any. */
  function FindById(assignments: seq<Assignment>, id: string): (r: Option<Assignment>)
    ensures r.Some? ==> r.value in assignments && r.value.id == id
    ensures r.None? ==> forall a :: a in assignments ==> a.id != id
  {
    if assignments == [] then None
    else if assignments[0].id == id then Some(assignments[0])
    else FindById(assignments[1..], id)
  }

  /** The first assignment, in insertion order, that the test accepts. */
  function FirstEligible(assignments: seq<Assignment>, eligible: Assignment -> bool): (r: Option<Assignment>)
    ensures r.None? <==> (forall i :: 0 <= i < |assignments| ==> !eligible(assignments[i]))
    ensures r.Some? ==> (exists i :: (0 <= i < |assignments| && assignments[i] == r.value
                                      && forall j :: 0 <= j < i ==> !eligible(assignments[j])))
    ensures r.Some? ==> eligible(r.value)
  {
    if assignments == [] then None
    else if eligible(assignments[0]) then
      assert assignments[0] == assignments[0];
      Some(assignments[0])
    else
      var r := FirstEligible(assignments[1..], eligible);
      FirstEligibleTail(assignments, eligible, r);
      r
  }

  /** The recursive case of FirstEligible: the first element fails the test. */
  lemma FirstEligibleTail(assignments: seq<Assignment>, eligible: Assignment -> bool, r: Option<Assignment>)
    requires assignments != [] && !eligible(assignments[0])
    requires var tail := assignments[1..];
             && (r.None? <==> (forall i :: 0 <= i < |tail| ==> !eligible(tail[i])))
             && (r.Some? ==> (exists i :: (0 <= i < |tail| && tail[i] == r.value
                                           && forall j :: 0 <= j < i ==> !eligible(tail[j]))))
    ensures r.None? <==> (forall i :: 0 <= i < |assignments| ==> !eligible(assignments[i]))
    ensures r.Some? ==> (exists i :: (0 <= i < |assignments| && assignments[i] == r.value
                                      && forall j :: 0 <= j < i ==> !eligible(assignments[j])))
  {
    var tail := assignments[1..];
    assert forall i :: 1 <= i < |assignments| ==> assignments[i] == tail[i - 1];
    if r.Some? {
      var i :| 0 <= i < |tail| && tail[i] == r.value && forall j :: 0 <= j < i ==> !eligible(tail[j]);
      assert assignments[i + 1] == r.value;
    }
  }

  /** The inner loop over one study's assignments, leaving at the first eligible one. */
  method FindEligible(assignments: seq<Assignment>, eligible: Assignment -> bool) returns (r: Option<Assignment>)
    ensures r == FirstEligible(assignments, eligible)
  {
    var i := 0;
    while i < |assignments|
      invariant 0 <= i <= |assignments|
      invariant FirstEligible(assignments, eligible) == FirstEligible(assignments[i..], eligible)
    {
      if eligible(assignments[i]) {
        return Some(assignments[i]);
      }
      assert assignments[i..][1..] == assignments[i + 1..];
      i := i + 1;
    }
    return None;
  }

  /** The role loop: each role's first eligible assignment replaces the one held so far,
      and the loop stops once the held assignment's ID is non-empty (`if assignment_id:
      break`). acc is the assignment held before the remaining roles. */
  function PickFrom(studies: seq<Study>, roles: seq<string>, eligible: Assignment -> bool,
                    acc: Option<Assignment>): Option<Assignment>
  {
    if roles == [] then acc
    else
      var f := FirstEligible(AssignmentsOf(studies, roles[0]), eligible);
      var held := if f.Some? then f else acc;
      if held.Some? && held.value.id != "" then held
      else PickFrom(studies, roles[1..], eligible, held)
  }

  /** The nested search both mock-test submit commands run over the author's roles. */
  method PickAssignment(studies: seq<Study>, roles: seq<string>, eligible: Assignment -> bool)
    returns (r: Option<Assignment>)
    ensures r == PickFrom(studies, roles, eligible, None)
  {
    r := None;
    var i := 0;
    while i < |roles|
      invariant 0 <= i <= |roles|
      invariant PickFrom(studies, roles, eligible, None) == PickFrom(studies, roles[i..], eligible, r)
    {
      var f := FindEligible(AssignmentsOf(studies, roles[i]), eligible);
      if f.Some? {
        r := f;
      }
      if r.Some? && r.value.id != "" {
        return;
      }
      assert roles[i..][1..] == roles[i + 1..];
      i := i + 1;
    }
  }

  /** The reference reading: the first role, in the author's role order, that has an
      eligible assignment, and that role's first eligible assignment. */
  function FirstByRole(studies: seq<Study>, roles: seq<string>, eligible: Assignment -> bool): Option<Assignment> {
    if roles == [] then None
    else
      var f := FirstEligible(AssignmentsOf(studies, roles[0]), eligible);
      if f.Some? then f else FirstByRole(studies, roles[1..], eligible)
  }

  /** Every stored assignment has a non-empty ID (they are generated from the group
      name, the type and a timestamp). */
  predicate IdsNonEmpty(studies: seq<Study>) {
    forall s :: s in studies ==> forall a :: a in s.assignments ==> a.id != ""
  }

  lemma {:induction false} AssignmentsOfIn(studies: seq<Study>, role: string, a: Assignment)
    requires a in AssignmentsOf(studies, role)
    ensures exists s :: s in studies && a in s.assignments
  {
    if studies[0].role != role {
      AssignmentsOfIn(studies[1..], role, a);
      var s :| s in studies[1..] && a in s.assignments;
      assert s in studies;
    }
  }

  /** With non-empty IDs the role loop picks the first role's first eligible assignment. */
  lemma {:induction false} PickFirstByRole(studies: seq<Study>, roles: seq<string>, eligible: Assignment -> bool)
    requires IdsNonEmpty(studies)
    ensures PickFrom(studies, roles, eligible, None) == FirstByRole(studies, roles, eligible)
  {
    if roles != [] {
      var f := FirstEligible(AssignmentsOf(studies, roles[0]), eligible);
      if f.Some? {
        AssignmentsOfIn(studies, roles[0], f.value);
      } else {
        PickFirstByRole(studies, roles[1..], eligible);
      }
    }
  }

  /** Whatever the IDs, the picked assignment passed the test, and once an assignment
      is held the search ends with one. */
  lemma {:induction false} PickEligible(studies: seq<Study>, roles: seq<string>, eligible: Assignment -> bool,
                                        acc: Option<Assignment>)
    requires acc.Some? ==> eligible(acc.value)
    ensures var r := PickFrom(studies, roles, eligible, acc);
            (r.Some? ==> eligible(r.value)) && (acc.Some? ==> r.Some?)
  {
    if roles != [] {
      var f := FirstEligible(AssignmentsOf(studies, roles[0]), eligible);
      var held := if f.Some? then f else acc;
      if !(held.Some? && held.value.id != "") {
        PickEligible(studies, roles[1..], eligible, held);
      }
    }
  }

  /** Nothing is picked exactly when none of the author's roles has an eligible assignment. */
  lemma {:induction false} PickNone(studies: seq<Study>, roles: seq<string>, eligible: Assignment -> bool)
    ensures PickFrom(studies, roles, eligible, None).None? <==>
            forall i :: 0 <= i < |roles| ==> FirstEligible(AssignmentsOf(studies, roles[i]), eligible).None?
  {
    if roles != [] {
      var f := FirstEligible(AssignmentsOf(studies, roles[0]), eligible);
      if f.Some? {
        if f.value.id == "" {
          PickEligible(studies, roles[1..], eligible, f);
        }
      } else {
        PickNone(studies, roles[1..], eligible);
        assert forall i :: 1 <= i < |roles| ==> roles[i] == roles[1..][i - 1];
      }
    }
  }
}
