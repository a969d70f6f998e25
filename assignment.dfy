/** The assignment commands: when an assignment is active, how the mock-test creation
    form reads its problem list and minimum, the mock-test self-submission with its
    automatic verification, the administrator's and the Sunday verification runs, and
    the problem and blog submissions of the assignment menu. */
module Assignments {
  import opened Base
  import opened StudyData
  import ProblemSet
  import Submissions

  // ---------------------------------------------------------------------
  // The active window.
  // ---------------------------------------------------------------------

  /** Active: not before a start that parses, and not after a deadline that parses. */
  predicate Active(start: Bound, deadline: Bound, now: int) {
    (start.At? ==> start.t <= now) && (deadline.At? ==> now <= deadline.t)
  }

  /** The is_active flag: it starts true, and each bound that is present and parses may
      clear it; a bound that fails to parse is skipped. */
  method IsActive(start: Bound, deadline: Bound, now: int) returns (active: bool)
    ensures active <==> Active(start, deadline, now)
  {
    active := true;
    if start.At? && now < start.t {
      active := false;
    }
    if deadline.At? && now > deadline.t {
      active := false;
    }
  }

  // ---------------------------------------------------------------------
  // The mock-test creation form.
  // ---------------------------------------------------------------------

  /** The problem field of the creation form: the integers, a list with no token, or
      a token int() rejects. */
  datatype IdsInput = Ids(ids: seq<int>) | NoIds | NotInteger

  /** int() of every non-empty token, in order; None once one of them is not an integer.
      The tokens are already stripped, so int()'s own stripping changes nothing. */
  function TokenInts(tokens: seq<string>): Option<seq<int>> {
    if tokens == [] then Some([])
    else
      var rest := TokenInts(tokens[..|tokens| - 1]);
      var p := tokens[|tokens| - 1];
      if rest.None? then None
      else if p == [] then rest
      else match IntOf(p)
        case None => None
        case Some(v) => Some(rest.value + [v])
  }

  /** The comprehension over the stripped comma-separated pieces, then the empty check. */
  function MockProblemIds(text: string): IdsInput {
    match TokenInts(ProblemSet.TokensOfText(text))
    case None => NotInteger
    case Some(ids) => if ids == [] then NoIds else Ids(ids)
  }

  /** config['min_solved']: int() of the stripped field, and 1 for a blank field or one
      int() rejects. */
  function MinSolved(text: string): (r: int)
    ensures r == (if PyInt(text).Some? then PyInt(text).value else 1)
  {
    var t := Strip(text);
    if t == [] then 1
    else match IntOf(t)
      case None => 1
      case Some(v) => v
  }

  lemma {:induction false} TokenIntsRejects(tokens: seq<string>)
    ensures TokenInts(tokens).None? <==>
            exists j :: 0 <= j < |tokens| && tokens[j] != [] && IntOf(tokens[j]).None?
  {
    if tokens != [] {
      var init := tokens[..|tokens| - 1];
      TokenIntsRejects(init);
      assert forall j :: 0 <= j < |init| ==> init[j] == tokens[j];
    }
  }

  lemma {:induction false} TokenIntsEmpty(tokens: seq<string>)
    ensures TokenInts(tokens) == Some([]) <==> forall j :: 0 <= j < |tokens| ==> tokens[j] == []
  {
    if tokens != [] {
      var init := tokens[..|tokens| - 1];
      TokenIntsEmpty(init);
      assert forall j :: 0 <= j < |init| ==> init[j] == tokens[j];
    }
  }

  /** The form is refused as a whole when any non-empty token is not an integer, and
      refused as empty exactly when every token is empty. */
  lemma MockProblemIdsRejects(text: string, tokens: seq<string>)
    requires tokens == ProblemSet.TokensOfText(text)
    ensures MockProblemIds(text) == NotInteger <==>
            exists j :: 0 <= j < |tokens| && tokens[j] != [] && IntOf(tokens[j]).None?
    ensures MockProblemIds(text) == NoIds <==> forall j :: 0 <= j < |tokens| ==> tokens[j] == []
  {
    var r := TokenInts(tokens);
    assert MockProblemIds(text) == if r.None? then NotInteger else if r.value == [] then NoIds else Ids(r.value);
    TokenIntsRejects(tokens);
    TokenIntsEmpty(tokens);
  }

  lemma {:induction false} TokenIntsOfRendered(ids: seq<int>)
    requires forall i :: 0 <= i < |ids| ==> ids[i] >= 0
    ensures TokenInts(ProblemSet.IdText(ids)) == Some(ids)
  {
    if ids != [] {
      var tokens := ProblemSet.IdText(ids);
      var init := ids[..|ids| - 1];
      var last := ids[|ids| - 1];
      TokenIntsOfRendered(init);
      assert tokens[..|tokens| - 1] == ProblemSet.IdText(init);
      var p := tokens[|tokens| - 1];
      assert p == Str(last);
      assert IsDigits(p);
      assert IntOf(p) == Some(last);
      assert ids == init + [last];
    }
  }

  /** Unlike a problem set's list, a mock test keeps the order and the repeats typed:
      any non-empty list of non-negative numbers written back comes out unchanged. */
  lemma MockProblemIdsRoundTrip(ids: seq<int>)
    requires ids != []
    requires forall i :: 0 <= i < |ids| ==> ids[i] >= 0
    ensures MockProblemIds(Join(ProblemSet.IdText(ids), ',')) == Ids(ids)
  {
    ProblemSet.TokensOfJoined(ids);
    TokenIntsOfRendered(ids);
  }

  /** The minimum written back comes out unchanged. */
  lemma MinSolvedRendered(n: nat)
    ensures MinSolved(Str(n)) == n
  {
    StripKeeps(Str(n));
  }

  // ---------------------------------------------------------------------
  // Checking a member's problems.
  // ---------------------------------------------------------------------

  /** The problems the test accepts, in their order. */
  function SolvedOf(ids: seq<int>, solved: int -> bool): seq<int> {
    if ids == [] then []
    else
      var rest := SolvedOf(ids[..|ids| - 1], solved);
      if solved(ids[|ids| - 1]) then rest + [ids[|ids| - 1]] else rest
  }

  /** The problems the test rejects, in their order. */
  function FailedOf(ids: seq<int>, solved: int -> bool): seq<int> {
    SolvedOf(ids, Not(solved))
  }

  function Not(solved: int -> bool): int -> bool {
    p => !solved(p)
  }

  /** check_problem_solved_from_status(handle, p) reports p as solved. */
  function CheckOf(solvedBy: (string, int) -> bool, handle: string): int -> bool {
    p => solvedBy(handle, p)
  }

  /** The loop over problem_ids filling solved_problems and failed_problems. */
  method CheckProblems(ids: seq<int>, solved: int -> bool) returns (solvedIds: seq<int>, failed: seq<int>)
    ensures solvedIds == SolvedOf(ids, solved)
    ensures failed == FailedOf(ids, solved)
  {
    solvedIds, failed := [], [];
    var i := 0;
    while i < |ids|
      invariant 0 <= i <= |ids|
      invariant solvedIds == SolvedOf(ids[..i], solved)
      invariant failed == FailedOf(ids[..i], solved)
    {
      assert ids[..i + 1][..i] == ids[..i];
      if solved(ids[i]) {
        solvedIds := solvedIds + [ids[i]];
      } else {
        failed := failed + [ids[i]];
      }
      i := i + 1;
    }
    assert ids[..|ids|] == ids;
  }

  /** solved_problems and failed_problems split problem_ids: together they hold every
      problem exactly as often as the list does, the first only solved ones and the
      second only unsolved ones. */
  lemma {:induction false} Partition(ids: seq<int>, solved: int -> bool)
    ensures multiset(SolvedOf(ids, solved)) + multiset(FailedOf(ids, solved)) == multiset(ids)
    ensures forall x :: x in SolvedOf(ids, solved) ==> solved(x)
    ensures forall x :: x in FailedOf(ids, solved) ==> !solved(x)
  {
    if ids != [] {
      var init := ids[..|ids| - 1];
      Partition(init, solved);
      assert ids == init + [ids[|ids| - 1]];
    }
  }

  // ---------------------------------------------------------------------
  // The mock-test self-submission.
  // ---------------------------------------------------------------------

  /** What the self-submission answers; the last three store a record. */
  datatype MockOutcome =
    | NotRegistered | NoHandle | NoGroup | NoActiveMockTest | AlreadySubmitted
    | TooFewSolved(solved: seq<int>, failed: seq<int>)
    | AutoVerified(solved: seq<int>, failed: seq<int>)
    | ManualSubmitted

  /** A mock test whose window holds now. */
  function ActiveMockTest(now: int): Assignment -> bool {
    (a: Assignment) => a.kind == MockTest && Active(a.start, a.deadline, now)
  }

  /** The automatically verified record with its solved_problems. */
  function MockRecord(solved: seq<int>): Entry {
    Entry("", None, true, solved)
  }

  /** The record of a mock test without a problem list, left for the staff to check. */
  const ManualRecord: Entry := Entry("", None, false, [])

  function SelfSubmitOutcome(users: map<string, User>, uid: string, roles: seq<string>, studies: seq<Study>,
                             now: int, solvedBy: (string, int) -> bool): MockOutcome
  {
    if uid !in users then NotRegistered
    else if users[uid].handle == "" then NoHandle
    else if roles == [] then NoGroup
    else match PickFrom(studies, roles, ActiveMockTest(now), None)
      case None => NoActiveMockTest
      case Some(a) =>
        if SubsFor(users[uid], a.id) != [] then AlreadySubmitted
        else if a.problemIds == [] then ManualSubmitted
        else
          var check := CheckOf(solvedBy, users[uid].handle);
          var s := SolvedOf(a.problemIds, check);
          var f := FailedOf(a.problemIds, check);
          if |s| >= a.minSolved then AutoVerified(s, f) else TooFewSolved(s, f)
  }

  /** The users map after the self-submission: one record under the picked mock test,
      for the outcomes that store one. */
  function SelfSubmitEffect(users: map<string, User>, uid: string, roles: seq<string>, studies: seq<Study>,
                            now: int, solvedBy: (string, int) -> bool): map<string, User>
  {
    var out := SelfSubmitOutcome(users, uid, roles, studies, now, solvedBy);
    if out.AutoVerified? || out.ManualSubmitted? then
      var a := PickFrom(studies, roles, ActiveMockTest(now), None).value;
      users[uid := AppendEntry(users[uid], a.id, if out.AutoVerified? then MockRecord(out.solved) else ManualRecord)]
    else users
  }

  method SubmitMockTest(store: Store, uid: string, roles: seq<string>, studies: seq<Study>,
                        now: int, solvedBy: (string, int) -> bool) returns (out: MockOutcome)
    modifies store
    ensures out == SelfSubmitOutcome(old(store.users), uid, roles, studies, now, solvedBy)
    ensures store.users == SelfSubmitEffect(old(store.users), uid, roles, studies, now, solvedBy)
  {
    if uid !in store.users {
      return NotRegistered;
    }
    var user := store.users[uid];
    if user.handle == "" {
      return NoHandle;
    }
    if roles == [] {
      return NoGroup;
    }
    var picked := PickAssignment(studies, roles, ActiveMockTest(now));
    if picked.None? {
      return NoActiveMockTest;
    }
    var a := picked.value;
    if SubsFor(user, a.id) != [] {
      return AlreadySubmitted;
    }
    if a.problemIds != [] {
      var solvedIds, failed := CheckProblems(a.problemIds, CheckOf(solvedBy, user.handle));
      if |solvedIds| >= a.minSolved {
        store.users := store.users[uid := AppendEntry(user, a.id, MockRecord(solvedIds))];
        return AutoVerified(solvedIds, failed);
      }
      return TooFewSolved(solvedIds, failed);
    }
    store.users := store.users[uid := AppendEntry(user, a.id, ManualRecord)];
    return ManualSubmitted;
  }

  /** Automatic verification exactly when at least min_solved of the listed problems are
      solved; either way the solved and failed lists split the problem list. */
  lemma SelfSubmitVerifies(users: map<string, User>, uid: string, roles: seq<string>, studies: seq<Study>,
                           now: int, solvedBy: (string, int) -> bool)
    requires var out := SelfSubmitOutcome(users, uid, roles, studies, now, solvedBy);
             out.AutoVerified? || out.TooFewSolved?
    ensures var out := SelfSubmitOutcome(users, uid, roles, studies, now, solvedBy);
            var a := PickFrom(studies, roles, ActiveMockTest(now), None).value;
            && a.kind == MockTest && Active(a.start, a.deadline, now)
            && SubsFor(users[uid], a.id) == []
            && (out.AutoVerified? <==> |out.solved| >= a.minSolved)
            && multiset(out.solved) + multiset(out.failed) == multiset(a.problemIds)
            && (forall x :: x in out.solved ==> solvedBy(users[uid].handle, x))
            && (forall x :: x in out.failed ==> !solvedBy(users[uid].handle, x))
  {
    PickEligible(studies, roles, ActiveMockTest(now), None);
    var a := PickFrom(studies, roles, ActiveMockTest(now), None).value;
    Partition(a.problemIds, CheckOf(solvedBy, users[uid].handle));
  }

  /** A second self-submission with the same inputs is refused and stores nothing, so a
      member never holds two records from it. */
  lemma SelfSubmitOnce(users: map<string, User>, uid: string, roles: seq<string>, studies: seq<Study>,
                       now: int, solvedBy: (string, int) -> bool)
    requires var out := SelfSubmitOutcome(users, uid, roles, studies, now, solvedBy);
             out.AutoVerified? || out.ManualSubmitted?
    ensures var after := SelfSubmitEffect(users, uid, roles, studies, now, solvedBy);
            && SelfSubmitOutcome(after, uid, roles, studies, now, solvedBy) == AlreadySubmitted
            && SelfSubmitEffect(after, uid, roles, studies, now, solvedBy) == after
  {
    var a := PickFrom(studies, roles, ActiveMockTest(now), None).value;
    var after := SelfSubmitEffect(users, uid, roles, studies, now, solvedBy);
    assert SubsFor(after[uid], a.id) != [];
  }

  // ---------------------------------------------------------------------
  // The administrator's and the scheduled verification runs.
  // ---------------------------------------------------------------------

  /** The problems of the mock test the member's handle has solved. */
  function SolvedBy(users: map<string, User>, uid: string, a: Assignment, solvedBy: (string, int) -> bool): seq<int>
    requires uid in users
  {
    SolvedOf(a.problemIds, CheckOf(solvedBy, users[uid].handle))
  }

  /** The run appends a verified record for this member: registered, with a handle,
      at least min_solved problems solved, and no verified record yet. */
  predicate Appends(users: map<string, User>, uid: string, a: Assignment, solvedBy: (string, int) -> bool) {
    && uid in users && users[uid].handle != ""
    && |SolvedBy(users, uid, a, solvedBy)| >= a.minSolved
    && !AnyVerified(SubsFor(users[uid], a.id))
  }

  function Verified(users: map<string, User>, uid: string, a: Assignment, solvedBy: (string, int) -> bool): User
    requires uid in users
  {
    AppendEntry(users[uid], a.id, MockRecord(SolvedBy(users, uid, a, solvedBy)))
  }

  function VerifyOne(users: map<string, User>, uid: string, a: Assignment, solvedBy: (string, int) -> bool): map<string, User> {
    if Appends(users, uid, a, solvedBy) then users[uid := Verified(users, uid, a, solvedBy)] else users
  }

  /** The member loop of one mock test. */
  function VerifyAll(users: map<string, User>, members: seq<string>, a: Assignment, solvedBy: (string, int) -> bool): map<string, User> {
    if members == [] then users
    else VerifyOne(VerifyAll(users, members[..|members| - 1], a, solvedBy), members[|members| - 1], a, solvedBy)
  }

  /** The number of records the member loop appends. */
  function AppendCount(users: map<string, User>, members: seq<string>, a: Assignment, solvedBy: (string, int) -> bool): nat {
    if members == [] then 0
    else
      var init := members[..|members| - 1];
      AppendCount(users, init, a, solvedBy)
        + (if Appends(VerifyAll(users, init, a, solvedBy), members[|members| - 1], a, solvedBy) then 1 else 0)
  }

  /** The members' loop of one mock test, counting the records it appends. */
  method VerifyMembers(store: Store, members: seq<string>, a: Assignment, solvedBy: (string, int) -> bool)
    returns (appended: nat)
    modifies store
    ensures store.users == VerifyAll(old(store.users), members, a, solvedBy)
    ensures appended == AppendCount(old(store.users), members, a, solvedBy)
  {
    ghost var start := store.users;
    appended := 0;
    var i := 0;
    while i < |members|
      invariant 0 <= i <= |members|
      invariant store.users == VerifyAll(start, members[..i], a, solvedBy)
      invariant appended == AppendCount(start, members[..i], a, solvedBy)
    {
      assert members[..i + 1][..i] == members[..i];
      var uid := members[i];
      if uid in store.users && store.users[uid].handle != "" {
        var user := store.users[uid];
        var solvedIds, _ := CheckProblems(a.problemIds, CheckOf(solvedBy, user.handle));
        if |solvedIds| >= a.minSolved {
          var existing := SubsFor(user, a.id);
          var found := FindVerified(existing);
          if !found {
            store.users := store.users[uid := AppendEntry(user, a.id, MockRecord(solvedIds))];
            appended := appended + 1;
          }
        }
      }
      i := i + 1;
    }
    assert members[..|members|] == members;
  }

  /** The `existing` comprehension's emptiness test. */
  method FindVerified(entries: seq<Entry>) returns (found: bool)
    ensures found <==> AnyVerified(entries)
  {
    found := false;
    var i := 0;
    while i < |entries|
      invariant 0 <= i <= |entries|
      invariant found <==> exists j :: 0 <= j < i && entries[j].verified
    {
      if entries[i].verified {
        found := true;
      }
      i := i + 1;
    }
  }

  /** The member loop in closed form: exactly the listed members the run accepts get one
      verified record each, however often they are listed; everything else is as it was. */
  lemma {:induction false} VerifyAllState(users: map<string, User>, members: seq<string>, a: Assignment,
                                          solvedBy: (string, int) -> bool)
    ensures VerifyAll(users, members, a, solvedBy).Keys == users.Keys
    ensures forall u :: u in users ==>
              VerifyAll(users, members, a, solvedBy)[u] ==
              (if u in members && Appends(users, u, a, solvedBy) then Verified(users, u, a, solvedBy) else users[u])
  {
    if members != [] {
      var init := members[..|members| - 1];
      var last := members[|members| - 1];
      VerifyAllState(users, init, a, solvedBy);
      var mid := VerifyAll(users, init, a, solvedBy);
      assert forall u :: u in members <==> u in init || u == last;
      if last in users {
        AppendsAfter(users, mid, last, init, a, solvedBy);
      }
    }
  }

  /** The step of VerifyAllState for the member handled last. */
  lemma AppendsAfter(users: map<string, User>, mid: map<string, User>, u: string, init: seq<string>,
                     a: Assignment, solvedBy: (string, int) -> bool)
    requires u in users && u in mid
    requires mid[u] == (if u in init && Appends(users, u, a, solvedBy) then Verified(users, u, a, solvedBy) else users[u])
    ensures Appends(mid, u, a, solvedBy) <==> Appends(users, u, a, solvedBy) && u !in init
    ensures Appends(mid, u, a, solvedBy) ==> Verified(mid, u, a, solvedBy) == Verified(users, u, a, solvedBy)
  {
    if u in init && Appends(users, u, a, solvedBy) {
      var es := SubsFor(mid[u], a.id);
      assert es[|es| - 1].verified;
    }
  }

  /** total_verified counts the members who got a record, each once. */
  lemma {:induction false} AppendCountSpec(users: map<string, User>, members: seq<string>, a: Assignment,
                                           solvedBy: (string, int) -> bool)
    ensures AppendCount(users, members, a, solvedBy) ==
            |set u | u in members && Appends(users, u, a, solvedBy)|
  {
    if members != [] {
      var init := members[..|members| - 1];
      var last := members[|members| - 1];
      AppendCountSpec(users, init, a, solvedBy);
      VerifyAllState(users, init, a, solvedBy);
      assert members == init + [last];
      if last in users {
        AppendsAfter(users, VerifyAll(users, init, a, solvedBy), last, init, a, solvedBy);
      }
      AppendedStep(users, init, last, a, solvedBy);
    }
  }

  lemma AppendedStep(users: map<string, User>, init: seq<string>, last: string, a: Assignment,
                     solvedBy: (string, int) -> bool)
    ensures |set u | u in init + [last] && Appends(users, u, a, solvedBy)| ==
            |set u | u in init && Appends(users, u, a, solvedBy)|
              + (if Appends(users, last, a, solvedBy) && last !in init then 1 else 0)
  {
    var before := set u | u in init && Appends(users, u, a, solvedBy);
    var now := set u | u in init + [last] && Appends(users, u, a, solvedBy);
    assert forall u :: u in init + [last] <==> u in init || u == last;
    if Appends(users, last, a, solvedBy) && last !in init {
      assert now == before + {last};
    } else {
      assert now == before;
    }
  }

  /** A second run over the same members appends nothing and changes nothing. */
  lemma VerifyAllIdempotent(users: map<string, User>, members: seq<string>, a: Assignment,
                            solvedBy: (string, int) -> bool)
    ensures var after := VerifyAll(users, members, a, solvedBy);
            VerifyAll(after, members, a, solvedBy) == after && AppendCount(after, members, a, solvedBy) == 0
  {
    var after := VerifyAll(users, members, a, solvedBy);
    VerifyAllState(users, members, a, solvedBy);
    VerifyAllState(after, members, a, solvedBy);
    AppendCountSpec(after, members, a, solvedBy);
    forall u | u in members && u in users
      ensures !Appends(after, u, a, solvedBy)
    {
      AppendsAfter(users, after, u, members, a, solvedBy);
    }
    assert (set u | u in members && Appends(after, u, a, solvedBy)) == {};
  }

  /** A mock test of a study together with that study's role name. */
  datatype Target = Target(role: string, assignment: Assignment)

  /** One study's assignments the test accepts, in order. */
  function KeepIn(role: string, assignments: seq<Assignment>, keep: Assignment -> bool): seq<Target> {
    if assignments == [] then []
    else
      var rest := KeepIn(role, assignments[..|assignments| - 1], keep);
      var a := assignments[|assignments| - 1];
      if keep(a) then rest + [Target(role, a)] else rest
  }

  /** The nested loop over the studies and their assignments. */
  function TargetsOf(studies: seq<Study>, keep: Assignment -> bool): seq<Target> {
    if studies == [] then []
    else
      var last := studies[|studies| - 1];
      TargetsOf(studies[..|studies| - 1], keep) + KeepIn(last.role, last.assignments, keep)
  }

  method CollectTargets(studies: seq<Study>, keep: Assignment -> bool) returns (ts: seq<Target>)
    ensures ts == TargetsOf(studies, keep)
  {
    ts := [];
    var i := 0;
    while i < |studies|
      invariant 0 <= i <= |studies|
      invariant ts == TargetsOf(studies[..i], keep)
    {
      assert studies[..i + 1][..i] == studies[..i];
      var study := studies[i];
      ghost var before := ts;
      var j := 0;
      while j < |study.assignments|
        invariant 0 <= j <= |study.assignments|
        invariant ts == before + KeepIn(study.role, study.assignments[..j], keep)
      {
        assert study.assignments[..j + 1][..j] == study.assignments[..j];
        if keep(study.assignments[j]) {
          ts := ts + [Target(study.role, study.assignments[j])];
        }
        j := j + 1;
      }
      assert study.assignments[..j] == study.assignments;
      i := i + 1;
    }
    assert studies[..i] == studies;
  }

  lemma {:induction false} KeepInSpec(role: string, assignments: seq<Assignment>, keep: Assignment -> bool, t: Target)
    ensures t in KeepIn(role, assignments, keep) <==> t.role == role && t.assignment in assignments && keep(t.assignment)
  {
    if assignments != [] {
      var init := assignments[..|assignments| - 1];
      KeepInSpec(role, init, keep, t);
      assert assignments == init + [assignments[|assignments| - 1]];
    }
  }

  /** A target is a study's role with one of that study's assignments the test accepts. */
  lemma {:induction false} TargetsOfSpec(studies: seq<Study>, keep: Assignment -> bool, t: Target)
    ensures t in TargetsOf(studies, keep) <==>
            exists s :: s in studies && t.role == s.role && t.assignment in s.assignments && keep(t.assignment)
  {
    if studies != [] {
      var init := studies[..|studies| - 1];
      var last := studies[|studies| - 1];
      TargetsOfSpec(init, keep, t);
      KeepInSpec(last.role, last.assignments, keep, t);
      assert studies == init + [last];
      assert forall s :: s in studies <==> s in init || s == last;
    }
  }

  /** The administrator's filter by assignment ID. */
  function WithId(ts: seq<Target>, id: string): (r: seq<Target>)
    ensures forall t :: t in r <==> t in ts && t.assignment.id == id
  {
    if ts == [] then []
    else
      var rest := WithId(ts[..|ts| - 1], id);
      var t := ts[|ts| - 1];
      assert ts == ts[..|ts| - 1] + [t];
      if t.assignment.id == id then rest + [t] else rest
  }

  /** The member loops of a list of targets, in order. */
  function VerifyTargets(users: map<string, User>, ts: seq<Target>, members: string -> seq<string>,
                         solvedBy: (string, int) -> bool): map<string, User>
  {
    if ts == [] then users
    else
      var t := ts[|ts| - 1];
      VerifyAll(VerifyTargets(users, ts[..|ts| - 1], members, solvedBy), members(t.role), t.assignment, solvedBy)
  }

  /** The appended records of all the targets' member loops. */
  function TargetsCount(users: map<string, User>, ts: seq<Target>, members: string -> seq<string>,
                        solvedBy: (string, int) -> bool): nat
  {
    if ts == [] then 0
    else
      var t := ts[|ts| - 1];
      var init := ts[..|ts| - 1];
      TargetsCount(users, init, members, solvedBy)
        + AppendCount(VerifyTargets(users, init, members, solvedBy), members(t.role), t.assignment, solvedBy)
  }

  /** The loop over the targets, adding up total_verified. */
  method VerifyEach(store: Store, ts: seq<Target>, members: string -> seq<string>, solvedBy: (string, int) -> bool)
    returns (total: nat)
    modifies store
    ensures store.users == VerifyTargets(old(store.users), ts, members, solvedBy)
    ensures total == TargetsCount(old(store.users), ts, members, solvedBy)
  {
    ghost var start := store.users;
    total := 0;
    var i := 0;
    while i < |ts|
      invariant 0 <= i <= |ts|
      invariant store.users == VerifyTargets(start, ts[..i], members, solvedBy)
      invariant total == TargetsCount(start, ts[..i], members, solvedBy)
    {
      assert ts[..i + 1][..i] == ts[..i];
      var n := VerifyMembers(store, members(ts[i].role), ts[i].assignment, solvedBy);
      total := total + n;
      i := i + 1;
    }
    assert ts[..i] == ts;
  }

  /** The administrator's run covers active mock tests that list problems. */
  function AdminTarget(now: int): Assignment -> bool {
    (a: Assignment) => a.kind == MockTest && a.problemIds != [] && Active(a.start, a.deadline, now)
  }

  /** The administrator's targets: every such mock test, or only the one with the given
      ID when an ID is given ("" gives none). */
  function AdminTargets(studies: seq<Study>, now: int, only: string): seq<Target> {
    var ts := TargetsOf(studies, AdminTarget(now));
    if only != "" then WithId(ts, only) else ts
  }

  datatype VerifyOutcome = UnknownAssignment | NothingToVerify | VerifiedMembers(total: nat)

  /** The administrator's verification command. members(role) lists the guild's members
      holding the role (none when the guild has no such role). */
  method VerifyMockTests(store: Store, studies: seq<Study>, now: int, only: string,
                         members: string -> seq<string>, solvedBy: (string, int) -> bool)
    returns (out: VerifyOutcome)
    modifies store
    ensures var ts := AdminTargets(studies, now, only);
      && (ts == [] ==> out == (if only != "" then UnknownAssignment else NothingToVerify)
                       && store.users == old(store.users))
      && (ts != [] ==> out == VerifiedMembers(TargetsCount(old(store.users), ts, members, solvedBy))
                       && store.users == VerifyTargets(old(store.users), ts, members, solvedBy))
  {
    var ts := CollectTargets(studies, AdminTarget(now));
    if only != "" {
      ts := WithId(ts, only);
      if ts == [] {
        return UnknownAssignment;
      }
    }
    if ts == [] {
      return NothingToVerify;
    }
    var total := VerifyEach(store, ts, members, solvedBy);
    return VerifiedMembers(total);
  }

  /** The administrator's run reaches exactly the active mock tests with a problem list
      (with the given ID, when one is given). */
  lemma AdminTargetsSpec(studies: seq<Study>, now: int, only: string, t: Target)
    ensures t in AdminTargets(studies, now, only) <==>
            && (exists s :: s in studies && t.role == s.role && t.assignment in s.assignments)
            && t.assignment.kind == MockTest && t.assignment.problemIds != []
            && Active(t.assignment.start, t.assignment.deadline, now)
            && (only == "" || t.assignment.id == only)
  {
    TargetsOfSpec(studies, AdminTarget(now), t);
  }

  /** The Sunday run covers mock tests that list problems and whose deadline parses and
      is not after now; a missing or unparseable deadline skips the test. */
  function DueMockTest(now: int): Assignment -> bool {
    (a: Assignment) => a.kind == MockTest && a.problemIds != [] && a.deadline.At? && !(now < a.deadline.t)
  }

  /** The daily 11:00 task, which does its work only on Sundays. members(role) lists the
      members holding the role in every guild the bot is in. */
  method AutoVerifyMockTests(store: Store, studies: seq<Study>, now: int,
                             members: string -> seq<string>, solvedBy: (string, int) -> bool)
    modifies store
    ensures Weekday(now) != 6 ==> store.users == old(store.users)
    ensures Weekday(now) == 6 ==>
              store.users == VerifyTargets(old(store.users), TargetsOf(studies, DueMockTest(now)), members, solvedBy)
  {
    if Weekday(now) != 6 {
      return;
    }
    var ts := CollectTargets(studies, DueMockTest(now));
    var _ := VerifyEach(store, ts, members, solvedBy);
  }

  /** The Sunday run reaches exactly the mock tests with a problem list whose deadline has
      passed (or is now). */
  lemma DueTargetsSpec(studies: seq<Study>, now: int, t: Target)
    ensures t in TargetsOf(studies, DueMockTest(now)) <==>
            && (exists s :: s in studies && t.role == s.role && t.assignment in s.assignments)
            && t.assignment.kind == MockTest && t.assignment.problemIds != []
            && t.assignment.deadline.At? && t.assignment.deadline.t <= now
  {
    TargetsOfSpec(studies, DueMockTest(now), t);
  }

  // ---------------------------------------------------------------------
  // A problem submitted through the assignment menu.
  // ---------------------------------------------------------------------

  datatype ProblemOutcome =
    | NotANumber | UserKeyError | ProblemNoHandle | NoAssignment | Inactive | NotSolved
    | TooOld(days: int) | DuplicateProblem | ProblemAccepted(problem: int)

  /** (now - then).days: whole days elapsed, rounded down as timedelta.days is. */
  function DaysSince(now: int, t: int): int {
    (now - t) / DaySeconds
  }

  /** The checks after the assignment is found: active, solved, solved recently enough,
      and not yet recorded for this assignment. */
  function ProblemCheck(u: User, problem: int, aid: string, a: Assignment, now: int,
                        check: (string, int) -> Solve): ProblemOutcome
  {
    if !Active(a.start, a.deadline, now) then Inactive
    else match check(u.handle, problem)
      case Unsolved => NotSolved
      case Solved(at) =>
        if at.At? && DaysSince(now, at.t) > 7 then TooOld(DaysSince(now, at.t))
        else if problem in IdsIn(SubsFor(u, aid)) then DuplicateProblem
        else ProblemAccepted(problem)
  }

  /** The modal's answer for the problem field text, the group's role and assignment ID,
      and the status check check(handle, problem). The field is read with int(), which
      ignores surrounding whitespace, so the source's extra strip() changes nothing. */
  function ProblemVerdict(users: map<string, User>, uid: string, text: string, role: string, aid: string,
                          studies: seq<Study>, now: int, check: (string, int) -> Solve): ProblemOutcome
  {
    match PyInt(text)
    case None => NotANumber
    case Some(problem) =>
      if uid !in users then UserKeyError
      else if users[uid].handle == "" then ProblemNoHandle
      else match FindById(AssignmentsOf(studies, role), aid)
        case None => NoAssignment
        case Some(a) => ProblemCheck(users[uid], problem, aid, a, now, check)
  }

  /** The modal's submit handler. An unregistered user makes the source raise KeyError. */
  method SubmitProblem(store: Store, uid: string, text: string, role: string, aid: string,
                       studies: seq<Study>, now: int, check: (string, int) -> Solve)
    returns (out: ProblemOutcome)
    modifies store
    ensures out == ProblemVerdict(old(store.users), uid, text, role, aid, studies, now, check)
    ensures out.ProblemAccepted? ==>
              store.users == old(store.users)[uid := AppendEntry(old(store.users)[uid], aid, ProblemRecord(out.problem))]
    ensures !out.ProblemAccepted? ==> store.users == old(store.users)
  {
    var parsed := PyInt(text);
    if parsed.None? {
      return NotANumber;
    }
    var problem := parsed.value;
    if uid !in store.users {
      return UserKeyError;
    }
    var user := store.users[uid];
    if user.handle == "" {
      return ProblemNoHandle;
    }
    var found := FindById(AssignmentsOf(studies, role), aid);
    if found.None? {
      return NoAssignment;
    }
    var a := found.value;
    var active := IsActive(a.start, a.deadline, now);
    if !active {
      return Inactive;
    }
    var solve := check(user.handle, problem);
    if solve.Unsolved? {
      return NotSolved;
    }
    if solve.at.At? {
      var days := DaysSince(now, solve.at.t);
      if days > 7 {
        return TooOld(days);
      }
    }
    if problem in IdsIn(SubsFor(user, aid)) {
      return DuplicateProblem;
    }
    store.users := store.users[uid := AppendEntry(user, aid, ProblemRecord(problem))];
    return ProblemAccepted(problem);
  }

  /** More than 7 days means at least eight full days between the solve and now. */
  lemma TooOldSpec(now: int, t: int)
    ensures DaysSince(now, t) > 7 <==> now - t >= 8 * DaySeconds
  {
    var d := DaysSince(now, t);
    assert d * DaySeconds <= now - t < (d + 1) * DaySeconds;
    if d > 7 {
      assert d * DaySeconds >= 8 * DaySeconds;
    } else {
      assert (d + 1) * DaySeconds <= 8 * DaySeconds;
    }
  }

  /** The same problem submitted again for the assignment is refused as a duplicate
      (problem 0 is never recorded as an ID, being falsy). */
  lemma ProblemResubmitRejected(u: User, problem: int, aid: string, a: Assignment, now: int,
                                check: (string, int) -> Solve)
    requires ProblemCheck(u, problem, aid, a, now, check) == ProblemAccepted(problem)
    requires problem != 0
    ensures ProblemCheck(AppendEntry(u, aid, ProblemRecord(problem)), problem, aid, a, now, check) == DuplicateProblem
  {
    var es := SubsFor(AppendEntry(u, aid, ProblemRecord(problem)), aid);
    assert HasProblemId(es[|es| - 1]);
    assert problem in IdsIn(es);
  }

  // ---------------------------------------------------------------------
  // A blog submitted through the assignment menu, as written.
  // ---------------------------------------------------------------------

  /** The {'link'} records' links of tistory_links. */
  function RecordLinks(ts: seq<TistoryEntry>): set<string> {
    set i | 0 <= i < |ts| && ts[i].LinkRecord? :: ts[i].link
  }

  /** all_links as the assignment-menu blog command builds it: its `else` belongs to the
      `for`, so only records add their link inside the loop, and after the loop the last
      element itself is added once. A last record adds a dict, which equals no link; an
      empty tistory_links leaves link_data unbound and the command raises (None). */
  function AsWrittenLinks(u: User): Option<set<string>> {
    if u.tistory == [] then None
    else
      var last := u.tistory[|u.tistory| - 1];
      Some(SubmissionLinks(u) + RecordLinks(u.tistory) + (if last.BareLink? then {last.link} else {}))
  }

  method CollectLinksAsWritten(u: User) returns (links: Option<seq<string>>)
    ensures links.None? <==> AsWrittenLinks(u).None?
    ensures links.Some? ==> forall l :: l in links.value <==> l in AsWrittenLinks(u).value
  {
    var all := CollectSubmissionLinks(u);
    var i := 0;
    while i < |u.tistory|
      invariant 0 <= i <= |u.tistory|
      invariant forall l :: l in all <==>
                  l in SubmissionLinks(u) || exists j :: 0 <= j < i && u.tistory[j].LinkRecord? && u.tistory[j].link == l
    {
      if u.tistory[i].LinkRecord? {
        all := all + [u.tistory[i].link];
      }
      i := i + 1;
    }
    if u.tistory == [] {
      return None;
    }
    var last := u.tistory[|u.tistory| - 1];
    if last.BareLink? {
      all := all + [last.link];
    }
    return Some(all);
  }

  function BlogVerdictAsWritten(users: map<string, User>, uid: string, link: string): BlogOutcome {
    if !Contains(link, "tistory.com") then NotTistory
    else if uid !in users then BlogUnregistered
    else match AsWrittenLinks(users[uid])
      case None => Raises
      case Some(all) => if link in all then DuplicateLink else BlogAccepted
  }

  method SubmitBlogAsWritten(store: Store, uid: string, link: string) returns (out: BlogOutcome)
    modifies store
    ensures out == BlogVerdictAsWritten(old(store.users), uid, link)
    ensures out == BlogAccepted ==> store.users == old(store.users)[uid := AddBlog(old(store.users)[uid], link)]
    ensures out != BlogAccepted ==> store.users == old(store.users)
  {
    if !Contains(link, "tistory.com") {
      return NotTistory;
    }
    if uid !in store.users {
      return BlogUnregistered;
    }
    var user := store.users[uid];
    var all := CollectLinksAsWritten(user);
    if all.None? {
      return Raises;
    }
    if link in all.value {
      return DuplicateLink;
    }
    store.users := store.users[uid := AddBlog(user, link)];
    return BlogAccepted;
  }

  /** With two bare links left by an older version, the first one is accepted again by
      the assignment-menu command, while the general blog command refuses it. */
  lemma ForElseMissesBareLinks(users: map<string, User>, uid: string, first: string, second: string)
    requires uid in users && Contains(first, "tistory.com") && first != second
    requires SubmissionLinks(users[uid]) == {}
    requires users[uid].tistory == [BareLink(first), BareLink(second)]
    ensures BlogVerdictAsWritten(users, uid, first) == BlogAccepted
    ensures Submissions.BlogVerdict(users, uid, first) == DuplicateLink
  {
    var ts := users[uid].tistory;
    assert ts[0].link == first;
    assert first in Submissions.TistoryLinks(ts);
    assert RecordLinks(ts) == {};
  }

  /** A user without any tistory_links entry makes the assignment-menu command raise,
      while the general blog command answers. */
  lemma ForElseRaisesOnEmpty(users: map<string, User>, uid: string, link: string)
    requires uid in users && Contains(link, "tistory.com") && users[uid].tistory == []
    ensures BlogVerdictAsWritten(users, uid, link) == Raises
    ensures Submissions.BlogVerdict(users, uid, link) != Raises
  {
  }

  /** Where tistory_links is non-empty and holds only records, the two commands agree. */
  lemma AsWrittenAgreesOnRecords(users: map<string, User>, uid: string, link: string)
    requires uid in users && users[uid].tistory != []
    requires forall i :: 0 <= i < |users[uid].tistory| ==> users[uid].tistory[i].LinkRecord?
    ensures BlogVerdictAsWritten(users, uid, link) == Submissions.BlogVerdict(users, uid, link)
  {
    var ts := users[uid].tistory;
    assert RecordLinks(ts) == Submissions.TistoryLinks(ts);
  }
}
