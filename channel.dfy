/** The group channel views: the group information page that sorts a group's
    assignments into ongoing, upcoming and ended ones and counts how many members
    completed each, its pager, and the staff's per-member submission board. */
module Channel {
  import opened Base
  import opened StudyData
  import Assignments

  // ---------------------------------------------------------------------
  // Assignment status.
  // ---------------------------------------------------------------------

  datatype Status = Ongoing | Upcoming | Ended

  /** The status shown for an assignment. Ongoing by default; Upcoming before a start
      that parses; Ended after a deadline that parses, whatever the start said. A start
      that does not parse raises inside the try block, so the deadline is never read. */
  function StatusOf(start: Bound, deadline: Bound, now: int): (r: Status)
    ensures r == Ended <==> !start.Malformed? && deadline.At? && now > deadline.t
    ensures r == Upcoming <==> start.At? && now < start.t && !(deadline.At? && now > deadline.t)
  {
    if start.Malformed? then Ongoing
    else if deadline.At? && now > deadline.t then Ended
    else if start.At? && now < start.t then Upcoming
    else Ongoing
  }

  /** Where both bounds are missing or parse, the page calls an assignment ongoing exactly
      when the submission commands accept submissions for it. */
  lemma OngoingIsActive(start: Bound, deadline: Bound, now: int)
    requires !start.Malformed? && !deadline.Malformed?
    ensures StatusOf(start, deadline, now) == Ongoing <==> Assignments.Active(start, deadline, now)
  {
  }

  /** A start that does not parse keeps the page at "ongoing" even after the deadline,
      while submissions are closed from then on. */
  lemma MalformedStartStaysOngoing(deadline: int, now: int)
    requires now > deadline
    ensures StatusOf(Malformed, At(deadline), now) == Ongoing
    ensures !Assignments.Active(Malformed, At(deadline), now)
  {
  }

  /** The assignments with the given status, in order. */
  function WithStatus(assignments: seq<Assignment>, now: int, st: Status): seq<Assignment> {
    if assignments == [] then []
    else
      var last := assignments[|assignments| - 1];
      var rest := WithStatus(assignments[..|assignments| - 1], now, st);
      if StatusOf(last.start, last.deadline, now) == st then rest + [last] else rest
  }

  /** The loop that fills the three lists: status starts as ongoing and each bound that
      is present may overwrite it. */
  method Classify(assignments: seq<Assignment>, now: int)
    returns (ongoing: seq<Assignment>, upcoming: seq<Assignment>, ended: seq<Assignment>)
    ensures ongoing == WithStatus(assignments, now, Ongoing)
    ensures upcoming == WithStatus(assignments, now, Upcoming)
    ensures ended == WithStatus(assignments, now, Ended)
  {
    ongoing, upcoming, ended := [], [], [];
    var i := 0;
    while i < |assignments|
      invariant 0 <= i <= |assignments|
      invariant ongoing == WithStatus(assignments[..i], now, Ongoing)
      invariant upcoming == WithStatus(assignments[..i], now, Upcoming)
      invariant ended == WithStatus(assignments[..i], now, Ended)
    {
      var a := assignments[i];
      var status := Ongoing;
      if !a.start.Unset? {
        if a.start.At? {
          if now < a.start.t {
            status := Upcoming;
          }
          if a.deadline.At? && now > a.deadline.t {
            status := Ended;
          }
        }
      } else if a.deadline.At? && now > a.deadline.t {
        status := Ended;
      }
      assert status == StatusOf(a.start, a.deadline, now);
      if status == Ongoing {
        ongoing := ongoing + [a];
      } else if status == Upcoming {
        upcoming := upcoming + [a];
      } else {
        ended := ended + [a];
      }
      assert assignments[..i + 1][..i] == assignments[..i];
      i := i + 1;
    }
    assert assignments[..i] == assignments;
  }

  /** Every assignment lands in exactly one of the three lists, each with its status. */
  lemma {:induction false} ClassifyPartition(assignments: seq<Assignment>, now: int)
    ensures multiset(WithStatus(assignments, now, Ongoing)) + multiset(WithStatus(assignments, now, Upcoming))
            + multiset(WithStatus(assignments, now, Ended)) == multiset(assignments)
    ensures forall st, a :: a in WithStatus(assignments, now, st) ==> StatusOf(a.start, a.deadline, now) == st
    decreases |assignments|
  {
    if assignments != [] {
      var init := assignments[..|assignments| - 1];
      ClassifyPartition(init, now);
      assert assignments == init + [assignments[|assignments| - 1]];
    }
  }

  // ---------------------------------------------------------------------
  // Completion counts.
  // ---------------------------------------------------------------------

  /** problem_id of every verified submission (None where it has none). */
  function VerifiedIds(subs: seq<Entry>): set<Option<int>> {
    set i | 0 <= i < |subs| && subs[i].verified :: subs[i].problemId
  }

  /** Whether a member's submissions for the assignment count as completed. */
  predicate Complete(a: Assignment, subs: seq<Entry>) {
    match a.kind
    case Blog => a.count > 0 && |subs| >= a.count
    case ProblemSolving =>
      if a.problems != [] then forall p :: p in a.problems ==> Some(p) in VerifiedIds(subs)
      else AnyVerified(subs)
    case MockTest => AnyVerified(subs) || subs != []
    case OtherKind => false
  }

  /** A mock test is completed by any submission, verified or not. */
  lemma MockCompleteIffSubmitted(a: Assignment, subs: seq<Entry>)
    requires a.kind == MockTest
    ensures Complete(a, subs) <==> subs != []
  {
  }

  /** A problem set with required IDs is completed exactly when each of them has a
      verified submission recording it. */
  lemma ProblemCompleteSpec(a: Assignment, subs: seq<Entry>)
    requires a.kind == ProblemSolving && a.problems != []
    ensures Complete(a, subs) <==>
              forall p :: p in a.problems ==> exists i :: 0 <= i < |subs| && subs[i].verified && subs[i].problemId == Some(p)
  {
    if Complete(a, subs) {
      forall p | p in a.problems
        ensures exists i :: 0 <= i < |subs| && subs[i].verified && subs[i].problemId == Some(p)
      {
        assert Some(p) in VerifiedIds(subs);
      }
    }
  }

  /** users.get(uid, {}).get('submissions', {}).get(aid, []) */
  function SubsOf(users: map<string, User>, uid: string, aid: string): seq<Entry> {
    if uid in users then SubsFor(users[uid], aid) else []
  }

  /** How many of the members completed the assignment. */
  function CompletedCount(a: Assignment, users: map<string, User>, members: seq<string>): nat {
    if members == [] then 0
    else
      var rest := CompletedCount(a, users, members[..|members| - 1]);
      if Complete(a, SubsOf(users, members[|members| - 1], a.id)) then rest + 1 else rest
  }

  /** The count is between 0 and the number of members; it reaches the number of members
      exactly when every member completed, and 0 exactly when none did. */
  lemma {:induction false} CompletedCountSpec(a: Assignment, users: map<string, User>, members: seq<string>)
    ensures CompletedCount(a, users, members) <= |members|
    ensures CompletedCount(a, users, members) == |members| <==>
              forall i :: 0 <= i < |members| ==> Complete(a, SubsOf(users, members[i], a.id))
    ensures CompletedCount(a, users, members) == 0 <==>
              forall i :: 0 <= i < |members| ==> !Complete(a, SubsOf(users, members[i], a.id))
    decreases |members|
  {
    if members != [] {
      var init := members[..|members| - 1];
      CompletedCountSpec(a, users, init);
      assert forall i :: 0 <= i < |init| ==> init[i] == members[i];
    }
  }

  /** The line the page shows for one assignment: completed out of total members. */
  datatype SummaryLine = SummaryLine(id: string, completed: int, total: int)

  /** The summary lines: one per assignment, and none at all when the group has no
      members. */
  method Summarize(assignments: seq<Assignment>, users: map<string, User>, members: seq<string>)
    returns (lines: seq<SummaryLine>)
    ensures members == [] ==> lines == []
    ensures members != [] ==> |lines| == |assignments|
    ensures members != [] ==> forall i :: 0 <= i < |assignments| ==>
              lines[i] == SummaryLine(assignments[i].id, CompletedCount(assignments[i], users, members), |members|)
  {
    lines := [];
    var i := 0;
    while i < |assignments|
      invariant 0 <= i <= |assignments|
      invariant members == [] ==> lines == []
      invariant members != [] ==> |lines| == i
      invariant members != [] ==> forall j :: 0 <= j < i ==>
                  lines[j] == SummaryLine(assignments[j].id, CompletedCount(assignments[j], users, members), |members|)
    {
      var a := assignments[i];
      var completed := 0;
      var total := |members|;
      var k := 0;
      while k < |members|
        invariant 0 <= k <= |members|
        invariant completed == CompletedCount(a, users, members[..k])
      {
        if Complete(a, SubsOf(users, members[k], a.id)) {
          completed := completed + 1;
        }
        assert members[..k + 1][..k] == members[..k];
        k := k + 1;
      }
      assert members[..k] == members;
      if total > 0 {
        lines := lines + [SummaryLine(a.id, completed, total)];
      }
      i := i + 1;
    }
  }

  /** Every summary line's count lies between 0 and its total. */
  lemma SummaryBounds(a: Assignment, users: map<string, User>, members: seq<string>)
    ensures 0 <= SummaryLine(a.id, CompletedCount(a, users, members), |members|).completed
              <= SummaryLine(a.id, CompletedCount(a, users, members), |members|).total
  {
    CompletedCountSpec(a, users, members);
  }

  /** What the group information view shows after a group is picked. */
  datatype GroupInfo =
    | NoStudy
    | Info(ongoing: seq<Assignment>, upcoming: seq<Assignment>, ended: seq<Assignment>,
           summary: seq<SummaryLine>, pages: int)

  predicate HasStudy(studies: seq<Study>, role: string) {
    exists i :: 0 <= i < |studies| && studies[i].role == role
  }

  lemma {:induction false} AssignmentsOfMissing(studies: seq<Study>, role: string)
    requires !HasStudy(studies, role)
    ensures AssignmentsOf(studies, role) == []
    decreases |studies|
  {
    if studies != [] {
      assert studies[0].role != role;
      assert forall i :: 0 <= i < |studies[1..]| ==> studies[1..][i] == studies[i + 1];
      AssignmentsOfMissing(studies[1..], role);
    }
  }

  /** The group selection handler; members are the IDs of the guild members holding the
      group's role (none where the role is gone). */
  method SelectGroup(studies: seq<Study>, role: string, members: seq<string>, users: map<string, User>, now: int)
    returns (out: GroupInfo)
    ensures !HasStudy(studies, role) <==> out == NoStudy
    ensures out.Info? ==>
              var assignments := AssignmentsOf(studies, role);
              && out.ongoing == WithStatus(assignments, now, Ongoing)
              && out.upcoming == WithStatus(assignments, now, Upcoming)
              && out.ended == WithStatus(assignments, now, Ended)
              && out.pages == 1 + |assignments|
              && (members == [] ==> out.summary == [])
              && (members != [] ==> |out.summary| == |assignments|)
              && (members != [] ==> forall i :: 0 <= i < |assignments| ==>
                    out.summary[i] == SummaryLine(assignments[i].id, CompletedCount(assignments[i], users, members), |members|))
  {
    if !HasStudy(studies, role) {
      return NoStudy;
    }
    var assignments := AssignmentsOf(studies, role);
    var ongoing, upcoming, ended := Classify(assignments, now);
    var summary := Summarize(assignments, users, members);
    out := Info(ongoing, upcoming, ended, summary, 1 + |assignments|);
  }

  // ---------------------------------------------------------------------
  // The pager.
  // ---------------------------------------------------------------------

  /** Page 0 is the summary; page p shows the p-th assignment. */
  datatype Page = Summary | Detail(index: nat)

  /** get_page for a page number of zero or more; a number past the last assignment
      falls back to the summary. */
  function PageAt(p: nat, count: nat): Page {
    if p == 0 then Summary
    else if p - 1 < count then Detail(p - 1)
    else Summary
  }

  lemma PageAtSpec(p: nat, count: nat)
    ensures PageAt(p, count).Detail? <==> 1 <= p <= count
    ensures PageAt(p, count).Detail? ==> PageAt(p, count).index == p - 1 < count
  {
  }

  /** Each page in range shows something different. */
  lemma PageAtInjective(p: nat, q: nat, count: nat)
    requires p <= count && q <= count && p != q
    ensures PageAt(p, count) != PageAt(q, count)
  {
  }

  /** A press of the pager buttons: someone other than the view's author is refused; a
      press that cannot move only acknowledges; otherwise the new page is shown. */
  datatype Reply = NotAuthor | Deferred | Shown(page: Page)

  class Pager {
    /** The number of assignment pages. */
    const count: nat
    const totalPages: int
    var currentPage: int

    ghost predicate Valid()
      reads this
    {
      totalPages == 1 + count && 0 <= currentPage <= totalPages - 1
    }

    constructor (count: nat)
      ensures this.count == count && totalPages == 1 + count && currentPage == 0
      ensures Valid()
    {
      this.count := count;
      totalPages := 1 + count;
      currentPage := 0;
    }

    /** The '◀' button is disabled on the first page. */
    predicate PrevDisabled()
      reads this
    {
      currentPage == 0
    }

    /** The '▶' button is disabled on the last page. */
    predicate NextDisabled()
      reads this
    {
      currentPage >= totalPages - 1
    }

    method PrevPage(byAuthor: bool) returns (reply: Reply)
      requires Valid()
      modifies this
      ensures Valid()
      ensures !byAuthor ==> reply == NotAuthor && currentPage == old(currentPage)
      ensures byAuthor && old(currentPage) == 0 ==> reply == Deferred && currentPage == 0
      ensures byAuthor && old(currentPage) > 0 ==>
                currentPage == old(currentPage) - 1 && reply == Shown(PageAt(currentPage, count))
      ensures byAuthor ==> (reply == Deferred <==> old(PrevDisabled()))
    {
      if !byAuthor {
        return NotAuthor;
      }
      if currentPage > 0 {
        currentPage := currentPage - 1;
        reply := Shown(PageAt(currentPage, count));
      } else {
        reply := Deferred;
      }
    }

    method NextPage(byAuthor: bool) returns (reply: Reply)
      requires Valid()
      modifies this
      ensures Valid()
      ensures !byAuthor ==> reply == NotAuthor && currentPage == old(currentPage)
      ensures byAuthor && old(currentPage) == totalPages - 1 ==> reply == Deferred && currentPage == old(currentPage)
      ensures byAuthor && old(currentPage) < totalPages - 1 ==>
                currentPage == old(currentPage) + 1 && reply == Shown(PageAt(currentPage, count))
      ensures byAuthor ==> (reply == Deferred <==> old(NextDisabled()))
    {
      if !byAuthor {
        return NotAuthor;
      }
      if currentPage < totalPages - 1 {
        currentPage := currentPage + 1;
        reply := Shown(PageAt(currentPage, count));
      } else {
        reply := Deferred;
      }
    }
  }

  /** Within the pager's range, page 0 is its only summary page and every other page
      is the assignment before it. */
  lemma PagerPages(count: nat, current: int)
    requires 0 <= current <= count
    ensures PageAt(current, count) == (if current == 0 then Summary else Detail(current - 1))
    ensures (current == 0) <==> PageAt(current, count) == Summary
  {
  }

  // ---------------------------------------------------------------------
  // The staff's submission board.
  // ---------------------------------------------------------------------

  /** The mark next to an assignment: done, a partial count out of what is needed, or
      missing (mock tests only). */
  datatype Mark = Done | Partial(have: int, need: int) | Missing

  function VerifiedCount(subs: seq<Entry>): nat {
    if subs == [] then 0
    else VerifiedCount(subs[..|subs| - 1]) + (if subs[|subs| - 1].verified then 1 else 0)
  }

  /** The mark for one assignment, or None for a type the board does not show. */
  function MarkOf(a: Assignment, subs: seq<Entry>): Option<Mark> {
    match a.kind
    case Blog => Some(if |subs| >= a.count then Done else Partial(|subs|, a.count))
    case ProblemSolving =>
      var n := VerifiedCount(subs);
      Some(if n >= |a.problems| then Done else Partial(n, |a.problems|))
    case MockTest => Some(if subs != [] then Done else Missing)
    case OtherKind => None
  }

  /** The marks of one member, one per shown assignment, in order. */
  function MarksOf(assignments: seq<Assignment>, users: map<string, User>, uid: string): seq<Mark> {
    if assignments == [] then []
    else
      var last := assignments[|assignments| - 1];
      var rest := MarksOf(assignments[..|assignments| - 1], users, uid);
      match MarkOf(last, SubsOf(users, uid, last.id))
      case None => rest
      case Some(m) => rest + [m]
  }

  datatype Row = Row(member: string, marks: seq<Mark>)

  /** The rows of the board: members without any shown mark get no row. */
  function RowsOf(members: seq<string>, assignments: seq<Assignment>, users: map<string, User>): seq<Row> {
    if members == [] then []
    else
      var last := members[|members| - 1];
      var rest := RowsOf(members[..|members| - 1], assignments, users);
      var marks := MarksOf(assignments, users, last);
      if marks == [] then rest else rest + [Row(last, marks)]
  }

  /** At most this many members are shown. */
  const BoardLimit: nat := 20

  datatype Board = NoRole | NoMembers | NoAssignments | Rows(rows: seq<Row>)

  /** The board command; roleExists says whether the guild has the role, members are the
      IDs of the guild members holding it. */
  function BoardOf(roleExists: bool, members: seq<string>, studies: seq<Study>, role: string,
                   users: map<string, User>): Board
  {
    if !roleExists then NoRole
    else if members == [] then NoMembers
    else if AssignmentsOf(studies, role) == [] then NoAssignments
    else
      var shown := if |members| <= BoardLimit then members else members[..BoardLimit];
      Rows(RowsOf(shown, AssignmentsOf(studies, role), users))
  }

  /** The inner loop of the board: one member's marks. */
  method MemberMarks(assignments: seq<Assignment>, users: map<string, User>, uid: string) returns (marks: seq<Mark>)
    ensures marks == MarksOf(assignments, users, uid)
  {
    marks := [];
    var j := 0;
    while j < |assignments|
      invariant 0 <= j <= |assignments|
      invariant marks == MarksOf(assignments[..j], users, uid)
    {
      var m := MarkOf(assignments[j], SubsOf(users, uid, assignments[j].id));
      if m.Some? {
        marks := marks + [m.value];
      }
      assert assignments[..j + 1][..j] == assignments[..j];
      j := j + 1;
    }
    assert assignments[..j] == assignments;
  }

  method BuildBoard(roleExists: bool, members: seq<string>, studies: seq<Study>, role: string,
                    users: map<string, User>) returns (board: Board)
    ensures board == BoardOf(roleExists, members, studies, role, users)
  {
    if !roleExists {
      return NoRole;
    }
    if members == [] {
      return NoMembers;
    }
    var assignments := AssignmentsOf(studies, role);
    if assignments == [] {
      return NoAssignments;
    }
    var shown := if |members| <= BoardLimit then members else members[..BoardLimit];
    var rows := [];
    var i := 0;
    while i < |shown|
      invariant 0 <= i <= |shown|
      invariant rows == RowsOf(shown[..i], assignments, users)
    {
      var uid := shown[i];
      var marks := MemberMarks(assignments, users, uid);
      if marks != [] {
        rows := rows + [Row(uid, marks)];
      }
      assert shown[..i + 1][..i] == shown[..i];
      i := i + 1;
    }
    assert shown[..i] == shown;
    return Rows(rows);
  }

  /** Each row is a member's with that member's marks, at least one; RowsComplete and
      RowsInOrder state which rows there are and their order. */
  lemma {:induction false} RowsOfSpec(members: seq<string>, assignments: seq<Assignment>, users: map<string, User>)
    ensures |RowsOf(members, assignments, users)| <= |members|
    ensures forall r :: r in RowsOf(members, assignments, users) ==>
              r.member in members && r.marks == MarksOf(assignments, users, r.member) && r.marks != []
    decreases |members|
  {
    if members != [] {
      RowsOfSpec(members[..|members| - 1], assignments, users);
    }
  }

  /** Every member with at least one mark gets a row with those marks. */
  lemma {:induction false} RowsComplete(members: seq<string>, assignments: seq<Assignment>, users: map<string, User>)
    ensures forall m :: m in members && MarksOf(assignments, users, m) != [] ==>
              Row(m, MarksOf(assignments, users, m)) in RowsOf(members, assignments, users)
    decreases |members|
  {
    if members != [] {
      var init := members[..|members| - 1];
      var last := members[|members| - 1];
      RowsComplete(init, assignments, users);
      var rest := RowsOf(init, assignments, users);
      var rows := RowsOf(members, assignments, users);
      var marks := MarksOf(assignments, users, last);
      assert rows == if marks == [] then rest else rest + [Row(last, marks)];
      assert forall r :: r in rest ==> r in rows;
      forall m | m in members && MarksOf(assignments, users, m) != []
        ensures Row(m, MarksOf(assignments, users, m)) in rows
      {
        if m != last {
          assert members == init + [last];
          assert m in init;
        }
      }
    }
  }

  /** The rows follow the order of the members, so distinct members get distinct rows. */
  lemma {:induction false} RowsInOrder(members: seq<string>, assignments: seq<Assignment>, users: map<string, User>)
    ensures var rows := RowsOf(members, assignments, users);
            forall k, l :: 0 <= k < l < |rows| ==>
              exists i, j :: 0 <= i < j < |members| && members[i] == rows[k].member && members[j] == rows[l].member
    ensures var rows := RowsOf(members, assignments, users);
            Distinct(members) ==> forall k, l :: 0 <= k < l < |rows| ==> rows[k].member != rows[l].member
    decreases |members|
  {
    var rows := RowsOf(members, assignments, users);
    if members != [] {
      var init := members[..|members| - 1];
      var last := members[|members| - 1];
      RowsInOrder(init, assignments, users);
      RowsOfSpec(init, assignments, users);
      var rest := RowsOf(init, assignments, users);
      forall k, l | 0 <= k < l < |rows|
        ensures exists i, j :: 0 <= i < j < |members| && members[i] == rows[k].member && members[j] == rows[l].member
      {
        assert rows[k] == rest[k];
        if l < |rest| {
          assert rows[l] == rest[l];
          var i, j :| 0 <= i < j < |init| && init[i] == rest[k].member && init[j] == rest[l].member;
          assert members[i] == init[i] && members[j] == init[j];
        } else {
          assert rows[l].member == last;
          assert rest[k] in rest;
          var i :| 0 <= i < |init| && init[i] == rest[k].member;
          assert members[i] == init[i] && members[|members| - 1] == last;
        }
      }
    }
    if Distinct(members) {
      forall k, l | 0 <= k < l < |rows|
        ensures rows[k].member != rows[l].member
      {
        var i, j :| 0 <= i < j < |members| && members[i] == rows[k].member && members[j] == rows[l].member;
      }
    }
  }

  /** The board never lists more than 20 members, and only members holding the role. */
  lemma BoardLimited(roleExists: bool, members: seq<string>, studies: seq<Study>, role: string,
                     users: map<string, User>)
    requires BoardOf(roleExists, members, studies, role, users).Rows?
    ensures var rows := BoardOf(roleExists, members, studies, role, users).rows;
            |rows| <= BoardLimit && forall r :: r in rows ==> r.member in members
    ensures var rows := BoardOf(roleExists, members, studies, role, users).rows;
            forall i :: 0 <= i < |members| && i < BoardLimit && MarksOf(AssignmentsOf(studies, role), users, members[i]) != [] ==>
              Row(members[i], MarksOf(AssignmentsOf(studies, role), users, members[i])) in rows
  {
    var shown := if |members| <= BoardLimit then members else members[..BoardLimit];
    RowsOfSpec(shown, AssignmentsOf(studies, role), users);
    RowsComplete(shown, AssignmentsOf(studies, role), users);
    forall i | 0 <= i < |members| && i < BoardLimit
      ensures members[i] in shown
    {
      assert members[i] == shown[i];
    }
  }

  /** For a blog with a positive required count, the board's done mark agrees with the
      completion count; with a required count of 0 the board calls it done while the
      completion count never counts it. */
  lemma BlogMarkAgrees(a: Assignment, subs: seq<Entry>)
    requires a.kind == Blog
    ensures a.count > 0 ==> (MarkOf(a, subs) == Some(Done) <==> Complete(a, subs))
    ensures a.count <= 0 ==> MarkOf(a, subs) == Some(Done) && !Complete(a, subs)
  {
  }

  /** A mock test's board mark agrees with the completion count. */
  lemma MockMarkAgrees(a: Assignment, subs: seq<Entry>)
    requires a.kind == MockTest
    ensures MarkOf(a, subs) == Some(Done) <==> Complete(a, subs)
  {
  }

  /** The indices of the verified submissions. */
  function VerifiedIndices(subs: seq<Entry>): set<int> {
    set i | 0 <= i < |subs| && subs[i].verified
  }

  lemma VerifiedIndicesLast(subs: seq<Entry>)
    requires subs != []
    ensures var n := |subs| - 1;
            VerifiedIndices(subs) == VerifiedIndices(subs[..n]) + (if subs[n].verified then {n} else {})
  {
    var n := |subs| - 1;
    forall i | 0 <= i < n
      ensures subs[..n][i] == subs[i]
    {
    }
  }

  lemma VerifiedIdsLast(subs: seq<Entry>)
    requires subs != []
    ensures var n := |subs| - 1;
            VerifiedIds(subs) == VerifiedIds(subs[..n]) + (if subs[n].verified then {subs[n].problemId} else {})
  {
    var n := |subs| - 1;
    forall i | 0 <= i < n
      ensures subs[..n][i] == subs[i]
    {
    }
  }

  /** VerifiedCount is the number of verified submissions. */
  lemma {:induction false} VerifiedCountSpec(subs: seq<Entry>)
    ensures VerifiedCount(subs) == |VerifiedIndices(subs)|
    decreases |subs|
  {
    if subs != [] {
      var n := |subs| - 1;
      VerifiedCountSpec(subs[..n]);
      VerifiedIndicesLast(subs);
      assert n !in VerifiedIndices(subs[..n]);
    }
  }

  /** The verified submissions record at most as many problem IDs as there are of them. */
  lemma {:induction false} VerifiedIdsBound(subs: seq<Entry>)
    ensures |VerifiedIds(subs)| <= VerifiedCount(subs)
    decreases |subs|
  {
    if subs != [] {
      var n := |subs| - 1;
      VerifiedIdsBound(subs[..n]);
      VerifiedIdsLast(subs);
    }
  }

  /** A sequence without repeats. */
  predicate Distinct<T(==)>(s: seq<T>) {
    forall i, j :: 0 <= i < j < |s| ==> s[i] != s[j]
  }

  /** The problem IDs a set requires, as submissions record them. */
  function RequiredIds(ps: seq<int>): set<Option<int>> {
    set p | p in ps :: Some(p)
  }

  lemma {:induction false} RequiredIdsCard(ps: seq<int>)
    requires Distinct(ps)
    ensures |RequiredIds(ps)| == |ps|
    decreases |ps|
  {
    if ps != [] {
      var init := ps[..|ps| - 1];
      var last := ps[|ps| - 1];
      assert ps == init + [last];
      RequiredIdsCard(init);
      assert RequiredIds(ps) == RequiredIds(init) + {Some(last)};
      assert Some(last) !in RequiredIds(init);
    }
  }

  lemma SubsetCard<T>(a: set<T>, b: set<T>)
    requires a <= b
    ensures |a| <= |b|
  {
    assert b == a + (b - a);
  }

  /** A problem set's board mark is done exactly when the member has at least as many
      verified submissions as the set has problems, whichever problems they are for;
      otherwise it shows that count out of the set's size. */
  lemma ProblemMarkCounts(a: Assignment, subs: seq<Entry>)
    requires a.kind == ProblemSolving
    ensures MarkOf(a, subs) == Some(Done) <==> |VerifiedIndices(subs)| >= |a.problems|
    ensures MarkOf(a, subs) != Some(Done) ==> MarkOf(a, subs) == Some(Partial(|VerifiedIndices(subs)|, |a.problems|))
  {
    VerifiedCountSpec(subs);
  }

  /** When the required problems are distinct, a member who completed the set is marked
      done on the board. */
  lemma ProblemCompleteMarksDone(a: Assignment, subs: seq<Entry>)
    requires a.kind == ProblemSolving && Distinct(a.problems)
    ensures Complete(a, subs) ==> MarkOf(a, subs) == Some(Done)
  {
    if Complete(a, subs) && a.problems != [] {
      RequiredIdsCard(a.problems);
      VerifiedIdsBound(subs);
      assert RequiredIds(a.problems) <= VerifiedIds(subs);
      SubsetCard(RequiredIds(a.problems), VerifiedIds(subs));
    }
  }

  /** With a repeated required problem the two disagree the other way: one verified
      submission completes the set [1000, 1000] while the board shows 1 of 2. */
  lemma ProblemMarkRepeatedId(a: Assignment)
    requires a.kind == ProblemSolving && a.problems == [1000, 1000]
    ensures var subs := [ProblemRecord(1000)];
            MarkOf(a, subs) == Some(Partial(1, 2)) && Complete(a, subs)
  {
    var subs := [ProblemRecord(1000)];
    assert VerifiedCount(subs) == 1 by {
      assert subs[..0] == [];
    }
    assert VerifiedIds(subs) == {Some(1000)};
  }

  /** The board's problem mark counts verified submissions of any problem: one verified
      submission of another problem marks a one-problem set done, while the completion
      count does not count it. */
  lemma ProblemMarkIgnoresIds(a: Assignment)
    requires a.kind == ProblemSolving && a.problems == [1000]
    ensures var subs := [ProblemRecord(1001)];
            MarkOf(a, subs) == Some(Done) && !Complete(a, subs)
  {
    var subs := [ProblemRecord(1001)];
    assert VerifiedCount(subs) == 1 by {
      assert subs[..0] == [];
    }
    assert VerifiedIds(subs) == {Some(1001)};
    assert 1000 in a.problems && Some(1000) !in VerifiedIds(subs);
  }
}
