/** The general submission commands: a Tistory blog link, a solved problem outside any
    assignment, and a mock test left for the staff to check. Each refuses a repeat of
    what the user already submitted. */
module Submissions {
  import opened Base
  import opened StudyData

  // ---------------------------------------------------------------------
  // Blog links.
  // ---------------------------------------------------------------------

  /** Every tistory_links element's link, whether a {'link'} record or a bare string. */
  function TistoryLinks(ts: seq<TistoryEntry>): set<string> {
    set i | 0 <= i < |ts| :: ts[i].link
  }

  lemma TistorySnoc(ts: seq<TistoryEntry>, t: TistoryEntry)
    ensures TistoryLinks(ts + [t]) == TistoryLinks(ts) + {t.link}
  {
    var all := ts + [t];
    forall l | l in TistoryLinks(all) ensures l in TistoryLinks(ts) || l == t.link {
      var i :| 0 <= i < |all| && all[i].link == l;
      if i < |ts| {
        assert ts[i] == all[i];
      }
    }
    forall l | l in TistoryLinks(ts) ensures l in TistoryLinks(all) {
      var i :| 0 <= i < |ts| && ts[i].link == l;
      assert all[i] == ts[i];
    }
    assert all[|ts|] == t;
  }

  /** The links a new blog submission is compared with. */
  function KnownLinks(u: User): set<string> {
    SubmissionLinks(u) + TistoryLinks(u.tistory)
  }

  /** all_links: every submission list's links, then every tistory_links element. */
  method CollectLinks(u: User) returns (links: seq<string>)
    ensures forall l :: l in links <==> l in KnownLinks(u)
  {
    links := CollectSubmissionLinks(u);
    var i := 0;
    while i < |u.tistory|
      invariant 0 <= i <= |u.tistory|
      invariant forall l :: l in links <==>
                  l in SubmissionLinks(u) || exists j :: 0 <= j < i && u.tistory[j].link == l
    {
      links := links + [u.tistory[i].link];
      i := i + 1;
    }
  }

  function BlogVerdict(users: map<string, User>, uid: string, link: string): (r: BlogOutcome)
    ensures r != Raises
  {
    if !Contains(link, "tistory.com") then NotTistory
    else if uid !in users then BlogUnregistered
    else if link in KnownLinks(users[uid]) then DuplicateLink
    else BlogAccepted
  }

  method SubmitBlog(store: Store, uid: string, link: string) returns (out: BlogOutcome)
    modifies store
    ensures out == BlogVerdict(old(store.users), uid, link)
    ensures out == BlogAccepted ==> store.users == old(store.users)[uid := AddBlog(old(store.users)[uid], link)]
    ensures out != BlogAccepted ==> store.users == old(store.users)
  {
    if !Contains(link, "tistory.com") {
      return NotTistory;
    }
    if uid !in store.users {
      return BlogUnregistered;
    }
    var user := store.users[uid];
    var all := CollectLinks(user);
    if link in all {
      return DuplicateLink;
    }
    store.users := store.users[uid := AddBlog(user, link)];
    return BlogAccepted;
  }

  /** Accepting a blog adds exactly its link to the ones later submissions are compared with. */
  lemma AddBlogKnown(u: User, link: string)
    requires link != ""
    ensures KnownLinks(AddBlog(u, link)) == KnownLinks(u) + {link}
  {
    var v := AddBlog(u, link);
    var es := SubsFor(v, BlogKey);
    LinksInSnoc(SubsFor(u, BlogKey), BlogRecord(link));
    assert LinksIn(es) == LinksIn(SubsFor(u, BlogKey)) + {link};
    TistorySnoc(u.tistory, LinkRecord(link));
    forall l ensures l in SubmissionLinks(v) <==> l in SubmissionLinks(u) || l == link {
      if l in SubmissionLinks(u) {
        var k :| k in u.submissions && l in LinksIn(u.submissions[k]);
        assert SubsFor(u, k) == u.submissions[k];
        if k == BlogKey {
          assert l in LinksIn(SubsFor(v, k));
        } else {
          assert SubsFor(v, k) == SubsFor(u, k);
        }
        assert k in v.submissions;
      }
      if l == link {
        assert l in LinksIn(v.submissions[BlogKey]);
      }
      if l in SubmissionLinks(v) {
        var k :| k in v.submissions && l in LinksIn(v.submissions[k]);
        assert SubsFor(v, k) == v.submissions[k];
        if k != BlogKey {
          assert SubsFor(u, k) == SubsFor(v, k);
          assert k in u.submissions;
        } else if l != link {
          assert l in LinksIn(SubsFor(u, BlogKey));
          assert BlogKey in u.submissions;
        }
      }
    }
  }

  /** The same link submitted again is refused as a duplicate. */
  lemma BlogResubmitRejected(users: map<string, User>, uid: string, link: string)
    requires BlogVerdict(users, uid, link) == BlogAccepted
    ensures BlogVerdict(users[uid := AddBlog(users[uid], link)], uid, link) == DuplicateLink
  {
    assert link != "" by {
      if link == "" {
        ContainsLonger(link, "tistory.com");
      }
    }
    AddBlogKnown(users[uid], link);
  }

  // ---------------------------------------------------------------------
  // Problems outside an assignment.
  // ---------------------------------------------------------------------

  /** The truthy problem_id values across every submission list of the user. */
  function RecordedIds(u: User): set<int> {
    set k, p | k in u.submissions && p in IdsIn(u.submissions[k]) :: p
  }

  method CollectEntryIds(entries: seq<Entry>) returns (ids: seq<int>)
    ensures forall p :: p in ids <==> p in IdsIn(entries)
  {
    ids := [];
    var i := 0;
    while i < |entries|
      invariant 0 <= i <= |entries|
      invariant forall p :: p in ids <==> exists j :: 0 <= j < i && HasProblemId(entries[j]) && entries[j].problemId.value == p
    {
      if HasProblemId(entries[i]) {
        ids := ids + [entries[i].problemId.value];
      }
      i := i + 1;
    }
  }

  /** all_problems: the loops over every submission list. */
  method CollectRecordedIds(u: User) returns (ids: seq<int>)
    ensures forall p :: p in ids <==> p in RecordedIds(u)
  {
    ids := [];
    var keys := u.submissions.Keys;
    while keys != {}
      invariant keys <= u.submissions.Keys
      invariant forall p :: p in ids <==>
                  exists k :: k in u.submissions && k !in keys && p in IdsIn(u.submissions[k])
      decreases |keys|
    {
      var k :| k in keys;
      var more := CollectEntryIds(u.submissions[k]);
      ids := ids + more;
      keys := keys - {k};
    }
  }

  datatype ProblemOutcome = ProblemUnregistered | ProblemNoHandle | NotSolved | DuplicateProblem | ProblemAccepted

  /** check(handle, problem) is the status check's answer. */
  function ProblemVerdict(users: map<string, User>, uid: string, problem: int,
                          check: (string, int) -> Solve): ProblemOutcome
  {
    if uid !in users then ProblemUnregistered
    else if users[uid].handle == "" then ProblemNoHandle
    else if check(users[uid].handle, problem).Unsolved? then NotSolved
    else if problem in RecordedIds(users[uid]) then DuplicateProblem
    else ProblemAccepted
  }

  method SubmitProblem(store: Store, uid: string, problem: int, check: (string, int) -> Solve)
    returns (out: ProblemOutcome)
    modifies store
    ensures out == ProblemVerdict(old(store.users), uid, problem, check)
    ensures out == ProblemAccepted ==>
              store.users == old(store.users)[uid := AppendEntry(old(store.users)[uid], ProblemKey, ProblemRecord(problem))]
    ensures out != ProblemAccepted ==> store.users == old(store.users)
  {
    if uid !in store.users {
      return ProblemUnregistered;
    }
    var user := store.users[uid];
    if user.handle == "" {
      return ProblemNoHandle;
    }
    var solve := check(user.handle, problem);
    if solve.Unsolved? {
      return NotSolved;
    }
    var all := CollectRecordedIds(user);
    if problem in all {
      return DuplicateProblem;
    }
    store.users := store.users[uid := AppendEntry(user, ProblemKey, ProblemRecord(problem))];
    return ProblemAccepted;
  }

  /** A problem recorded under any key, an assignment's included, blocks this command. */
  lemma RecordedUnderAnyKey(u: User, key: string, problem: int)
    requires problem in IdsIn(SubsFor(u, key))
    ensures problem in RecordedIds(u)
  {
    assert key in u.submissions;
  }

  /** The same problem submitted again is refused as a duplicate (problem 0 is never
      recorded as an ID, being falsy). */
  lemma ProblemResubmitRejected(users: map<string, User>, uid: string, problem: int, check: (string, int) -> Solve)
    requires ProblemVerdict(users, uid, problem, check) == ProblemAccepted
    requires problem != 0
    ensures var after := users[uid := AppendEntry(users[uid], ProblemKey, ProblemRecord(problem))];
            ProblemVerdict(after, uid, problem, check) == DuplicateProblem
  {
    var v := AppendEntry(users[uid], ProblemKey, ProblemRecord(problem));
    var es := SubsFor(v, ProblemKey);
    assert HasProblemId(es[|es| - 1]);
    assert problem in IdsIn(es);
    RecordedUnderAnyKey(v, ProblemKey, problem);
  }

  // ---------------------------------------------------------------------
  // Mock tests left for the staff.
  // ---------------------------------------------------------------------

  /** Any mock test, whatever its dates. */
  function IsMockTest(): Assignment -> bool {
    (a: Assignment) => a.kind == MockTest
  }

  datatype MockOutcome = MockUnregistered | NoGroup | NoMockTest | AlreadySubmitted | Submitted

  /** The record stored for a mock test: not verified, no problems. */
  const ManualRecord: Entry := Entry("", None, false, [])

  function MockVerdict(users: map<string, User>, uid: string, roles: seq<string>, studies: seq<Study>): MockOutcome {
    if uid !in users then MockUnregistered
    else if roles == [] then NoGroup
    else match PickFrom(studies, roles, IsMockTest(), None)
      case None => NoMockTest
      case Some(a) => if SubsFor(users[uid], a.id) != [] then AlreadySubmitted else Submitted
  }

  method SubmitMockTest(store: Store, uid: string, roles: seq<string>, studies: seq<Study>) returns (out: MockOutcome)
    modifies store
    ensures out == MockVerdict(old(store.users), uid, roles, studies)
    ensures out == Submitted ==>
              var a := PickFrom(studies, roles, IsMockTest(), None).value;
              store.users == old(store.users)[uid := AppendEntry(old(store.users)[uid], a.id, ManualRecord)]
    ensures out != Submitted ==> store.users == old(store.users)
  {
    if uid !in store.users {
      return MockUnregistered;
    }
    if roles == [] {
      return NoGroup;
    }
    var picked := PickAssignment(studies, roles, IsMockTest());
    if picked.None? {
      return NoMockTest;
    }
    var a := picked.value;
    var user := store.users[uid];
    if SubsFor(user, a.id) != [] {
      return AlreadySubmitted;
    }
    store.users := store.users[uid := AppendEntry(user, a.id, ManualRecord)];
    return Submitted;
  }

  /** The picked test is a mock test of one of the roles, the dates play no part, and a
      second submission is refused. */
  lemma MockSubmitOnce(users: map<string, User>, uid: string, roles: seq<string>, studies: seq<Study>)
    requires MockVerdict(users, uid, roles, studies) == Submitted
    ensures var a := PickFrom(studies, roles, IsMockTest(), None).value;
            && a.kind == MockTest
            && MockVerdict(users[uid := AppendEntry(users[uid], a.id, ManualRecord)], uid, roles, studies) == AlreadySubmitted
  {
    PickEligible(studies, roles, IsMockTest(), None);
  }
}
