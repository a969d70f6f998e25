/** Problem sets and mock tests of a study group: the comma-separated list of problem
    numbers an administrator types into the creation and update forms, and the progress
    report listing how many of the set's problems each member of the group has solved. */
module ProblemSet {
  import opened Base
  import LinkSubmission

  // ---------------------------------------------------------------------
  // The problem-number list of the four form submissions.
  // ---------------------------------------------------------------------

  /** Every piece stripped. */
  function StripEach(pieces: seq<string>): (r: seq<string>)
    ensures |r| == |pieces|
    ensures forall i :: 0 <= i < |pieces| ==> r[i] == Strip(pieces[i])
  {
    seq(|pieces|, i requires 0 <= i < |pieces| => Strip(pieces[i]))
  }

  /** The numbers of the (stripped) tokens that are digits, in order; any other token
      is dropped. */
  function Tokens(tokens: seq<string>): seq<int> {
    if tokens == [] then []
    else
      var rest := Tokens(tokens[..|tokens| - 1]);
      var p := tokens[|tokens| - 1];
      if IsDigits(p) then rest + [DigitsValue(p)] else rest
  }

  /** The stripped comma-separated tokens of a form text. */
  function TokensOfText(text: string): seq<string> {
    StripEach(Split(Strip(text), ','))
  }

  /** The stored problem list of a form submission, or None where the form is rejected. */
  function ProblemIdList(text: string): Option<seq<int>> {
    if Strip(text) == [] then None
    else
      var ids := Tokens(TokensOfText(text));
      if ids == [] then None else Some(SortedDistinct(ids))
  }

  /** One more token extends the numbers by that token's number, if it has one. */
  lemma TokensStep(tokens: seq<string>, i: int)
    requires 0 <= i < |tokens|
    ensures Tokens(tokens[..i + 1]) ==
            Tokens(tokens[..i]) + (if IsDigits(tokens[i]) then [DigitsValue(tokens[i])] else [])
  {
    assert tokens[..i + 1][..i] == tokens[..i];
    assert tokens[..i + 1][i] == tokens[i];
  }

  /** The loop over the comma-separated pieces. */
  method CollectIds(pieces: seq<string>) returns (ids: seq<int>)
    ensures ids == Tokens(StripEach(pieces))
  {
    ghost var tokens := StripEach(pieces);
    ids := [];
    var i := 0;
    while i < |pieces|
      invariant 0 <= i <= |pieces|
      invariant ids == Tokens(tokens[..i])
    {
      var p := Strip(pieces[i]);
      TokensStep(tokens, i);
      if IsDigits(p) {
        ids := ids + [DigitsValue(p)];
      }
      i := i + 1;
    }
    assert tokens[..|pieces|] == tokens;
  }

  method ParseProblemIds(text: string) returns (r: Option<seq<int>>)
    ensures r == ProblemIdList(text)
  {
    var t := Strip(text);
    if t == [] {
      return None;
    }
    var ids := CollectIds(Split(t, ','));
    if ids == [] {
      return None;
    }
    return Some(SortedDistinct(ids));
  }

  /** x is the number of some digit token. */
  predicate TokenOf(tokens: seq<string>, x: int) {
    exists i :: 0 <= i < |tokens| && IsDigits(tokens[i]) && DigitsValue(tokens[i]) == x
  }

  /** A number is kept exactly when some token is that number's digits. */
  lemma {:induction false} TokensSpec(tokens: seq<string>, x: int)
    ensures x in Tokens(tokens) <==> TokenOf(tokens, x)
  {
    if tokens != [] {
      var init := tokens[..|tokens| - 1];
      var p := tokens[|tokens| - 1];
      TokensSpec(init, x);
      assert x in Tokens(tokens) <==> x in Tokens(init) || (IsDigits(p) && DigitsValue(p) == x);
      if TokenOf(init, x) {
        var i :| 0 <= i < |init| && IsDigits(init[i]) && DigitsValue(init[i]) == x;
        assert tokens[i] == init[i];
      }
      if TokenOf(tokens, x) {
        var i :| 0 <= i < |tokens| && IsDigits(tokens[i]) && DigitsValue(tokens[i]) == x;
        if i < |init| {
          assert tokens[i] == init[i];
        }
      }
    }
  }

  lemma {:induction false} TokensNonNegative(tokens: seq<string>)
    ensures forall i :: 0 <= i < |Tokens(tokens)| ==> Tokens(tokens)[i] >= 0
  {
    if tokens != [] {
      TokensNonNegative(tokens[..|tokens| - 1]);
    }
  }

  /** The sorted numbers of a token list: ascending, non-negative, exactly the tokens' numbers. */
  lemma SortedTokensSpec(tokens: seq<string>, x: int)
    ensures var ids := SortedDistinct(Tokens(tokens));
      (ids == [] <==> Tokens(tokens) == []) && StrictlySorted(ids) &&
      (x in ids <==> TokenOf(tokens, x)) &&
      (forall i :: 0 <= i < |ids| ==> ids[i] >= 0)
  {
    var ids := SortedDistinct(Tokens(tokens));
    SortedDistinctSpec(Tokens(tokens));
    TokensSpec(tokens, x);
    TokensNonNegative(tokens);
    ElemsEmpty(ids);
    ElemsEmpty(Tokens(tokens));
    assert x in ids <==> x in Elems(ids);
    forall i | 0 <= i < |ids| ensures ids[i] >= 0 {
      assert ids[i] in Elems(Tokens(tokens));
    }
  }

  /** An accepted list is ascending without repeats, non-negative, and holds exactly the
      numbers of the digit tokens of the stripped input. */
  lemma ProblemIdListSpec(text: string, x: int)
    requires ProblemIdList(text).Some?
    ensures var ids := ProblemIdList(text).value;
      ids != [] && StrictlySorted(ids) &&
      (x in ids <==> TokenOf(TokensOfText(text), x)) &&
      (forall i :: 0 <= i < |ids| ==> ids[i] >= 0)
  {
    SortedTokensSpec(TokensOfText(text), x);
  }

  lemma {:induction false} TokensEmpty(tokens: seq<string>)
    ensures Tokens(tokens) == [] <==> forall i :: 0 <= i < |tokens| ==> !IsDigits(tokens[i])
  {
    if tokens != [] {
      var init := tokens[..|tokens| - 1];
      TokensEmpty(init);
      assert forall i :: 0 <= i < |init| ==> init[i] == tokens[i];
    }
  }

  /** The form is rejected, and nothing stored, exactly for blank input and for input
      without a single digit token. */
  lemma ProblemIdListRejects(text: string)
    ensures ProblemIdList(text).None? <==>
      Blank(text) || forall i :: 0 <= i < |TokensOfText(text)| ==> !IsDigits(TokensOfText(text)[i])
  {
    var tokens := TokensOfText(text);
    StripEmptyIffBlank(text);
    TokensEmpty(tokens);
    SortedDistinctSpec(Tokens(tokens));
    ElemsEmpty(SortedDistinct(Tokens(tokens)));
    ElemsEmpty(Tokens(tokens));
  }

  /** The list rendered back into the update form: str() of each number joined by ','. */
  function IdText(ids: seq<int>): (r: seq<string>)
    requires forall i :: 0 <= i < |ids| ==> ids[i] >= 0
    ensures |r| == |ids|
    ensures forall i :: 0 <= i < |ids| ==> r[i] == Str(ids[i])
  {
    seq(|ids|, i requires 0 <= i < |ids| => Str(ids[i]))
  }

  lemma {:induction false} TokensOfRendered(ids: seq<int>)
    requires forall i :: 0 <= i < |ids| ==> ids[i] >= 0
    ensures Tokens(IdText(ids)) == ids
  {
    if ids != [] {
      var init := ids[..|ids| - 1];
      var last := ids[|ids| - 1];
      TokensOfRendered(init);
      assert IdText(ids)[..|ids| - 1] == IdText(init);
    }
  }

  /** The numbers rendered with str() and joined by ',' split back into the same tokens. */
  lemma TokensOfJoined(ids: seq<int>)
    requires ids != []
    requires forall i :: 0 <= i < |ids| ==> ids[i] >= 0
    ensures Join(IdText(ids), ',') != [] && Strip(Join(IdText(ids), ',')) == Join(IdText(ids), ',')
    ensures TokensOfText(Join(IdText(ids), ',')) == IdText(ids)
  {
    var pieces := IdText(ids);
    var text := Join(pieces, ',');
    forall i | 0 <= i < |pieces| ensures ',' !in pieces[i] && Strip(pieces[i]) == pieces[i] {
      assert pieces[i] == Str(ids[i]);
      assert IsDigits(pieces[i]);
      StripKeeps(pieces[i]);
    }
    assert StripEach(pieces) == pieces;
    LinkSubmission.JoinFirst(pieces, ',');
    LinkSubmission.JoinLast(pieces, ',');
    assert IsDigits(pieces[0]) && IsDigits(pieces[|pieces| - 1]);
    StripKeeps(text);
    JoinSplit(pieces, ',');
  }

  /** Sending the update form back unchanged stores the same list. */
  lemma ProblemIdListRoundTrip(ids: seq<int>)
    requires ids != [] && StrictlySorted(ids)
    requires forall i :: 0 <= i < |ids| ==> ids[i] >= 0
    ensures ProblemIdList(Join(IdText(ids), ',')) == Some(ids)
  {
    TokensOfJoined(ids);
    TokensOfRendered(ids);
    SortedDistinctSpec(ids);
    SortedUnique(SortedDistinct(ids), ids);
  }

  // ---------------------------------------------------------------------
  // The progress report of problem_set_status and mock_test_status.
  // ---------------------------------------------------------------------

  /** What the solved.ac lookup gave for one member. */
  datatype Fetch = NoHandle | Raised | Fetched(solved: seq<int>)

  datatype Member = Member(username: string, fetch: Fetch)

  datatype Mark = NoHandleMark | ErrorMark | AllSolved | InProgress

  datatype Progress = Progress(username: string, solvedCount: nat, total: nat, mark: Mark)

  /** One member's line of the report. */
  function ProgressOf(problemIds: seq<int>, m: Member): Progress {
    match m.fetch
    case NoHandle => Progress(m.username, 0, |problemIds|, NoHandleMark)
    case Raised => Progress(m.username, 0, |problemIds|, ErrorMark)
    case Fetched(solved) =>
      var count := CountIn(problemIds, Elems(solved));
      Progress(m.username, count, |problemIds|, if count == |problemIds| then AllSolved else InProgress)
  }

  /** For a list without repeats, the count is the number of its problems in t. */
  /** The tail of an ascending list is ascending and does not hold the head. */
  lemma SortedTail(xs: seq<int>)
    requires xs != [] && StrictlySorted(xs)
    ensures StrictlySorted(xs[1..]) && xs[0] !in Elems(xs[1..])
  {
    var tail := xs[1..];
    forall i, j | 0 <= i < j < |tail| ensures tail[i] < tail[j] {
      assert tail[i] == xs[i + 1] && tail[j] == xs[j + 1];
    }
    forall k | 0 <= k < |tail| ensures tail[k] != xs[0] {
      assert tail[k] == xs[k + 1];
    }
  }

  /** A head not repeated in the tail adds one to the count of t's elements when it is in t. */
  lemma CountStep(xs: seq<int>, t: set<int>)
    requires xs != [] && xs[0] !in Elems(xs[1..])
    ensures |Elems(xs) * t| == (if xs[0] in t then 1 else 0) + |Elems(xs[1..]) * t|
  {
    var h := xs[0];
    var tail := xs[1..];
    assert xs == [h] + tail;
    ElemsCons(h, tail);
    var rest := Elems(tail) * t;
    assert h !in rest;
    if h in t {
      assert Elems(xs) * t == rest + {h};
    } else {
      assert Elems(xs) * t == rest;
    }
  }

  lemma {:induction false} CountInDistinct(xs: seq<int>, t: set<int>)
    requires StrictlySorted(xs)
    ensures CountIn(xs, t) == |Elems(xs) * t|
  {
    if xs == [] {
      assert Elems(xs) == {};
    } else {
      SortedTail(xs);
      CountInDistinct(xs[1..], t);
      CountStep(xs, t);
    }
  }

  /** The count reaches the length exactly when every element is in t. */
  lemma {:induction false} CountInAll(xs: seq<int>, t: set<int>)
    ensures CountIn(xs, t) == |xs| <==> forall i :: 0 <= i < |xs| ==> xs[i] in t
  {
    if xs != [] {
      CountInAll(xs[1..], t);
      assert forall i :: 1 <= i < |xs| ==> xs[i] == xs[1..][i - 1];
    }
  }

  /** The progress line honours the report's promises: 0 <= count <= total, the all-solved
      mark exactly when count == total, and 0 with a warning for a member without a handle. */
  lemma ProgressShape(problemIds: seq<int>, m: Member)
    requires StrictlySorted(problemIds)
    ensures var p := ProgressOf(problemIds, m);
      p.total == |problemIds| && p.solvedCount <= p.total &&
      (m.fetch.NoHandle? ==> p.solvedCount == 0 && p.mark == NoHandleMark) &&
      (m.fetch.Raised? ==> p.solvedCount == 0 && p.mark == ErrorMark) &&
      (m.fetch.Fetched? ==>
        p.solvedCount == |Elems(problemIds) * Elems(m.fetch.solved)| &&
        (p.mark == AllSolved <==> forall i :: 0 <= i < |problemIds| ==> problemIds[i] in m.fetch.solved))
  {
    if m.fetch.Fetched? {
      CountInDistinct(problemIds, Elems(m.fetch.solved));
      CountInAll(problemIds, Elems(m.fetch.solved));
    }
  }

  /** The report lines of the members, in member order. */
  function ProgressRows(problemIds: seq<int>, members: seq<Member>): (rows: seq<Progress>)
    ensures |rows| == |members|
    ensures forall i :: 0 <= i < |members| ==> rows[i] == ProgressOf(problemIds, members[i])
  {
    seq(|members|, i requires 0 <= i < |members| => ProgressOf(problemIds, members[i]))
  }

  method BuildProgress(problemIds: seq<int>, members: seq<Member>) returns (rows: seq<Progress>)
    ensures rows == ProgressRows(problemIds, members)
  {
    rows := [];
    var i := 0;
    while i < |members|
      invariant 0 <= i <= |members|
      invariant |rows| == i
      invariant forall j :: 0 <= j < i ==> rows[j] == ProgressOf(problemIds, members[j])
    {
      var m := members[i];
      var p: Progress;
      match m.fetch {
        case NoHandle =>
          p := Progress(m.username, 0, |problemIds|, NoHandleMark);
        case Raised =>
          p := Progress(m.username, 0, |problemIds|, ErrorMark);
        case Fetched(solved) =>
          var count := CountIn(problemIds, Elems(solved));
          p := Progress(m.username, count, |problemIds|, if count == |problemIds| then AllSolved else InProgress);
      }
      rows := rows + [p];
      i := i + 1;
    }
    assert rows == ProgressRows(problemIds, members);
  }

  ghost predicate ByCountDescending(rows: seq<Progress>) {
    forall i, j :: 0 <= i < j < |rows| ==> rows[i].solvedCount >= rows[j].solvedCount
  }

  /** Puts x after every row of the descending rows whose count is not smaller. */
  function InsertByCount(x: Progress, rows: seq<Progress>): seq<Progress> {
    if rows == [] then [x]
    else if x.solvedCount > rows[0].solvedCount then [x] + rows
    else [rows[0]] + InsertByCount(x, rows[1..])
  }

  /** sort(key=solved_count, reverse=True): stable, so equal counts keep member order. */
  function SortByCount(rows: seq<Progress>): seq<Progress> {
    if rows == [] then [] else InsertByCount(rows[|rows| - 1], SortByCount(rows[..|rows| - 1]))
  }

  lemma {:induction false} InsertByCountBound(x: Progress, rows: seq<Progress>, b: int)
    requires forall i :: 0 <= i < |rows| ==> rows[i].solvedCount <= b
    requires x.solvedCount <= b
    ensures forall i :: 0 <= i < |InsertByCount(x, rows)| ==> InsertByCount(x, rows)[i].solvedCount <= b
  {
    if rows != [] && x.solvedCount <= rows[0].solvedCount {
      InsertByCountBound(x, rows[1..], b);
    }
  }

  lemma {:induction false} InsertByCountSorted(x: Progress, rows: seq<Progress>)
    requires ByCountDescending(rows)
    ensures ByCountDescending(InsertByCount(x, rows))
  {
    if rows != [] && x.solvedCount <= rows[0].solvedCount {
      var tail := InsertByCount(x, rows[1..]);
      InsertByCountSorted(x, rows[1..]);
      InsertByCountBound(x, rows[1..], rows[0].solvedCount);
      var r := [rows[0]] + tail;
      forall i, j | 0 <= i < j < |r| ensures r[i].solvedCount >= r[j].solvedCount {
        if i > 0 {
          assert r[i] == tail[i - 1] && r[j] == tail[j - 1];
        } else {
          assert r[j] == tail[j - 1];
        }
      }
    }
  }

  lemma {:induction false} InsertByCountMultiset(x: Progress, rows: seq<Progress>)
    ensures multiset(InsertByCount(x, rows)) == multiset(rows) + multiset{x}
  {
    if rows != [] && x.solvedCount <= rows[0].solvedCount {
      InsertByCountMultiset(x, rows[1..]);
      assert rows == [rows[0]] + rows[1..];
    }
  }

  /** The report lists the rows by count, highest first, and only rearranges them. */
  lemma {:induction false} SortByCountSorted(rows: seq<Progress>)
    ensures ByCountDescending(SortByCount(rows))
  {
    if rows != [] {
      var init := rows[..|rows| - 1];
      SortByCountSorted(init);
      InsertByCountSorted(rows[|rows| - 1], SortByCount(init));
    }
  }

  lemma {:induction false} SortByCountMultiset(rows: seq<Progress>)
    ensures multiset(SortByCount(rows)) == multiset(rows)
  {
    if rows != [] {
      var init := rows[..|rows| - 1];
      var last := rows[|rows| - 1];
      SortByCountMultiset(init);
      InsertByCountMultiset(last, SortByCount(init));
      assert rows == init + [last];
    }
  }

  /** The statistics: members who solved everything, some, and nothing. */
  datatype Stats = Stats(all: nat, some: nat, none: nat)

  function StatsOf(rows: seq<Progress>): Stats {
    if rows == [] then Stats(0, 0, 0)
    else
      var s := StatsOf(rows[1..]);
      var r := rows[0];
      Stats(s.all + (if r.solvedCount == r.total then 1 else 0),
            s.some + (if 0 < r.solvedCount < r.total then 1 else 0),
            s.none + (if r.solvedCount == 0 then 1 else 0))
  }

  /** With a non-empty problem list every member falls in exactly one of the three groups. */
  lemma {:induction false} StatsPartition(rows: seq<Progress>)
    requires forall i :: 0 <= i < |rows| ==> 0 < rows[i].total && rows[i].solvedCount <= rows[i].total
    ensures StatsOf(rows).all + StatsOf(rows).some + StatsOf(rows).none == |rows|
  {
    if rows != [] {
      StatsPartition(rows[1..]);
    }
  }

  /** The outcome of the status command. */
  datatype Report =
    | NoSuchSet
    | NoSuchGroup
    | NoMembers
    | NoProblems
    | Listed(rows: seq<Progress>, stats: Stats)

  /** The listing part of the command: one line per member, sorted, and the statistics. */
  method ListProgress(problemIds: seq<int>, members: seq<Member>) returns (rows: seq<Progress>, stats: Stats)
    ensures rows == SortByCount(ProgressRows(problemIds, members))
    ensures stats == StatsOf(rows)
  {
    rows := BuildProgress(problemIds, members);
    rows := SortByCount(rows);
    stats := StatsOf(rows);
  }

  /** The members holding role, or none. */
  function MembersOf(roleMembers: map<string, seq<Member>>, role: string): seq<Member> {
    if role in roleMembers then roleMembers[role] else []
  }

  /** problem_set_status (and mock_test_status, which runs the same steps): the stored
      list, the group query, the studies, the members of each role and their lookups. */
  method SetStatus(problemSet: Option<seq<int>>, groupQuery: string, studies: seq<LinkSubmission.Study>,
                   roleMembers: map<string, seq<Member>>)
    returns (report: Report)
    ensures problemSet.None? ==> report == NoSuchSet
    ensures problemSet.Some? && LinkSubmission.FindRoleByGroupName(groupQuery, studies).None? ==>
      report == NoSuchGroup
    ensures problemSet.Some? && LinkSubmission.FindRoleByGroupName(groupQuery, studies).Some? ==>
      var members := MembersOf(roleMembers, LinkSubmission.FindRoleByGroupName(groupQuery, studies).value);
      (members == [] ==> report == NoMembers) &&
      (members != [] && problemSet.value == [] ==> report == NoProblems) &&
      (members != [] && problemSet.value != [] ==>
        report == Listed(SortByCount(ProgressRows(problemSet.value, members)),
                         StatsOf(SortByCount(ProgressRows(problemSet.value, members)))))
  {
    if problemSet.None? {
      return NoSuchSet;
    }
    var role := LinkSubmission.FindRoleByGroupName(groupQuery, studies);
    if role.None? {
      return NoSuchGroup;
    }
    var members := MembersOf(roleMembers, role.value);
    if members == [] {
      return NoMembers;
    }
    var problemIds := problemSet.value;
    if |problemIds| == 0 {
      return NoProblems;
    }
    var rows, stats := ListProgress(problemIds, members);
    return Listed(rows, stats);
  }

  /** A listed report keeps every member once, highest count first, and its statistics
      add up to the number of members. */
  lemma ListedReport(problemIds: seq<int>, members: seq<Member>)
    requires problemIds != []
    ensures var base := ProgressRows(problemIds, members);
      var rows := SortByCount(base);
      multiset(rows) == multiset(base) && ByCountDescending(rows) &&
      StatsOf(rows).all + StatsOf(rows).some + StatsOf(rows).none == |members|
  {
    var base := ProgressRows(problemIds, members);
    var rows := SortByCount(base);
    SortByCountSorted(base);
    SortByCountMultiset(base);
    forall i | 0 <= i < |rows| ensures 0 < rows[i].total && rows[i].solvedCount <= rows[i].total {
      assert rows[i] in multiset(base);
      var j :| 0 <= j < |base| && base[j] == rows[i];
    }
    StatsPartition(rows);
    assert |rows| == |multiset(rows)| == |multiset(base)| == |members|;
  }
}
