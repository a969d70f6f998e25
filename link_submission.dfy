/** Weekly link submissions of a study group: finding the role of a group by its
    name, building the ordered submission board, the hourly refresh that keeps the
    board up to date or forgets it once the week is over, and the parsing of the
    links a member pastes into the submission form. */
module LinkSubmission {
  import opened Base

  // ---------------------------------------------------------------------
  // find_role_by_group_name.
  // ---------------------------------------------------------------------

  /** One entry of data['studies']: the role name (the dictionary key) and the stored
      group_name, where "" stands for a missing, None or empty group name (all three
      fall through Python's `or` alike). Entries are in dictionary order. */
  datatype Study = Study(role: string, groupName: string)

  /** The comparison form of a name: strip(), then lower(). */
  function Normal(s: string): string {
    Lower(Strip(s))
  }

  /** The group name a study answers to; an empty group name falls back to the role name. */
  function StoredGroup(st: Study): string {
    Normal(if st.groupName != [] then st.groupName else st.role)
  }

  predicate Matches(target: string, st: Study) {
    target == StoredGroup(st) || target == Normal(st.role)
  }

  /** The two comparison forms of every study, in order. */
  function Keys(studies: seq<Study>): (keys: seq<(string, string)>)
    ensures |keys| == |studies|
    ensures forall i :: 0 <= i < |studies| ==> keys[i] == (StoredGroup(studies[i]), Normal(studies[i].role))
  {
    seq(|studies|, i requires 0 <= i < |studies| => (StoredGroup(studies[i]), Normal(studies[i].role)))
  }

  /** Position of the first key pair holding target, or |keys| when none does. */
  function FirstMatch(target: string, keys: seq<(string, string)>): (k: nat)
    ensures k <= |keys|
    ensures k < |keys| ==> target == keys[k].0 || target == keys[k].1
    ensures forall j :: 0 <= j < k ==> target != keys[j].0 && target != keys[j].1
  {
    if keys == [] then 0
    else if target == keys[0].0 || target == keys[0].1 then 0
    else 1 + FirstMatch(target, keys[1..])
  }

  /** A study matches exactly when its key pair holds the target. */
  lemma KeysMatch(target: string, studies: seq<Study>)
    ensures forall j :: 0 <= j < |studies| ==>
      (Matches(target, studies[j]) <==> target == Keys(studies)[j].0 || target == Keys(studies)[j].1)
  {
  }

  /** Position of the first study the target matches, or |studies| when none does. */
  function FirstMatching(target: string, studies: seq<Study>): (k: nat)
    ensures k <= |studies|
    ensures k < |studies| ==> Matches(target, studies[k])
    ensures forall j :: 0 <= j < k ==> !Matches(target, studies[j])
  {
    KeysMatch(target, studies);
    FirstMatch(target, Keys(studies))
  }

  /** The role of the first study the target matches. */
  function RoleOfFirstMatch(target: string, studies: seq<Study>): (r: Option<string>)
    ensures r.None? <==> forall k :: 0 <= k < |studies| ==> !Matches(target, studies[k])
    ensures r.Some? ==> exists k :: (0 <= k < |studies| && studies[k].role == r.value &&
      Matches(target, studies[k]) &&
      forall j :: 0 <= j < k ==> !Matches(target, studies[j]))
  {
    var k := FirstMatching(target, studies);
    if k < |studies| then Some(studies[k].role) else None
  }

  /** The role of the first study whose group name or role name equals the query,
      both sides stripped and lower-cased; None when no study matches. */
  function FindRoleByGroupName(query: string, studies: seq<Study>): (r: Option<string>)
    ensures r.None? <==> forall k :: 0 <= k < |studies| ==> !Matches(Normal(query), studies[k])
    ensures r.Some? ==> exists k :: (0 <= k < |studies| && studies[k].role == r.value &&
      Matches(Normal(query), studies[k]) &&
      forall j :: 0 <= j < k ==> !Matches(Normal(query), studies[j]))
  {
    RoleOfFirstMatch(Normal(query), studies)
  }

  /** The lookup does not see the case of the query. */
  lemma FindRoleIgnoresCase(query: string, studies: seq<Study>)
    ensures FindRoleByGroupName(Lower(query), studies) == FindRoleByGroupName(query, studies)
  {
    NormalLower(query);
  }

  /** Nor the whitespace around it. */
  lemma FindRoleIgnoresPadding(query: string, studies: seq<Study>)
    ensures FindRoleByGroupName(Strip(query), studies) == FindRoleByGroupName(query, studies)
  {
    StripIdempotent(query);
  }

  /** Nor the case of the stored names: a study renamed to the lower-case form of its
      names is found exactly when the original is. */
  lemma StoredCaseIgnored(target: string, st: Study)
    ensures Matches(target, Study(Lower(st.role), Lower(st.groupName))) == Matches(target, st)
  {
    NormalLower(st.role);
    NormalLower(st.groupName);
    assert (Lower(st.groupName) != []) == (st.groupName != []);
  }

  lemma NormalLower(s: string)
    ensures Normal(Lower(s)) == Normal(s)
  {
    LowerStrip(s);
    LowerIdempotent(Strip(s));
  }

  // ---------------------------------------------------------------------
  // The submission board of update_link_submission_status.
  // ---------------------------------------------------------------------

  /** A stored weekly submission: who sent it and the links. */
  datatype LinkRecord = LinkRecord(userId: string, links: seq<string>)

  /** A member holding the group's role. */
  datatype Member = Member(userId: string, username: string)

  /** One line of the board: the member, the name shown and the links (possibly none). */
  datatype Row = Row(userId: string, name: string, links: seq<string>)

  /** submission_map after its loop: every record overwrites the earlier one of the same user. */
  function LatestLinks(subs: seq<LinkRecord>): map<string, seq<string>> {
    if subs == [] then map[]
    else LatestLinks(subs[..|subs| - 1])[subs[|subs| - 1].userId := subs[|subs| - 1].links]
  }

  method BuildSubmissionMap(subs: seq<LinkRecord>) returns (m: map<string, seq<string>>)
    ensures m == LatestLinks(subs)
  {
    m := map[];
    var i := 0;
    while i < |subs|
      invariant 0 <= i <= |subs|
      invariant m == LatestLinks(subs[..i])
    {
      assert subs[..i + 1][..i] == subs[..i];
      m := m[subs[i].userId := subs[i].links];
      i := i + 1;
    }
    assert subs[..|subs|] == subs;
  }

  /** A user has an entry exactly when some record is theirs. */
  lemma {:induction false} LatestLinksKeys(subs: seq<LinkRecord>, u: string)
    ensures u in LatestLinks(subs) <==> exists k :: 0 <= k < |subs| && subs[k].userId == u
  {
    if subs != [] {
      var init := subs[..|subs| - 1];
      LatestLinksKeys(init, u);
      if subs[|subs| - 1].userId != u {
        forall k | 0 <= k < |subs| && subs[k].userId == u
          ensures exists k' :: 0 <= k' < |init| && init[k'].userId == u
        {
          assert init[k] == subs[k];
        }
      }
    }
  }

  /** The entry kept for a user is the links of that user's last record. */
  lemma {:induction false} LatestLinksLastWins(subs: seq<LinkRecord>, k: nat)
    requires k < |subs|
    requires forall j :: k < j < |subs| ==> subs[j].userId != subs[k].userId
    ensures subs[k].userId in LatestLinks(subs)
    ensures LatestLinks(subs)[subs[k].userId] == subs[k].links
  {
    if k < |subs| - 1 {
      var init := subs[..|subs| - 1];
      assert init[k] == subs[k];
      assert forall j :: k < j < |init| ==> init[j] == subs[j];
      LatestLinksLastWins(init, k);
    }
  }

  /** The row of one member: the display name when the server knows one, and the
      member's links, or none. */
  function RowFor(u: Member, m: map<string, seq<string>>, displayName: map<string, string>): Row {
    Row(u.userId,
        if u.userId in displayName then displayName[u.userId] else u.username,
        if u.userId in m then m[u.userId] else [])
  }

  function RowsFor(users: seq<Member>, m: map<string, seq<string>>, displayName: map<string, string>): (rows: seq<Row>)
    ensures |rows| == |users|
    ensures forall i :: 0 <= i < |users| ==> rows[i] == RowFor(users[i], m, displayName)
  {
    if users == [] then []
    else RowsFor(users[..|users| - 1], m, displayName) + [RowFor(users[|users| - 1], m, displayName)]
  }

  lemma RowsForStep(users: seq<Member>, i: int, m: map<string, seq<string>>, displayName: map<string, string>)
    requires 0 <= i < |users|
    ensures RowsFor(users[..i + 1], m, displayName) == RowsFor(users[..i], m, displayName) + [RowFor(users[i], m, displayName)]
  {
    assert users[..i + 1][..i] == users[..i];
  }

  method BuildRows(users: seq<Member>, m: map<string, seq<string>>, displayName: map<string, string>)
    returns (rows: seq<Row>)
    ensures rows == RowsFor(users, m, displayName)
  {
    rows := [];
    var i := 0;
    while i < |users|
      invariant 0 <= i <= |users|
      invariant rows == RowsFor(users[..i], m, displayName)
    {
      RowsForStep(users, i, m, displayName);
      rows := rows + [RowFor(users[i], m, displayName)];
      i := i + 1;
    }
    assert users[..|users|] == users;
  }

  /** Python's `<` on str: lexicographic by code point, a proper prefix first. */
  predicate StrLess(a: string, b: string) {
    if a == [] then b != []
    else b != [] && (a[0] < b[0] || (a[0] == b[0] && StrLess(a[1..], b[1..])))
  }

  lemma {:induction false} StrLessTrans(a: string, b: string, c: string)
    requires StrLess(a, b) && StrLess(b, c)
    ensures StrLess(a, c)
  {
    if a != [] && a[0] == b[0] && b[0] == c[0] {
      StrLessTrans(a[1..], b[1..], c[1..]);
    }
  }

  lemma {:induction false} StrLessIrreflexive(a: string)
    ensures !StrLess(a, a)
  {
    if a != [] {
      StrLessIrreflexive(a[1..]);
    }
  }

  lemma {:induction false} StrLessTotal(a: string, b: string)
    requires a != b
    ensures StrLess(a, b) || StrLess(b, a)
  {
    if a != [] && b != [] && a[0] == b[0] {
      assert a == [a[0]] + a[1..] && b == [b[0]] + b[1..];
      StrLessTotal(a[1..], b[1..]);
    }
  }

  /** The sort key (len(links) == 0, username) compared as a Python tuple, strictly. */
  predicate RowLess(a: Row, b: Row) {
    (a.links != [] && b.links == []) ||
    ((a.links == []) == (b.links == []) && StrLess(a.name, b.name))
  }

  lemma RowLessTrans(a: Row, b: Row, c: Row)
    requires RowLess(a, b) && RowLess(b, c)
    ensures RowLess(a, c)
  {
    if (a.links == []) == (b.links == []) && (b.links == []) == (c.links == []) {
      StrLessTrans(a.name, b.name, c.name);
    }
  }

  lemma RowLessIrreflexive(a: Row)
    ensures !RowLess(a, a)
  {
    StrLessIrreflexive(a.name);
  }

  /** Transitivity read backwards: what is not below c is not below anything below c. */
  lemma RowLessNotBelow(a: Row, b: Row, c: Row)
    requires RowLess(b, c) && !RowLess(a, c)
    ensures !RowLess(a, b)
  {
    if (a.links == []) == (b.links == []) && (b.links == []) == (c.links == []) && StrLess(a.name, b.name) {
      StrLessTrans(a.name, b.name, c.name);
    }
  }

  ghost predicate RowsSorted(rows: seq<Row>) {
    forall i, j :: 0 <= i < j < |rows| ==> !RowLess(rows[j], rows[i])
  }

  /** Puts x after every row of the sorted rows whose key is not greater than x's. */
  function InsertRow(x: Row, rows: seq<Row>): seq<Row> {
    if rows == [] then [x]
    else if RowLess(x, rows[0]) then [x] + rows
    else [rows[0]] + InsertRow(x, rows[1..])
  }

  /** list.sort with that key: stable, so rows with equal keys keep their order. */
  function SortRows(rows: seq<Row>): seq<Row> {
    if rows == [] then [] else InsertRow(rows[|rows| - 1], SortRows(rows[..|rows| - 1]))
  }

  lemma {:induction false} InsertRowBound(x: Row, rows: seq<Row>, b: Row)
    requires forall i :: 0 <= i < |rows| ==> !RowLess(rows[i], b)
    requires !RowLess(x, b)
    ensures forall i :: 0 <= i < |InsertRow(x, rows)| ==> !RowLess(InsertRow(x, rows)[i], b)
  {
    if rows != [] && !RowLess(x, rows[0]) {
      InsertRowBound(x, rows[1..], b);
    }
  }

  lemma {:induction false} InsertRowSorted(x: Row, rows: seq<Row>)
    requires RowsSorted(rows)
    ensures RowsSorted(InsertRow(x, rows))
  {
    if rows == [] {
    } else if RowLess(x, rows[0]) {
      var r := [x] + rows;
      forall i, j | 0 <= i < j < |r| ensures !RowLess(r[j], r[i]) {
        if i == 0 {
          assert r[j] == rows[j - 1];
          if j == 1 {
            RowLessIrreflexive(rows[0]);
          }
          RowLessNotBelow(r[j], x, rows[0]);
        } else {
          assert r[i] == rows[i - 1] && r[j] == rows[j - 1];
        }
      }
    } else {
      var tail := InsertRow(x, rows[1..]);
      InsertRowSorted(x, rows[1..]);
      InsertRowBound(x, rows[1..], rows[0]);
      var r := [rows[0]] + tail;
      forall i, j | 0 <= i < j < |r| ensures !RowLess(r[j], r[i]) {
        if i > 0 {
          assert r[i] == tail[i - 1] && r[j] == tail[j - 1];
        } else {
          assert r[j] == tail[j - 1];
        }
      }
    }
  }

  lemma {:induction false} InsertRowMultiset(x: Row, rows: seq<Row>)
    ensures multiset(InsertRow(x, rows)) == multiset(rows) + multiset{x}
  {
    if rows != [] && !RowLess(x, rows[0]) {
      InsertRowMultiset(x, rows[1..]);
      assert rows == [rows[0]] + rows[1..];
    }
  }

  /** The number of rows with at least one link: submitted_count. */
  function Submitted(rows: seq<Row>): (n: nat)
    ensures n <= |rows|
  {
    if rows == [] then 0 else (if rows[0].links != [] then 1 else 0) + Submitted(rows[1..])
  }

  lemma {:induction false} InsertRowSubmitted(x: Row, rows: seq<Row>)
    ensures Submitted(InsertRow(x, rows)) == Submitted(rows) + (if x.links != [] then 1 else 0)
  {
    if rows != [] && !RowLess(x, rows[0]) {
      InsertRowSubmitted(x, rows[1..]);
    }
  }

  lemma {:induction false} SubmittedSnoc(rows: seq<Row>, x: Row)
    ensures Submitted(rows + [x]) == Submitted(rows) + (if x.links != [] then 1 else 0)
  {
    if rows != [] {
      assert (rows + [x])[1..] == rows[1..] + [x];
      SubmittedSnoc(rows[1..], x);
    }
  }

  /** Sorting orders the rows by the key, only rearranges them, and keeps the count of
      members who submitted. */
  lemma {:induction false} SortRowsSpec(rows: seq<Row>)
    ensures RowsSorted(SortRows(rows))
    ensures multiset(SortRows(rows)) == multiset(rows)
    ensures Submitted(SortRows(rows)) == Submitted(rows)
  {
    if rows != [] {
      var init := rows[..|rows| - 1];
      var last := rows[|rows| - 1];
      SortRowsSpec(init);
      InsertRowSorted(last, SortRows(init));
      InsertRowMultiset(last, SortRows(init));
      InsertRowSubmitted(last, SortRows(init));
      SubmittedSnoc(init, last);
      assert rows == init + [last];
    }
  }

  /** On a sorted board, the members who submitted come first, and within each of
      the two groups the names ascend. */
  lemma SortedBoardOrder(rows: seq<Row>)
    requires RowsSorted(rows)
    ensures forall i, j :: 0 <= i < j < |rows| && rows[j].links != [] ==> rows[i].links != []
    ensures forall i, j :: 0 <= i < j < |rows| && (rows[i].links == []) == (rows[j].links == []) ==>
      !StrLess(rows[j].name, rows[i].name)
  {
  }

  lemma {:induction false} NoneSubmitted(rows: seq<Row>)
    requires forall j :: 0 <= j < |rows| ==> rows[j].links == []
    ensures Submitted(rows) == 0
  {
    if rows != [] {
      NoneSubmitted(rows[1..]);
    }
  }

  /** With submitters first, the first submitted_count rows are exactly those with links. */
  lemma {:induction false} SubmittersArePrefix(rows: seq<Row>)
    requires forall i, j :: 0 <= i < j < |rows| && rows[j].links != [] ==> rows[i].links != []
    ensures forall i :: 0 <= i < |rows| ==> (rows[i].links != [] <==> i < Submitted(rows))
  {
    if rows != [] {
      var tail := rows[1..];
      assert forall i, j :: 0 <= i < j < |tail| && tail[j].links != [] ==> tail[i].links != [] by {
        forall i, j | 0 <= i < j < |tail| && tail[j].links != [] ensures tail[i].links != [] {
          assert tail[i] == rows[i + 1] && tail[j] == rows[j + 1];
        }
      }
      SubmittersArePrefix(tail);
      if rows[0].links == [] {
        assert forall j :: 0 <= j < |tail| ==> tail[j].links == [] by {
          forall j | 0 <= j < |tail| ensures tail[j].links == [] {
            assert tail[j] == rows[j + 1];
          }
        }
        NoneSubmitted(tail);
      }
      forall i | 0 < i < |rows| ensures rows[i].links != [] <==> i < Submitted(rows) {
        assert rows[i] == tail[i - 1];
      }
    }
  }

  /** One tracked board: the group it belongs to and its week. */
  datatype Tracked = Tracked(group: string, start: int, end: int)

  /** What update_link_submission_status does. Posted boards are saved with the new
      refresh time; every other outcome leaves the record alone, except MessageGone,
      which deletes it. */
  datatype Outcome =
    | Untracked
    | OutsideWindow
    | NoChannel
    | MessageGone
    | NoMembers
    | Posted(rows: seq<Row>, submitted: nat, total: nat)

  /** The refresh of one board. The channel and message lookups, the role's members,
      the week's records and the display names are its inputs. */
  method UpdateStatus(info: Option<Tracked>, now: int, channelFound: bool, messageFound: bool,
                      users: seq<Member>, subs: seq<LinkRecord>, displayName: map<string, string>)
    returns (u: Outcome)
    ensures info.None? ==> u == Untracked
    ensures info.Some? && !(info.value.start <= now <= info.value.end) ==> u == OutsideWindow
    ensures info.Some? && info.value.start <= now <= info.value.end ==>
      (!channelFound ==> u == NoChannel) &&
      (channelFound && !messageFound ==> u == MessageGone) &&
      (channelFound && messageFound && users == [] ==> u == NoMembers) &&
      (channelFound && messageFound && users != [] ==>
        u == Posted(SortRows(RowsFor(users, LatestLinks(subs), displayName)),
                    Submitted(RowsFor(users, LatestLinks(subs), displayName)), |users|))
  {
    if info.None? {
      return Untracked;
    }
    if !(info.value.start <= now <= info.value.end) {
      return OutsideWindow;
    }
    if !channelFound {
      return NoChannel;
    }
    if !messageFound {
      return MessageGone;
    }
    if users == [] {
      return NoMembers;
    }
    var m := BuildSubmissionMap(subs);
    var rows := BuildRows(users, m, displayName);
    var results := SortRows(rows);
    SortRowsSpec(rows);
    assert |results| == |multiset(results)| == |multiset(rows)| == |users|;
    var submitted := Submitted(results);
    return Posted(results, submitted, |results|);
  }

  /** A posted board: a rearrangement of the members' rows, submitters first and names
      ascending within each group, the first `submitted` rows being the members with
      links, and submitted <= total = the number of members. */
  lemma PostedBoard(users: seq<Member>, subs: seq<LinkRecord>, displayName: map<string, string>)
    ensures var rows := SortRows(RowsFor(users, LatestLinks(subs), displayName));
      multiset(rows) == multiset(RowsFor(users, LatestLinks(subs), displayName)) &&
      |rows| == |users| &&
      (forall i, j :: 0 <= i < j < |rows| && rows[j].links != [] ==> rows[i].links != []) &&
      (forall i, j :: 0 <= i < j < |rows| && (rows[i].links == []) == (rows[j].links == []) ==>
        !StrLess(rows[j].name, rows[i].name)) &&
      (forall i :: 0 <= i < |rows| ==> (rows[i].links != [] <==> i < Submitted(RowsFor(users, LatestLinks(subs), displayName)))) &&
      Submitted(RowsFor(users, LatestLinks(subs), displayName)) <= |users|
  {
    var base := RowsFor(users, LatestLinks(subs), displayName);
    var rows := SortRows(base);
    RowsForLength(users, LatestLinks(subs), displayName);
    SortRowsSpec(base);
    assert |rows| == |multiset(rows)| == |multiset(base)| == |base|;
    SortedBoardOrder(rows);
    SubmittersArePrefix(rows);
  }

  lemma {:induction false} RowsForLength(users: seq<Member>, m: map<string, seq<string>>, displayName: map<string, string>)
    ensures |RowsFor(users, m, displayName)| == |users|
  {
    if users != [] {
      RowsForLength(users[..|users| - 1], m, displayName);
    }
  }

  /** Discord caps an embed field at 1024 characters: a longer board is cut to 1021 and "..." appended. */
  function FieldText(text: string): (r: string)
    ensures |r| <= 1024
    ensures |text| <= 1024 ==> r == text
    ensures |text| > 1024 ==> |r| == 1024
    ensures |text| > 1024 ==> r[..1021] == text[..1021] && r[1021..] == "..."
  {
    if |text| > 1024 then text[..1021] + "..." else text
  }

  // ---------------------------------------------------------------------
  // link_submission_auto_update.
  // ---------------------------------------------------------------------

  datatype Action = RefreshBoard | DropRecord | Wait

  /** The hourly decision for one tracked board. */
  function AutoAction(start: int, end: int, now: int): (a: Action)
    ensures a == RefreshBoard <==> start <= now <= end
    ensures a == DropRecord <==> end < now
    ensures a == Wait <==> now < start && now <= end
  {
    if start <= now <= end then RefreshBoard
    else if now > end then DropRecord
    else Wait
  }

  /** The groups, in record order, whose board gets action a. */
  function GroupsWith(records: seq<Tracked>, now: int, a: Action): seq<string> {
    if records == [] then []
    else
      var rest := GroupsWith(records[..|records| - 1], now, a);
      var r := records[|records| - 1];
      if AutoAction(r.start, r.end, now) == a then rest + [r.group] else rest
  }

  method AutoUpdate(records: seq<Tracked>, now: int) returns (refreshed: seq<string>, dropped: seq<string>)
    ensures refreshed == GroupsWith(records, now, RefreshBoard)
    ensures dropped == GroupsWith(records, now, DropRecord)
  {
    refreshed, dropped := [], [];
    var i := 0;
    while i < |records|
      invariant 0 <= i <= |records|
      invariant refreshed == GroupsWith(records[..i], now, RefreshBoard)
      invariant dropped == GroupsWith(records[..i], now, DropRecord)
    {
      assert records[..i + 1][..i] == records[..i];
      var info := records[i];
      if info.start <= now <= info.end {
        refreshed := refreshed + [info.group];
      } else if now > info.end {
        dropped := dropped + [info.group];
      }
      i := i + 1;
    }
    assert records[..|records|] == records;
  }

  /** Every record gets exactly one of the three actions. */
  lemma {:induction false} ActionsPartition(records: seq<Tracked>, now: int)
    ensures |GroupsWith(records, now, RefreshBoard)| + |GroupsWith(records, now, DropRecord)|
      + |GroupsWith(records, now, Wait)| == |records|
  {
    if records != [] {
      ActionsPartition(records[..|records| - 1], now);
    }
  }

  /** A refreshed group has a record whose week holds now, so its refresh is never
      turned away as outside the window. */
  lemma {:induction false} RefreshedInWindow(records: seq<Tracked>, now: int, g: string)
    requires g in GroupsWith(records, now, RefreshBoard)
    ensures exists k :: (0 <= k < |records| && records[k].group == g &&
      records[k].start <= now <= records[k].end)
  {
    var init := records[..|records| - 1];
    var r := records[|records| - 1];
    if g in GroupsWith(init, now, RefreshBoard) {
      RefreshedInWindow(init, now, g);
      var k :| 0 <= k < |init| && init[k].group == g && init[k].start <= now <= init[k].end;
      assert records[k] == init[k];
    } else {
      assert r.group == g && AutoAction(r.start, r.end, now) == RefreshBoard;
    }
  }

  // ---------------------------------------------------------------------
  // LinkSubmissionModal.on_submit.
  // ---------------------------------------------------------------------

  function KeepLinks(pieces: seq<string>): seq<string> {
    if pieces == [] then []
    else if Strip(pieces[0]) != [] then [Strip(pieces[0])] + KeepLinks(pieces[1..])
    else KeepLinks(pieces[1..])
  }

  /** The stored links of a form submission; None where the form is rejected. */
  function ParseLinks(text: string): Option<seq<string>> {
    var t := Strip(text);
    if t == [] then None
    else
      var links := KeepLinks(Split(t, '\n'));
      if links == [] then None else Some(links)
  }

  /** A valid link line: non-empty, already stripped, on one line. */
  predicate LinkLine(l: string) {
    l != [] && Strip(l) == l && '\n' !in l
  }

  lemma {:induction false} KeepLinksLines(pieces: seq<string>)
    requires forall i :: 0 <= i < |pieces| ==> '\n' !in pieces[i]
    ensures forall i :: 0 <= i < |KeepLinks(pieces)| ==> LinkLine(KeepLinks(pieces)[i])
  {
    if pieces != [] {
      KeepLinksLines(pieces[1..]);
      if Strip(pieces[0]) != [] {
        StripIdempotent(pieces[0]);
        StripKeepsOut(pieces[0], '\n');
      }
    }
  }

  lemma {:induction false} KeepLinksEmpty(pieces: seq<string>)
    requires KeepLinks(pieces) == []
    ensures forall i :: 0 <= i < |pieces| ==> Blank(pieces[i])
  {
    if pieces != [] {
      KeepLinksEmpty(pieces[1..]);
      StripEmptyIffBlank(pieces[0]);
    }
  }

  /** A text whose lines are all blank is blank. */
  lemma NoLinksBlank(t: string)
    ensures KeepLinks(Split(t, '\n')) == [] ==> Blank(t)
  {
    if KeepLinks(Split(t, '\n')) == [] {
      KeepLinksEmpty(Split(t, '\n'));
      JoinBlank(Split(t, '\n'), '\n');
      SplitJoin(t, '\n');
    }
  }

  /** Only blank input is rejected: a non-blank text always leaves at least one link, so
      the second rejection of the form never fires. */
  lemma ParseLinksRejectsBlank(text: string)
    ensures ParseLinks(text).None? <==> Blank(text)
  {
    StripEmptyIffBlank(text);
    StripEmptyIffBlank(Strip(text));
    StripIdempotent(text);
    NoLinksBlank(Strip(text));
  }

  /** Every stored link is non-empty, stripped and a single line. */
  lemma ParseLinksLines(text: string)
    requires ParseLinks(text).Some?
    ensures forall i :: 0 <= i < |ParseLinks(text).value| ==> LinkLine(ParseLinks(text).value[i])
  {
    KeepLinksLines(Split(Strip(text), '\n'));
  }

  lemma {:induction false} KeepLinksOfLines(links: seq<string>)
    requires forall i :: 0 <= i < |links| ==> LinkLine(links[i])
    ensures KeepLinks(links) == links
  {
    if links != [] {
      KeepLinksOfLines(links[1..]);
    }
  }

  lemma JoinFirst(pieces: seq<string>, sep: char)
    requires |pieces| >= 1 && pieces[0] != []
    ensures Join(pieces, sep) != [] && Join(pieces, sep)[0] == pieces[0][0]
  {
  }

  lemma {:induction false} JoinLast(pieces: seq<string>, sep: char)
    requires |pieces| >= 1 && pieces[|pieces| - 1] != []
    ensures Join(pieces, sep) != []
    ensures Join(pieces, sep)[|Join(pieces, sep)| - 1] == pieces[|pieces| - 1][|pieces[|pieces| - 1]| - 1]
  {
    if |pieces| > 1 {
      JoinLast(pieces[1..], sep);
    }
  }

  /** The form is opened pre-filled with the stored links joined by newlines; sending it
      back unchanged stores the same links. */
  lemma ParseLinksRoundTrip(links: seq<string>)
    requires links != []
    requires forall i :: 0 <= i < |links| ==> LinkLine(links[i])
    ensures ParseLinks(Join(links, '\n')) == Some(links)
  {
    var text := Join(links, '\n');
    JoinFirst(links, '\n');
    JoinLast(links, '\n');
    assert LinkLine(links[0]) && LinkLine(links[|links| - 1]);
    StripKeeps(text);
    JoinSplit(links, '\n');
    KeepLinksOfLines(links);
  }
}
