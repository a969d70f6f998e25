# koala-bot judge-data and assignment rules in Dafny

koala-bot is a Discord bot that runs Baekjoon Online Judge (BOJ) study groups. Members
register a BOJ handle. Staff create problem sets and assignments (blog posts, problem
solving, mock tests) per group role. The bot checks solves against solved.ac and the BOJ
status pages, records submissions in its data file and shows progress boards. This
project models the rules at the heart of the bot, and proves what they promise:

- **Tiers**: the tier codec over `TIER_MAPPING`: long names, `<letter><digit>` short codes,
  and the short form the bot prints.
- **Resolver**: the solved-set resolver. A dispatcher picks either the solved.ac search walker
  or the profile walker. The profile walker reads up to 100 pages, stops early and filters
  to a target. The search walker answers from page 1 alone; the paginated walk its
  docstring describes is modelled beside it.
- **History**: the history diff (`get_weekly_solved_count`) over the cumulative solvedCount
  series.
- **StatusPages**: the BOJ status-page walkers (`get_weekly_solved_from_boj_status`,
  `get_recent_solved_count`), the one-problem solve check and the tier-filtered decision map.
- **DateParse**: the date/time parser (`parse_datetime`, `parse_deadline`) and the token
  check.
- **LinkSubmission**: group lookup by name, the weekly link board (order and counts),
  the hourly refresh decision and link parsing.
- **ProblemSet**: the comma-list problem-ID parser and the per-member progress report.
- **StudyData**: the persisted data (studies, assignments, users and their submission
  lists) and the in-place `Store` the commands update.
- **Assignments**: the active window, parsing of a mock test's problem IDs and
  `min_solved`, mock-test self-submission with auto-verification, admin and scheduled
  verification, and the problem and blog submissions of the assignment menu.
- **Submissions**: the general blog, problem and mock-test submission commands.
- **Channel**: the group information view (status classification, completion counts and
  its pager) and the staff's per-member submission board.

Pages, rows, history entries, the status check's answers, the guild's role membership,
the hash function and "now" are inputs. Times are integer seconds from
0001-01-01 00:00 (naive, proleptic Gregorian), and the weekday is Monday-based as in
Python. Python sets of problem IDs are strictly ascending sequences. Dictionaries the
commands iterate are sequences in insertion order.

Where the code and its documentation disagree, the model follows the code:
- `verify_user_exists` answers False for every status but 200.
- Without pagination links the profile walker goes on up to 100 pages.
- The search walker returns during its first pass over page 1, and after a `break` it
  returns None (see Findings).
- A WAF page after the first one repeats the request without counting it.
- `number_to_tier_short` maps every IV tier to digit 5.
- The blog command of the assignment menu attaches its `else` to the `for`.

`domain/problem_set.py:22` imports `find_role_by_group_name` from `domain.channel`. The
source defines it only in `domain/link_submission.py:23`, which is the definition
modelled (`LinkSubmission.FindRoleByGroupName`).

## Model

| member | source | states |
|---|---|---|
| Tiers.FindTier | common/boj_utils.py:64-66 | the first index whose name is the query, or None exactly when no tier has that name |
| Tiers.BandOf | common/boj_utils.py:44-53 | the band of an upper-cased letter B/S/G/P/D/R, or None for any other letter |
| Tiers.NumberToTier | common/boj_utils.py:69-71 | the result is a tier name exactly for 0..30, and "Unknown" otherwise |
| Tiers.TierNamesDistinct | common/boj_utils.py:26-34 | no two tiers share a name, so the lookup loops are unambiguous |
| Tiers.FindTierExact | common/boj_utils.py:64-67 | the long-name loop finds n exactly when the input is tier n's name |
| Tiers.ShortFormExact | common/boj_utils.py:39-61 | a two-character input is accepted as tier n exactly when it is tier n's band letter, in either case, followed by a digit 1..5 giving 5·band + 6 − digit |
| Tiers.TierToNumber | common/boj_utils.py:36-67 | tier_to_number: the two-character short form is tried first, then the exact long names; TierToNumberExact states the result |
| Tiers.TierToNumberExact | common/boj_utils.py:36-67 | tier_to_number gives n exactly for tier n's long name or one of its short codes, and None for anything else |
| Tiers.NumberToTierRoundTrip | common/boj_utils.py:36-71 | tier_to_number inverts number_to_tier on 0..30, and reads back None for "Unknown" |
| Tiers.GoldTwo | common/boj_utils.py:37 | "Gold II", "G2" and "g2" all read as 14 |
| Tiers.LevelTests | common/boj_utils.py:95-104 | each substring test of number_to_tier_short holds of a tier name exactly for the levels listed |
| Tiers.NumberToTierShort | common/boj_utils.py:73-108 | number_to_tier_short as written, with the "V" test before the "IV" test; ShortCodeIs, ShortCodeRoundTrip and ShortCodeOfFourIsFive state the result |
| Tiers.ShortCodeIs | common/boj_utils.py:91-108 | the short form of a rated tier is its band letter and its level, except that level 4 gives 5 |
| Tiers.ShortCodeRoundTrip | common/boj_utils.py:73-108 | for rated tiers other than IV, the short form reads back as the same tier |
| Tiers.ShortCodeOfFourIsFive | common/boj_utils.py:95-98 | every IV tier's short form carries digit 5 and reads back as the tier below it |
| Tiers.BronzeFourShownAsFive | common/boj_utils.py:95-96 | tier 2 is printed "B5" and read back as tier 1 |
| Tiers.IntendedShortCodeRoundTrip | common/boj_utils.py:74-82 | with IV tested before V, every rated tier's short form reads back as itself |
| Tiers.ShortCodeOutsideRated | common/boj_utils.py:84-89 | 0 gives "Unrated" and any number outside 0..30 gives "Unknown", which read back as 0 and None |
| Resolver.MaxOf | common/boj_utils.py:243 | the largest page number among the links |
| Resolver.SearchBody | common/boj_utils.py:216-279 | one pass of the search walker's loop body: a raise or a failed page 1 returns [], a failed later page, an empty page, a covered target or the last page breaks, and otherwise the loop goes on with a cap of at most 100 pages; SearchFirstPage states what page 1 gives |
| Resolver.AppendTargets | common/boj_utils.py:265-267 | the page's IDs that are in the target are appended in page order |
| Resolver.SearchPage | common/boj_utils.py:216-279 | the loop body for one fetched page does what SearchBody says, each `break` and `return` included |
| Resolver.SearchAsWritten | common/boj_utils.py:194-290 | the search walker as written, with its sort and `return` inside the `while`: page 1's answer, or None after a `break`; SearchAsWrittenExact states the result |
| Resolver.CheckProblemsViaSearch | common/boj_utils.py:194-290 | the walker's single pass over page 1 computes SearchAsWritten, None after a `break` included |
| Resolver.SearchFirstPage | common/boj_utils.py:249-277 | on a page 1 with status 200 that lists problems, the pass breaks exactly when the target is covered or the links make page 1 the last page; otherwise the IDs kept are exactly the target IDs page 1 lists, ascending and distinct |
| Resolver.SearchAsWrittenExact | common/boj_utils.py:215-290 | a raise or a failed page 1 gives []; a page 1 with status 200 gives None exactly when it lists no problem, covers the target, or is the last page by its links; any other page 1 gives exactly its target IDs, ascending and distinct |
| Resolver.SearchReadsFirstPageOnly | common/boj_utils.py:215-286 | two sites that agree on page 1 get the same answer: page 2 is never fetched |
| Resolver.SearchAsWrittenMissesPageTwo | common/boj_utils.py:283-286 | with target {1000, 1001}, page 1 listing 1000 and linking to page 2, and page 2 listing 1001, the walker as written returns [1000] while the paginated walk returns [1000, 1001] |
| Resolver.SearchStep | common/boj_utils.py:196-199 | one page of the paginated walk the docstring describes: a `break` ends it with the sorted IDs found so far, and the cap never rises above 100 pages |
| Resolver.SearchWalk | common/boj_utils.py:196-199 | the paginated search walk from page 1 with a cap of 100 pages; SearchWalkExact and SearchWalkSound state the result |
| Resolver.PaginatedSearch | common/boj_utils.py:196-199 | the same loop with the sort and `return` after it computes the paginated walk |
| Resolver.ProfileStep | common/boj_utils.py:311-373 | one page of the profile walker never raises the cap above 100 pages |
| Resolver.ProfilePage | common/boj_utils.py:312-373 | the loop body for one fetched page does what ProfileStep says |
| Resolver.ProfileWalk | common/boj_utils.py:293-388 | the profile walk from page 1 with a cap of 100 pages, None where a fetch raised; ProfileWalkExact and ProfileWalkSound state the result |
| Resolver.GetAllSolvedViaPages | common/boj_utils.py:293-388 | the profile walker's loop computes the profile walk, None where a fetch raised |
| Resolver.GetUserSolvedProblems | common/boj_utils.py:162-191 | the search walker runs exactly for a non-empty target of at most 50 IDs, and its answer is passed on as it is, None included; otherwise the profile walker runs, and its exception gives [] |
| Resolver.UserExists | common/boj_utils.py:390-418 | a user exists exactly when the lookup answered 200 |
| Resolver.FinishSound | common/boj_utils.py:378-388 | the final sort is ascending and distinct, and filtering to the target keeps only target IDs |
| Resolver.SearchFromSound | common/boj_utils.py:196-199 | the rest of a paginated search walk is ascending and holds only target IDs that some page lists |
| Resolver.SearchWalkSound | common/boj_utils.py:196-199 | the paginated search walk returns ascending target IDs that some page lists |
| Resolver.ProfileFromSound | common/boj_utils.py:311-388 | the rest of a profile walk is ascending and within the listed IDs, and within the target when one is given |
| Resolver.ProfileWalkSound | common/boj_utils.py:293-388 | the profile walker returns ascending listed IDs, within a non-empty target |
| Resolver.SolvedProblemsSound | common/boj_utils.py:162-191 | whichever walker runs, a list the dispatcher returns is ascending and distinct, and within a non-empty target; only the search walker gives None |
| Resolver.SearchStepExact | common/boj_utils.py:196-199 | one page of the paginated walk adds exactly its IDs that are in the target to those found, and a raised fetch ends the walk with [] |
| Resolver.SearchFromExact | common/boj_utils.py:196-199 | from any page, the paginated walk gives [] if a fetch it makes raises, and otherwise exactly the IDs found so far plus the target IDs of every page it reads |
| Resolver.SearchWalkExact | common/boj_utils.py:196-199 | the paginated walk returns the sorted distinct target IDs of all pages it read up to its stop, and [] once a fetch raised |
| Resolver.SearchStopsWhenCovered | common/boj_utils.py:196-199 | on any page whose IDs, with those found before, cover the target, the paginated walk stops there with the sorted target and reads no further page |
| Resolver.ProfileStepExact | common/boj_utils.py:311-373 | one profile page adds all its IDs to those found; a stop keeps those in the target, or all of them for an empty target; only a raised fetch gives None |
| Resolver.ProfileFromExact | common/boj_utils.py:311-388 | from any page, the walk gives None exactly when a fetch it makes raises, and otherwise keeps, of the IDs found and those of every page it reads, those in the target (all of them for an empty target) |
| Resolver.ProfileWalkExact | common/boj_utils.py:293-388 | the profile walker returns, ascending, exactly the IDs of the pages it read that are in the target, or all of them for an empty target; None exactly when a fetch raised |
| Resolver.ProfileStopsWhenCovered | common/boj_utils.py:368-371 | on any page whose IDs, with those found before, cover a non-empty target, the profile walk stops there with the sorted target and reads no further page |
| Resolver.FirstPageFailure | common/boj_utils.py:219-222 | a non-200 first page gives [] from both walkers and from the paginated walk, and a raising first fetch makes the profile walker raise |
| Resolver.TargetOnFirstPage | common/boj_utils.py:269-273 | when page 1 lists the whole target, the search walker as written breaks and returns None, while the profile walker and the paginated walk return the sorted target |
| Resolver.Cap | common/boj_utils.py:230-246 | the last page the profile walk and the paginated walk may read: the largest page number in page 1's links, at most 100, or 100 without links; SearchReadsOnlyUpToCap and ProfileReadsOnlyUpToCap state what it bounds |
| Resolver.SearchReadsOnlyUpToCap | common/boj_utils.py:196-199 | the paginated walk reads page 1 and no page above the cap page 1's links set |
| Resolver.ProfileReadsOnlyUpToCap | common/boj_utils.py:328-344 | the profile walk reads page 1 and no page above the cap page 1's links set |
| History.SortByTimeSpec | common/boj_utils.py:478 | the sort orders the samples by time and only rearranges them |
| History.LeadingExact | common/boj_utils.py:499-503 | the loop takes exactly the run of leading samples that pass its test |
| History.CumulativeBefore | common/boj_utils.py:493-504 | cumulative_before's loop returns the value of the last sample it took, 0 if none |
| History.LeadingOnSorted | common/boj_utils.py:493-504 | on a time-sorted series the loop takes exactly the samples before the target (or at it, when inclusive) |
| History.ToUtc | common/boj_utils.py:482-491 | to_utc: an aware bound is its UTC instant and a naive one is Korean time minus 9 hours; None exactly where that leaves years 1..9999, which raises OverflowError |
| History.WeeklyCount | common/boj_utils.py:425-520 | the history diff; WeeklyCountShape, EarlyNaiveStartOverflows and WeeklyCountIsDifference state the result |
| History.GetWeeklySolvedCount | common/boj_utils.py:425-520 | the filter loop, the sort and the two lookups compute the window count |
| History.WeeklyCountShape | common/boj_utils.py:449-520 | the count is never negative, no problem list is reported, and a failed request, an empty series or a bound whose conversion to UTC overflows gives 0 |
| History.EarlyNaiveStartOverflows | common/boj_utils.py:488-489 | a naive start before 0001-01-01 09:00 overflows when shifted by −9 hours, and the caught OverflowError gives 0 and no problems |
| History.SamplesExact | common/boj_utils.py:459-472 | a sample survives the filter exactly when both its timestamp and its value parsed |
| History.LeadingMonotone | common/boj_utils.py:507-508 | on a sorted series the lower bound's lookup stops no later than the upper bound's |
| History.NoClampOnCumulativeSeries | common/boj_utils.py:510 | on a genuine cumulative series the difference is never negative, so max(0, ·) changes nothing |
| History.WeeklyCountIsDifference | common/boj_utils.py:490-510 | with a genuine cumulative series, the count is the cumulative value at the end minus that before the start, both converted to UTC |
| History.CumBeforeIsLastBefore | common/boj_utils.py:493-504 | the lookup picks the value of the last sample before the target |
| History.NothingBefore | common/boj_utils.py:498 | with no sample before the target the lookup gives 0 |
| StatusPages.ScanRows | common/boj_utils.py:628-689 | the row loop over one page computes ScanFrom, ending at the first older accepted row |
| StatusPages.StatusPage | common/boj_utils.py:566-715 | the body for one request computes StatusStep |
| StatusPages.GetWeeklySolvedFromStatus | common/boj_utils.py:522-723 | the whole walker computes StatusWalk |
| StatusPages.ScanSpec | common/boj_utils.py:628-689 | the row loop keeps the problems ascending and adds only counted ones |
| StatusPages.ScanExact | common/boj_utils.py:628-689 | on a page without an older row every counted problem is added, and the page has a valid row exactly when it counted one |
| StatusPages.ScanStopsAtOlder | common/boj_utils.py:682-689 | nothing after the first older accepted row is read |
| StatusPages.StatusWalkSound | common/boj_utils.py:560-723 | a finished walk returns the history-diff result, or a count equal to its ascending, distinct list of in-window accepted problems |
| StatusPages.FirstRequestFallback | common/boj_utils.py:575-605 | a 403 or a WAF page on the first request returns the history-diff result |
| StatusPages.OlderRowEndsWalk | common/boj_utils.py:682-689 | an older accepted row on the first page ends the walk with what was collected before it |
| StatusPages.PageWithoutCountedRowEndsWalk | common/boj_utils.py:709-710 | a page without an in-window row ends the walk |
| StatusPages.LaterFailureHalts | common/boj_utils.py:575-594 | a 403 or other non-200 answer on a later page ends the walk with what was collected |
| StatusPages.LaterWafRepeats | common/boj_utils.py:599-607 | a WAF page after the first repeats the request with the same cursor and page count |
| StatusPages.StatusFuelMonotone | common/boj_utils.py:566 | more fuel never changes a finished walk |
| StatusPages.StatusWalkFinishes | common/boj_utils.py:564-715 | without later WAF pages the walk ends within 50 counted pages |
| StatusPages.WindowInclusive | common/boj_utils.py:673-682 | both window ends are inclusive and compared as given, with no zone shift |
| StatusPages.RecentPage | common/boj_utils.py:776-821 | the row loop of the page-numbered variant computes RecentScan |
| StatusPages.GetRecentSolvedCount | common/boj_utils.py:725-826 | the whole variant computes RecentCount |
| StatusPages.RecentScanExact | common/boj_utils.py:776-821 | one page adds exactly its counted problems, and the walk goes on exactly when one was counted |
| StatusPages.RecentCountSound | common/boj_utils.py:725-826 | the count is never negative and counts distinct in-window accepted problems |
| StatusPages.RecentReadsTenPages | common/boj_utils.py:749 | only pages 1 to 10 are read |
| StatusPages.FirstSolved | common/boj_utils.py:869-878 | the index of the first row showing a solve, with no earlier row showing one |
| StatusPages.CheckFromStatus | common/boj_utils.py:828-916 | check_problem_solved_from_status on the status search's rows; CheckFromStatusExact states the result |
| StatusPages.CheckFromStatusExact | common/boj_utils.py:828-916 | no answer on a failed request, otherwise solved exactly when some row shows a solve, with that first row's time |
| StatusPages.CheckProblemSolved | common/boj_utils.py:420-423 | check_problem_solved: the solved flag of the status check, False where it gives no answer; CheckProblemSolvedExact states the result |
| StatusPages.CheckProblemSolvedExact | common/boj_utils.py:420-423 | check_problem_solved is true exactly when the status check answers solved |
| StatusPages.CheckProblemsSolvedWithTier | common/boj_utils.py:918-936 | one key per requested problem, true exactly when it is solved and meets the minimum tier, if any |
| DateParse.VerifyToken | common/utils.py:58-64 | verify_token: the input's hash equals the stored hash; VerifyOwnToken and VerifyOnlyOwnToken state what that gives |
| DateParse.VerifyOwnToken | common/utils.py:58-64 | a token verifies against its own stored hash, whatever the hash function |
| DateParse.VerifyOnlyOwnToken | common/utils.py:58-64 | for an idealised collision-free hash only, no other input verifies against a token's hash; SHA-256 is not proved collision-free, so for the real hash_token this holds only as far as SHA-256 has no collisions |
| DateParse.ParseDatetime | common/utils.py:66-154 | parse_datetime: empty input is no date, otherwise the stripped text is tried against the relative forms, the meridiem and hour forms, then the six formats; the lemmas below state each form |
| DateParse.BlankUnrecognised | common/utils.py:78-81 | empty or all-whitespace input is not a date |
| DateParse.StripFirst | common/utils.py:81 | the input is stripped before any pattern is tried |
| DateParse.RelativeForm | common/utils.py:84-94 | "<N><unit>" is now plus N of that unit |
| DateParse.DayUnits | common/utils.py:84-94 | a unit word means days exactly when, lower-cased, it is 일, day or days |
| DateParse.WeekUnits | common/utils.py:84-94 | a unit word means weeks exactly when, lower-cased, it is 주, week or weeks |
| DateParse.HourUnits | common/utils.py:84-94 | a unit word means hours exactly when, lower-cased, it is 시간, hour or hours |
| DateParse.OtherUnits | common/utils.py:84-94 | every other word is no unit, minutes (분, min) and abbreviations (hr) among them |
| DateParse.HoursLaterForm | common/utils.py:97-100 | "<N>시간<whitespace>후" is now plus N hours |
| DateParse.MeridiemForm | common/utils.py:104-123 | "<오전/오후/AM/PM><whitespace><N>시" follows the twelve-hour rules on today's date |
| DateParse.MeridiemClock | common/utils.py:110-123 | a morning or afternoon hour is accepted exactly up to 12, giving hour % 12 (+12 in the afternoon) at minute 0 today |
| DateParse.HourOnlyForm | common/utils.py:126-132 | "<N>시" is N o'clock today for one or two digits up to 23, and refused otherwise |
| DateParse.FormatsExclusive | common/utils.py:135-152 | at most one of the six formats parses a given text |
| DateParse.DateForm | common/utils.py:137-150 | "YYYY<sep>M<sep>D" is that day at 00:00 when the date exists, and refused when it does not |
| DateParse.DateTimeForm | common/utils.py:136-150 | "YYYY<sep>M<sep>D H:M" is that minute when the date exists, and refused when it does not |
| DateParse.DateRoundTrip | common/utils.py:135-150 | a zero-padded date parses back to itself at 00:00, for each separator |
| DateParse.DateTimeRoundTrip | common/utils.py:135-150 | a zero-padded date and time parses back to itself, for each separator |
| DateParse.ImpossibleDateRefused | common/utils.py:144-154 | an impossible date is refused |
| DateParse.ParseDeadline | common/utils.py:156-158 | parse_deadline calls parse_datetime; DeadlineIsDatetime states it |
| DateParse.DeadlineIsDatetime | common/utils.py:156-158 | parse_deadline answers exactly as parse_datetime |
| DateParse.UnknownWordRefused | common/utils.py:78-154 | every pattern needs a digit, so any text without one, such as 내일 (tomorrow), is refused |
| LinkSubmission.FindRoleByGroupName | domain/link_submission.py:23-32 | None exactly when no study matches; otherwise the role of the first study that does |
| LinkSubmission.FindRoleIgnoresCase | domain/link_submission.py:25 | the query's case does not matter |
| LinkSubmission.FindRoleIgnoresPadding | domain/link_submission.py:25 | surrounding whitespace of the query does not matter |
| LinkSubmission.StoredCaseIgnored | domain/link_submission.py:28-29 | the case of the stored group and role names does not matter |
| LinkSubmission.BuildSubmissionMap | domain/link_submission.py:89-91 | the loop builds the map of each user's latest links |
| LinkSubmission.LatestLinksKeys | domain/link_submission.py:89-91 | the map has a key exactly for the users who submitted |
| LinkSubmission.LatestLinksLastWins | domain/link_submission.py:90-91 | a user's last submission wins |
| LinkSubmission.BuildRows | domain/link_submission.py:94-113 | one row per member, in member order |
| LinkSubmission.SortRows | domain/link_submission.py:116 | the stable sort by (not submitted, name); SortRowsSpec and SortedBoardOrder state the result |
| LinkSubmission.SortRowsSpec | domain/link_submission.py:116 | the sort orders the rows and only rearranges them, keeping the submitter count |
| LinkSubmission.SortedBoardOrder | domain/link_submission.py:116 | submitters come first, and rows of the same kind have ascending names |
| LinkSubmission.SubmittersArePrefix | domain/link_submission.py:158 | on the sorted board the submitters are exactly the first submitted_count rows |
| LinkSubmission.FieldText | domain/link_submission.py:142-144 | a board of at most 1024 characters is shown as it is; a longer one is cut to its first 1021 characters followed by "...", 1024 in all |
| LinkSubmission.UpdateStatus | domain/link_submission.py:39-164 | untracked or out-of-window groups are left alone; otherwise the sorted board with its counts is posted |
| LinkSubmission.PostedBoard | domain/link_submission.py:94-159 | the posted board is a permutation of one row per member, submitters first, and names ascending within each kind |
| LinkSubmission.AutoUpdate | domain/link_submission.py:181-196 | the loop refreshes the groups inside their window and drops those past it |
| LinkSubmission.ActionsPartition | domain/link_submission.py:192-196 | every tracked group is refreshed, dropped or left alone |
| LinkSubmission.RefreshedInWindow | domain/link_submission.py:192-193 | a refreshed group is inside its window |
| LinkSubmission.ParseLinks | domain/link_submission.py:353-367 | the link modal: the text split into lines, each stripped, empty ones dropped, and blank input rejected; the lemmas below state the result |
| LinkSubmission.ParseLinksRejectsBlank | domain/link_submission.py:353-367 | blank input is rejected, and only blank input |
| LinkSubmission.ParseLinksLines | domain/link_submission.py:361 | no stored link is empty or padded |
| LinkSubmission.ParseLinksRoundTrip | domain/link_submission.py:353-361 | links joined by newlines parse back to themselves |
| ProblemSet.CollectIds | domain/problem_set.py:460-464 | the loop keeps the stripped comma tokens that are all digits, as integers, in order |
| ProblemSet.ParseProblemIds | domain/problem_set.py:452-471 | blank input is refused; otherwise the sorted distinct IDs, or None when none is valid |
| ProblemSet.TokensSpec | domain/problem_set.py:461-464 | an integer is collected exactly when some token spells it in digits |
| ProblemSet.ProblemIdList | domain/problem_set.py:452-474 | the stored list of a set's form; ProblemIdListSpec, ProblemIdListRejects and ProblemIdListRoundTrip state the result |
| ProblemSet.ProblemIdListSpec | domain/problem_set.py:459-471 | an accepted list is non-empty, strictly ascending, non-negative, and holds exactly the IDs the tokens spell |
| ProblemSet.ProblemIdListRejects | domain/problem_set.py:454-468 | the input is refused exactly when it is blank or no token is all digits |
| ProblemSet.ProblemIdListRoundTrip | domain/problem_set.py:459-471 | an ascending ID list written comma-separated parses back to itself |
| ProblemSet.ProgressOf | domain/problem_set.py:87-120 | one member's row of the report; ProgressShape states it |
| ProblemSet.ProgressShape | domain/problem_set.py:87-120 | solved_count counts the set's problems among the solved ones and never exceeds the total; no handle or a raising fetch gives 0 with its mark; the mark is ✅ exactly at the total |
| ProblemSet.BuildProgress | domain/problem_set.py:81-120 | the loop builds one progress row per member |
| ProblemSet.SortByCount | domain/problem_set.py:123 | the stable sort by solved_count, descending; SortByCountSorted and SortByCountMultiset state the result |
| ProblemSet.SortByCountSorted | domain/problem_set.py:123 | the rows end up by solved_count, descending |
| ProblemSet.SortByCountMultiset | domain/problem_set.py:123 | the sort only rearranges the rows |
| ProblemSet.StatsOf | domain/problem_set.py:149-151 | the counts of rows with everything, something and nothing solved; StatsPartition states they add up |
| ProblemSet.StatsPartition | domain/problem_set.py:149-151 | with a non-empty set, all, some and none add up to the number of rows |
| ProblemSet.ListProgress | domain/problem_set.py:81-151 | the rows are sorted and the statistics are those of the sorted rows |
| ProblemSet.SetStatus | domain/problem_set.py:49-151 | a missing set or group is reported as such; otherwise the group's members are listed |
| ProblemSet.ListedReport | domain/problem_set.py:81-151 | the report is a descending permutation of the members' rows whose statistics add up to the member count |
| StudyData.AppendEntry | domain/assignment.py:2012-2028 | the list under the key gains exactly the record (created when missing), other lists, the handle and tistory_links are unchanged |
| StudyData.AddBlog | domain/submission.py:59-81 | an accepted blog adds one record under 블로그_일반 and one tistory_links record, and nothing else |
| StudyData.CollectEntryLinks | domain/submission.py:40-43 | the loop collects exactly the non-empty links of one submission list |
| StudyData.CollectSubmissionLinks | domain/submission.py:38-43 | the loops collect exactly the links of every submission list |
| StudyData.FindById | domain/assignment.py:1499 | a found assignment is one of the role's and has the ID |
| StudyData.FirstEligible | domain/submission.py:187-191 | None exactly when no assignment is eligible; otherwise the first eligible one |
| StudyData.FindEligible | domain/assignment.py:1673-1701 | the inner loop returns the first eligible assignment |
| StudyData.PickFrom | domain/assignment.py:1668-1703 | the role loop of the pick; PickFirstByRole, PickEligible and PickNone state the result |
| StudyData.PickAssignment | domain/assignment.py:1668-1703 | the role loop picks as PickFrom says |
| StudyData.PickFirstByRole | domain/submission.py:182-193 | with non-empty IDs, the pick is the first eligible assignment of the first role that has one |
| StudyData.PickEligible | domain/assignment.py:1698-1703 | a picked assignment is eligible |
| StudyData.PickNone | domain/assignment.py:1705-1707 | nothing is picked exactly when no role has an eligible assignment |
| Assignments.Active | domain/assignment.py:1373-1390 | not before a start that parses and not after a deadline that parses; IsActive computes it and Channel.OngoingIsActive relates it to the group view |
| Assignments.IsActive | domain/assignment.py:1373-1390 | the flag steps give active exactly when not before a start that parses and not after a deadline that parses |
| Assignments.MinSolved | domain/assignment.py:559-566 | min_solved is the field's integer, and 1 when it is blank or not an integer |
| Assignments.TokenIntsRejects | domain/assignment.py:550-557 | the ID list is refused exactly when some non-empty token is not an integer |
| Assignments.TokenIntsEmpty | domain/assignment.py:550-553 | the list is empty exactly when every token is empty |
| Assignments.MockProblemIds | domain/assignment.py:549-557 | a mock test's problem-ID field; MockProblemIdsRejects and MockProblemIdsRoundTrip state the result |
| Assignments.MockProblemIdsRejects | domain/assignment.py:549-557 | the field is refused as not a number exactly when some non-empty token is no integer, and as empty exactly when every token is empty |
| Assignments.MockProblemIdsRoundTrip | domain/assignment.py:549-554 | a non-empty ID list written comma-separated parses back to itself, order and repeats kept |
| Assignments.MinSolvedRendered | domain/assignment.py:563 | a written count reads back to itself |
| Assignments.CheckProblems | domain/assignment.py:1723-1731 | the loop builds solved_problems and failed_problems in order |
| Assignments.Partition | domain/assignment.py:1726-1731 | the two lists partition problem_ids, the first holding only solved IDs and the second only unsolved ones |
| Assignments.SelfSubmitOutcome | domain/assignment.py:1649-1780 | the self-submission's answer; SelfSubmitVerifies and SelfSubmitOnce state it |
| Assignments.SubmitMockTest | domain/assignment.py:1649-1780 | the self-submission answers as SelfSubmitOutcome and leaves the data as SelfSubmitEffect |
| Assignments.SelfSubmitVerifies | domain/assignment.py:1733-1748 | the submission is auto-verified exactly when at least min_solved problems are solved, and the record lists the solved ones |
| Assignments.SelfSubmitOnce | domain/assignment.py:1709-1713 | after a recorded submission, a second one is refused as already submitted |
| Assignments.VerifyMembers | domain/assignment.py:1993-2029 | the member loop updates the data as VerifyAll and counts the appends |
| Assignments.FindVerified | domain/assignment.py:2018-2019 | the duplicate check finds exactly a verified record |
| Assignments.VerifyAllState | domain/assignment.py:1993-2029 | the users stay the same; a member who qualifies and has no verified record gains exactly one, everyone else is unchanged |
| Assignments.AppendCountSpec | domain/assignment.py:2029 | total_verified counts exactly the distinct members who gained a record |
| Assignments.VerifyAllIdempotent | domain/assignment.py:2017-2020 | running the verification again appends nothing |
| Assignments.CollectTargets | domain/assignment.py:1928-1962 | the nested loops collect the wanted assignments of every study, in order |
| Assignments.KeepInSpec | domain/assignment.py:1931-1962 | a study's assignment is a target exactly when it is wanted |
| Assignments.TargetsOfSpec | domain/assignment.py:1929-1962 | a target pairs a study's role with one of its wanted assignments |
| Assignments.WithId | domain/assignment.py:1964-1966 | the filter keeps exactly the targets with that ID |
| Assignments.VerifyEach | domain/assignment.py:1977-2029 | the target loop verifies each target's members and sums the appends |
| Assignments.VerifyMockTests | domain/assignment.py:1925-2031 | no target reports the unknown ID or nothing to verify and changes nothing; otherwise every active mock test with problem IDs is verified, and the total is reported |
| Assignments.AdminTargetsSpec | domain/assignment.py:1928-1969 | a target is an active mock test with problem IDs, with the requested ID when one is given |
| Assignments.AutoVerifyMockTests | domain/assignment.py:2248-2339 | nothing changes unless it is Sunday; then every due mock test is verified |
| Assignments.DueTargetsSpec | domain/assignment.py:2265-2292 | a scheduled target is a mock test with problem IDs whose deadline parses and has passed |
| Assignments.ProblemVerdict | domain/assignment.py:1471-1601 | the problem modal's answer; TooOldSpec and ProblemResubmitRejected state it |
| Assignments.SubmitProblem | domain/assignment.py:1471-1601 | the modal answers as ProblemVerdict; acceptance appends one verified record under the assignment, anything else changes nothing |
| Assignments.TooOldSpec | domain/assignment.py:1551-1553 | more than 7 days means at least eight full days between the solve and now |
| Assignments.ProblemResubmitRejected | domain/assignment.py:1567-1575 | after an accepted problem, the same one is refused as a duplicate |
| Assignments.CollectLinksAsWritten | domain/assignment.py:1279-1292 | the loops collect the as-written dedupe list, or raise on an empty tistory_links |
| Assignments.BlogVerdictAsWritten | domain/assignment.py:1265-1321 | the blog command's answer, with the for-else as written; the three lemmas below compare it with the general command |
| Assignments.SubmitBlogAsWritten | domain/assignment.py:1265-1321 | the command answers as BlogVerdictAsWritten; acceptance adds the blog, anything else changes nothing |
| Assignments.ForElseMissesBareLinks | domain/assignment.py:1288-1292 | a bare link that is not last is accepted again here, while the general command refuses it |
| Assignments.ForElseRaisesOnEmpty | domain/assignment.py:1287-1292 | an empty tistory_links makes this command raise, while the general command answers |
| Assignments.AsWrittenAgreesOnRecords | domain/assignment.py:1288-1294 | with only record entries, the command and the general one agree |
| Submissions.CollectLinks | domain/submission.py:38-57 | the loops collect exactly the known links: every submission list's and every tistory_links entry's |
| Submissions.BlogVerdict | domain/submission.py:26-57 | a link without tistory.com, an unregistered user and a known link are refused; the command never raises |
| Submissions.SubmitBlog | domain/submission.py:23-81 | the command answers as BlogVerdict; acceptance adds the blog, anything else changes nothing |
| Submissions.AddBlogKnown | domain/submission.py:59-81 | accepting a blog adds exactly its link to the known links |
| Submissions.BlogResubmitRejected | domain/submission.py:38-57 | after an accepted link, the same one is refused as a duplicate |
| Submissions.CollectEntryIds | domain/submission.py:119-121 | the loop collects exactly the truthy problem IDs of one list |
| Submissions.CollectRecordedIds | domain/submission.py:116-121 | the loops collect exactly the truthy problem IDs of every list |
| Submissions.ProblemVerdict | domain/submission.py:88-155 | the problem command's answer; RecordedUnderAnyKey and ProblemResubmitRejected state it |
| Submissions.SubmitProblem | domain/submission.py:88-155 | the command answers as ProblemVerdict; acceptance appends one verified record under 문제풀이_일반, anything else changes nothing |
| Submissions.RecordedUnderAnyKey | domain/submission.py:116-126 | a problem recorded under any key, an assignment's included, blocks the command |
| Submissions.ProblemResubmitRejected | domain/submission.py:115-126 | after an accepted problem, the same one is refused as a duplicate |
| Submissions.MockVerdict | domain/submission.py:166-219 | the mock-test command's answer; MockSubmitOnce states it |
| Submissions.SubmitMockTest | domain/submission.py:166-219 | the command answers as MockVerdict; acceptance appends one unverified record under the picked mock test |
| Submissions.MockSubmitOnce | domain/submission.py:181-203 | the pick is a mock test whatever its dates, and a second submission is refused |
| Channel.StatusOf | domain/channel.py:429-445 | ended exactly when the start does not fail to parse and a parsing deadline has passed; upcoming exactly before a parsing start and not past the deadline |
| Channel.OngoingIsActive | domain/channel.py:429-445 | where both bounds are missing or parse, ongoing is exactly the active window of the submission commands |
| Channel.MalformedStartStaysOngoing | domain/channel.py:436-445 | an unparsable start keeps the status ongoing after the deadline, while submissions are closed |
| Channel.WithStatus | domain/channel.py:418-456 | the assignments of one status, in order; Classify and ClassifyPartition state the lists |
| Channel.Classify | domain/channel.py:418-456 | the loop fills the three lists with the assignments of each status, in order |
| Channel.ClassifyPartition | domain/channel.py:451-456 | every assignment lands in exactly one list, the one matching its status |
| Channel.Complete | domain/channel.py:467-491 | whether a member completed an assignment; MockCompleteIffSubmitted and ProblemCompleteSpec state it |
| Channel.MockCompleteIffSubmitted | domain/channel.py:488-491 | a mock test is completed exactly by any submission |
| Channel.ProblemCompleteSpec | domain/channel.py:478-484 | a problem set with required IDs is completed exactly when each has a verified submission recording it |
| Channel.CompletedCount | domain/channel.py:467-491 | how many members completed the assignment; CompletedCountSpec states it |
| Channel.CompletedCountSpec | domain/channel.py:467-491 | completed is at most the member count, equals it exactly when every member completed, and is 0 exactly when none did |
| Channel.Summarize | domain/channel.py:459-497 | one summary line per assignment with its completed count out of the members, and none without members |
| Channel.SummaryBounds | domain/channel.py:467-497 | every summary line's count lies between 0 and its total |
| Channel.SelectGroup | domain/channel.py:400-530 | a missing study is reported; otherwise the three status lists, 1 + assignments pages, and one summary line per assignment with its completed count out of the members, none without members |
| Channel.PageAt | domain/channel.py:563-574 | get_page; PageAtSpec and PageAtInjective state it |
| Channel.PageAtSpec | domain/channel.py:563-574 | page p shows an assignment exactly for 1 ≤ p ≤ assignments, the (p − 1)-th; every other page shows the summary |
| Channel.PageAtInjective | domain/channel.py:563-574 | the pages in range show different things |
| Channel.Pager.constructor | domain/channel.py:525-530 | the pager starts on page 0 with 1 + assignments pages |
| Channel.Pager.PrevPage | domain/channel.py:871-885 | another user is refused; page 0 only acknowledges; otherwise the page moves back by one and is shown, staying in range; the author's press only acknowledges exactly when the '◀' button was disabled (PrevDisabled, line 541) |
| Channel.Pager.NextPage | domain/channel.py:887-901 | another user is refused; the last page only acknowledges; otherwise the page moves on by one and is shown, staying in range; the author's press only acknowledges exactly when the '▶' button was disabled (NextDisabled, line 558) |
| Channel.PagerPages | domain/channel.py:563-574 | in the pager's range page 0 is the only summary page and page p shows assignment p − 1 |
| Channel.BoardOf | domain/channel.py:117-184 | the board command's answer; RowsOfSpec, RowsComplete, RowsInOrder and BoardLimited state it |
| Channel.MarkOf | domain/channel.py:158-175 | one assignment's mark on the board; BlogMarkAgrees, MockMarkAgrees and ProblemMarkIgnoresIds, ProblemCompleteMarksDone and ProblemMarkRepeatedId compare it with completion, and ProblemMarkCounts states the problem mark |
| Channel.BuildBoard | domain/channel.py:117-184 | the command answers as BoardOf: no role, no members, no assignments, or the rows of the first 20 members |
| Channel.MemberMarks | domain/channel.py:156-174 | the inner loop gives the member's marks, one per assignment of a shown type, in assignment order |
| Channel.RowsOfSpec | domain/channel.py:152-182 | every row is a shown member's, carries that member's marks, and has at least one |
| Channel.RowsComplete | domain/channel.py:176-182 | every shown member with at least one mark gets a row carrying those marks |
| Channel.RowsInOrder | domain/channel.py:151-182 | the rows follow the members' order, so distinct members get distinct rows |
| Channel.BoardLimited | domain/channel.py:151-182 | the board lists at most 20 members, all holding the role, and each of the first 20 with a mark has a row |
| Channel.BlogMarkAgrees | domain/channel.py:162-165 | with a positive count the blog's done mark agrees with completion; with count 0 the board says done while completion never counts it |
| Channel.MockMarkAgrees | domain/channel.py:171-173 | a mock test's done mark agrees with completion |
| Channel.VerifiedCountSpec | domain/channel.py:168 | the counted sum is the number of verified submissions |
| Channel.VerifiedIdsBound | domain/channel.py:168 | the verified submissions record no more distinct problem IDs than there are of them |
| Channel.ProblemMarkCounts | domain/channel.py:167-170 | a problem set is marked done exactly when the number of verified submissions is at least the set's size, whichever problems they are for, and otherwise shows that number out of the set's size |
| Channel.ProblemCompleteMarksDone | domain/channel.py:167-170 | with distinct required problems, a member who completed the set is marked done |
| Channel.ProblemMarkRepeatedId | domain/channel.py:167-170 | with a repeated required problem, one verified submission completes the set while the board shows 1 of 2 |
| Channel.ProblemMarkIgnoresIds | domain/channel.py:166-169 | the board's problem mark counts verified submissions of any problem, so it can say done where completion does not |

## Left out

- Network, HTML parsing and the Discord UI are not modelled. Pages, rows, the history
  response, the status check's answers and the guild's role membership are inputs.
- `datetime.now()`, the clock that triggers the scheduled tasks (every day at 11:00, every
  hour) and `asyncio.sleep` do not appear. "Now" is a parameter, and one value serves a
  whole run.
- The SHA-256 hash and token generation are left out; the hash is a function parameter.
- Logging in to BOJ, the group-practice ranking, the problem-tier lookup, the crawler
  script, the database and the backups are not part of this model.
- Submission entries that are not dictionaries are left out; the data model has only
  record entries.
- Record fields that no rule reads (content, timestamps, usernames, tiers) are left out.
- Only membership of the dedupe lists matters, so their order across the dictionary's
  keys is left out.
- Unicode is reduced to ASCII: isalpha, isdigit, int(), lower(), upper() and the regular
  expressions' `\d` only know ASCII digits and letters. So, for example, a long s followed
  by a digit, which Python's upper() turns into an S, is no short tier code here.
  strip() uses the full whitespace set.
- Comparing a naive "now" with an aware ISO timestamp raises TypeError in several
  handlers. The model has a single time line, so this is left out.
- Channel.PageAt: is defined only for page numbers of zero or more. The pager never
  passes a negative one, so Python's negative indexing is left out.
- StatusPages.GetWeeklySolvedFromStatus: a WAF page after the first one can repeat forever.
  The walk therefore carries fuel, and OutOfFuel is returned when the fuel is spent.

## Findings

| source | as written | input that shows it | evidently intended | confidence | as-written member | corrected member |
|---|---|---|---|---|---|---|
| common/boj_utils.py:283-286 | the sort and `return` are indented inside `while page <= max_pages:`, so the walker answers during its first pass over page 1, and each `break` leaves the function without a `return` | target [1000, 1001], page 1 lists 1000 and links to page 2, page 2 lists 1001: [1000] is returned; a page 1 listing both gives None | the paginated walk the docstring at 196-199 describes: read pages until the target is covered or the last page, then return the sorted target IDs found | high, not executed | Resolver.SearchAsWrittenMissesPageTwo | Resolver.SearchWalkExact |
| common/boj_utils.py:95-98 | `"V" in tier_name` is tested before `"IV"`, so every IV tier gets digit 5 | tier 2 ("Bronze IV") is printed "B5", which reads back as tier 1 | IV gives 4, as the docstring's B5~B1 table says | high, not executed | Tiers.ShortCodeOfFourIsFive | Tiers.IntendedShortCodeRoundTrip |
| domain/assignment.py:1291 | the `else` belongs to the `for`, so bare-string tistory_links entries are never added inside the loop, and an empty list leaves `link_data` unbound | tistory_links = [bare a, bare b] and a is submitted again: it is accepted; tistory_links = [] raises UnboundLocalError | the same dedupe as the general blog command (domain/submission.py:51) | high, not executed | Assignments.ForElseMissesBareLinks | Submissions.BlogResubmitRejected |
