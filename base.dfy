/** Shared vocabulary of the model: optional values, sets of problem IDs kept
    as ascending sequences, the handful of Python string operations the bot
    relies on, and naive wall-clock time as whole seconds. */
module Base {

  datatype Option<+T> = None | Some(value: T)

  // ---------------------------------------------------------------------
  // Sets of integers as strictly ascending sequences.
  // Python's `sorted(list(set(xs)))` is SortedDistinct(xs); a Python `set`
  // that is filled one element at a time is a sequence kept by Insert.
  // ---------------------------------------------------------------------

  ghost predicate StrictlySorted(s: seq<int>) {
    forall i, j :: 0 <= i < j < |s| ==> s[i] < s[j]
  }

  function Elems(s: seq<int>): set<int> {
    set x | x in s
  }

  /** Adds x to the ascending sequence s, leaving it unchanged if x is already there. */
  function Insert(x: int, s: seq<int>): seq<int> {
    if s == [] then [x]
    else if x < s[0] then [x] + s
    else if x == s[0] then s
    else [s[0]] + Insert(x, s[1..])
  }

  /** Python's sorted(list(set(xs))). */
  function SortedDistinct(xs: seq<int>): seq<int>
    decreases |xs|
  {
    if xs == [] then [] else Insert(xs[|xs| - 1], SortedDistinct(xs[..|xs| - 1]))
  }

  /** The elements of xs that belong to t, in order. */
  function FilterIn(xs: seq<int>, t: set<int>): seq<int> {
    if xs == [] then []
    else
      var rest := FilterIn(xs[..|xs| - 1], t);
      if xs[|xs| - 1] in t then rest + [xs[|xs| - 1]] else rest
  }

  lemma ElemsCons(h: int, t: seq<int>)
    ensures Elems([h] + t) == {h} + Elems(t)
  {
    assert forall y :: y in [h] + t <==> y == h || y in t;
  }

  lemma ElemsSnoc(s: seq<int>, x: int)
    ensures Elems(s + [x]) == Elems(s) + {x}
  {
    assert forall y :: y in s + [x] <==> y in s || y == x;
  }

  /** Prepending an element smaller than all of t keeps t ascending. */
  lemma ConsSorted(h: int, t: seq<int>)
    requires StrictlySorted(t)
    requires forall y :: y in Elems(t) ==> h < y
    ensures StrictlySorted([h] + t)
  {
    var r := [h] + t;
    forall i, j | 0 <= i < j < |r| ensures r[i] < r[j] {
      assert r[j] == t[j - 1];
      assert t[j - 1] in Elems(t);
      if i > 0 { assert r[i] == t[i - 1]; }
    }
  }

  /** Appending an element larger than all of s keeps s ascending. */
  lemma SnocSorted(s: seq<int>, x: int)
    requires StrictlySorted(s)
    requires forall y :: y in Elems(s) ==> y < x
    ensures StrictlySorted(s + [x])
  {
    var r := s + [x];
    forall i, j | 0 <= i < j < |r| ensures r[i] < r[j] {
      assert r[i] == s[i];
      assert s[i] in Elems(s);
      if j < |s| { assert r[j] == s[j]; }
    }
  }

  /** Insert adds exactly x. */
  lemma {:induction false} InsertElems(x: int, s: seq<int>)
    ensures Elems(Insert(x, s)) == Elems(s) + {x}
  {
    if s != [] && x > s[0] {
      InsertElems(x, s[1..]);
      assert s == [s[0]] + s[1..];
      ElemsCons(s[0], s[1..]);
      ElemsCons(s[0], Insert(x, s[1..]));
    } else if s != [] && x < s[0] {
      ElemsCons(x, s);
    }
  }

  /** Insert keeps an ascending sequence ascending. */
  lemma {:induction false} InsertSorted(x: int, s: seq<int>)
    requires StrictlySorted(s)
    ensures StrictlySorted(Insert(x, s))
  {
    if s != [] && x > s[0] {
      var tail := Insert(x, s[1..]);
      InsertSorted(x, s[1..]);
      InsertElems(x, s[1..]);
      forall y | y in Elems(tail) ensures s[0] < y {
        if y != x {
          var k :| 0 <= k < |s[1..]| && s[1..][k] == y;
          assert s[k + 1] == y;
        }
      }
      ConsSorted(s[0], tail);
    } else if s != [] && x < s[0] {
      forall y | y in Elems(s) ensures x < y {
        var k :| 0 <= k < |s| && s[k] == y;
        if k > 0 { assert s[0] < s[k]; }
      }
      ConsSorted(x, s);
    }
  }

  lemma InsertSpec(x: int, s: seq<int>)
    requires StrictlySorted(s)
    ensures StrictlySorted(Insert(x, s))
    ensures Elems(Insert(x, s)) == Elems(s) + {x}
  {
    InsertElems(x, s);
    InsertSorted(x, s);
  }

  /** sorted(set(xs)) is ascending and holds exactly the elements of xs. */
  lemma {:induction false} SortedDistinctSpec(xs: seq<int>)
    ensures StrictlySorted(SortedDistinct(xs))
    ensures Elems(SortedDistinct(xs)) == Elems(xs)
    decreases |xs|
  {
    if xs != [] {
      var init := xs[..|xs| - 1];
      SortedDistinctSpec(init);
      InsertSpec(xs[|xs| - 1], SortedDistinct(init));
      assert xs == init + [xs[|xs| - 1]];
      ElemsSnoc(init, xs[|xs| - 1]);
    }
  }

  /** FilterIn keeps exactly the elements in t, and keeps an ascending sequence ascending. */
  lemma {:induction false} FilterInSpec(xs: seq<int>, t: set<int>)
    ensures Elems(FilterIn(xs, t)) == Elems(xs) * t
    ensures |FilterIn(xs, t)| <= |xs|
    ensures StrictlySorted(xs) ==> StrictlySorted(FilterIn(xs, t))
  {
    if xs != [] {
      var init := xs[..|xs| - 1];
      var last := xs[|xs| - 1];
      FilterInSpec(init, t);
      var rest := FilterIn(init, t);
      assert xs == init + [last];
      ElemsSnoc(init, last);
      if last in t {
        ElemsSnoc(rest, last);
        if StrictlySorted(xs) {
          forall y | y in Elems(rest) ensures y < last {
            var k :| 0 <= k < |init| && init[k] == y;
            assert xs[k] == y;
          }
          SnocSorted(rest, last);
        }
      }
    }
  }

  lemma ElemsEmpty(s: seq<int>)
    ensures Elems(s) == {} <==> s == []
  {
    if s != [] { assert s[0] in Elems(s); }
  }

  /** Two ascending sequences with the same elements are the same sequence. */
  lemma {:induction false} SortedUnique(a: seq<int>, b: seq<int>)
    requires StrictlySorted(a) && StrictlySorted(b)
    requires Elems(a) == Elems(b)
    ensures a == b
  {
    if a != [] && b != [] {
      assert a[0] in Elems(b);
      assert b[0] in Elems(a);
      assert a[0] == b[0];
      assert Elems(a[1..]) == Elems(a) - {a[0]} by {
        assert a == [a[0]] + a[1..];
      }
      assert Elems(b[1..]) == Elems(b) - {b[0]} by {
        assert b == [b[0]] + b[1..];
      }
      SortedUnique(a[1..], b[1..]);
      assert a == [a[0]] + a[1..] && b == [b[0]] + b[1..];
    } else {
      ElemsEmpty(a);
      ElemsEmpty(b);
    }
  }

  /** Number of elements of xs (with repetition) that belong to t. */
  function CountIn(xs: seq<int>, t: set<int>): (n: nat)
    ensures n <= |xs|
  {
    if xs == [] then 0 else (if xs[0] in t then 1 else 0) + CountIn(xs[1..], t)
  }

  // ---------------------------------------------------------------------
  // Characters and strings (ASCII case rules; Python's full isspace set).
  // ---------------------------------------------------------------------

  /** Python's str.isspace for a single character. */
  predicate IsSpace(c: char) {
    c == ' ' || ('\t' <= c <= '\r') || ('\U{1C}' <= c <= '\U{1F}') || c == '\U{85}' || c == '\U{A0}'
    || c == '\U{1680}' || ('\U{2000}' <= c <= '\U{200A}') || c == '\U{2028}' || c == '\U{2029}'
    || c == '\U{202F}' || c == '\U{205F}' || c == '\U{3000}'
  }

  predicate IsDigit(c: char) {
    '0' <= c <= '9'
  }

  predicate IsAsciiLetter(c: char) {
    ('a' <= c <= 'z') || ('A' <= c <= 'Z')
  }

  /** The character of a decimal digit. */
  function DigitChar(d: int): char
    requires 0 <= d <= 9
  {
    (('0' as int) + d) as char
  }

  function DigitValue(c: char): (d: nat)
    requires IsDigit(c)
    ensures d <= 9
  {
    (c as int) - ('0' as int)
  }

  function LowerChar(c: char): char {
    if 'A' <= c <= 'Z' then ((c as int) + 32) as char else c
  }

  function UpperChar(c: char): char {
    if 'a' <= c <= 'z' then ((c as int) - 32) as char else c
  }

  /** str.lower(), ASCII letters only. */
  function Lower(s: string): (r: string)
    ensures |r| == |s|
    ensures forall i :: 0 <= i < |s| ==> r[i] == LowerChar(s[i])
  {
    if s == [] then [] else [LowerChar(s[0])] + Lower(s[1..])
  }

  /** lower() moves no character into or out of the whitespace set and is idempotent. */
  lemma LowerCharFacts(c: char)
    ensures IsSpace(LowerChar(c)) <==> IsSpace(c)
    ensures LowerChar(LowerChar(c)) == LowerChar(c)
  {
  }

  lemma LowerIdempotent(s: string)
    ensures Lower(Lower(s)) == Lower(s)
  {
    forall i | 0 <= i < |s| ensures Lower(Lower(s))[i] == Lower(s)[i] {
      LowerCharFacts(s[i]);
    }
  }

  function TrimLeft(s: string): (r: string)
    ensures r == [] || !IsSpace(r[0])
    ensures exists k :: 0 <= k <= |s| && r == s[k..] && forall i :: 0 <= i < k ==> IsSpace(s[i])
  {
    if s != [] && IsSpace(s[0]) then
      var r := TrimLeft(s[1..]);
      var k :| 0 <= k <= |s[1..]| && r == s[1..][k..] && forall i :: 0 <= i < k ==> IsSpace(s[1..][i]);
      assert r == s[k + 1..];
      r
    else
      assert s == s[0..];
      s
  }

  function TrimRight(s: string): (r: string)
    ensures r == [] || !IsSpace(r[|r| - 1])
    ensures exists k :: 0 <= k <= |s| && r == s[..k] && forall i :: k <= i < |s| ==> IsSpace(s[i])
  {
    if s != [] && IsSpace(s[|s| - 1]) then
      var r := TrimRight(s[..|s| - 1]);
      var k :| 0 <= k <= |s| - 1 && r == s[..|s| - 1][..k] && forall i :: k <= i < |s| - 1 ==> IsSpace(s[i]);
      assert r == s[..k];
      r
    else
      assert s == s[..|s|];
      s
  }

  /** str.strip(): drops leading and trailing whitespace. */
  function Strip(s: string): (r: string)
    ensures r == [] || (!IsSpace(r[0]) && !IsSpace(r[|r| - 1]))
    ensures |r| <= |s|
  {
    TrimRight(TrimLeft(s))
  }

  /** A string is blank when every character is whitespace. */
  predicate Blank(s: string) {
    forall i :: 0 <= i < |s| ==> IsSpace(s[i])
  }

  lemma {:induction false} TrimLeftEmptyIffBlank(s: string)
    ensures TrimLeft(s) == [] <==> Blank(s)
  {
    if s != [] && IsSpace(s[0]) {
      TrimLeftEmptyIffBlank(s[1..]);
      assert Blank(s) <==> Blank(s[1..]) by {
        if Blank(s[1..]) {
          forall i | 0 <= i < |s| ensures IsSpace(s[i]) {
            if i > 0 { assert s[i] == s[1..][i - 1]; }
          }
        }
      }
    }
  }

  lemma {:induction false} TrimRightEmptyIffBlank(s: string)
    ensures TrimRight(s) == [] <==> Blank(s)
  {
    if s != [] && IsSpace(s[|s| - 1]) {
      TrimRightEmptyIffBlank(s[..|s| - 1]);
      assert Blank(s) <==> Blank(s[..|s| - 1]) by {
        if Blank(s[..|s| - 1]) {
          forall i | 0 <= i < |s| ensures IsSpace(s[i]) {
            if i < |s| - 1 { assert s[i] == s[..|s| - 1][i]; }
          }
        }
      }
    }
  }

  /** Stripping leaves nothing exactly when the string is blank. */
  lemma StripEmptyIffBlank(s: string)
    ensures Strip(s) == [] <==> Blank(s)
  {
    var l := TrimLeft(s);
    TrimLeftEmptyIffBlank(s);
    TrimRightEmptyIffBlank(l);
    var k :| 0 <= k <= |s| && l == s[k..] && forall i :: 0 <= i < k ==> IsSpace(s[i]);
    forall i | k <= i < |s| ensures s[i] == l[i - k] {
    }
  }

  lemma {:induction false} LowerTrimLeft(s: string)
    ensures TrimLeft(Lower(s)) == Lower(TrimLeft(s))
  {
    if s != [] {
      LowerCharFacts(s[0]);
      assert Lower(s)[1..] == Lower(s[1..]);
      if IsSpace(s[0]) {
        LowerTrimLeft(s[1..]);
      }
    }
  }

  lemma {:induction false} LowerTrimRight(s: string)
    ensures TrimRight(Lower(s)) == Lower(TrimRight(s))
  {
    if s != [] {
      var init := s[..|s| - 1];
      LowerCharFacts(s[|s| - 1]);
      assert Lower(s)[..|s| - 1] == Lower(init);
      if IsSpace(s[|s| - 1]) {
        LowerTrimRight(init);
      }
    }
  }

  /** strip() and lower() commute. */
  lemma LowerStrip(s: string)
    ensures Strip(Lower(s)) == Lower(Strip(s))
  {
    LowerTrimLeft(s);
    LowerTrimRight(TrimLeft(s));
  }

  /** strip() brings in no character that was not there. */
  lemma {:induction false} TrimLeftKeepsOut(s: string, c: char)
    requires c !in s
    ensures c !in TrimLeft(s)
  {
    if s != [] && IsSpace(s[0]) {
      TrimLeftKeepsOut(s[1..], c);
    }
  }

  lemma {:induction false} TrimRightKeepsOut(s: string, c: char)
    requires c !in s
    ensures c !in TrimRight(s)
  {
    if s != [] && IsSpace(s[|s| - 1]) {
      TrimRightKeepsOut(s[..|s| - 1], c);
    }
  }

  lemma StripKeepsOut(s: string, c: char)
    requires c !in s
    ensures c !in Strip(s)
  {
    TrimLeftKeepsOut(s, c);
    TrimRightKeepsOut(TrimLeft(s), c);
  }

  /** A string that neither starts nor ends with whitespace is its own strip(). */
  lemma StripKeeps(s: string)
    requires s != [] && !IsSpace(s[0]) && !IsSpace(s[|s| - 1])
    ensures Strip(s) == s
  {
  }

  /** strip() is idempotent. */
  lemma StripIdempotent(s: string)
    ensures Strip(Strip(s)) == Strip(s)
  {
    if Strip(s) != [] {
      StripKeeps(Strip(s));
    }
  }

  /** TrimLeft removes exactly a blank prefix that is followed by a non-space. */
  lemma {:induction false} TrimLeftBlankPrefix(w: string, x: string)
    requires Blank(w)
    requires x == [] || !IsSpace(x[0])
    ensures TrimLeft(w + x) == x
  {
    if w != [] {
      assert (w + x)[1..] == w[1..] + x;
      TrimLeftBlankPrefix(w[1..], x);
    } else {
      assert w + x == x;
    }
  }

  /** `sub in s` for Python strings: sub occurs in s as a contiguous piece. */
  predicate Contains(s: string, sub: string)
    decreases |s|
  {
    (|sub| <= |s| && s[..|sub|] == sub) || (s != [] && Contains(s[1..], sub))
  }

  lemma {:induction false} ContainsLonger(s: string, sub: string)
    requires |sub| > |s|
    ensures !Contains(s, sub)
  {
    if s != [] { ContainsLonger(s[1..], sub); }
  }

  /** A one-character piece occurs exactly when that character does. */
  lemma {:induction false} ContainsChar(s: string, c: char)
    ensures Contains(s, [c]) <==> c in s
  {
    if s != [] {
      ContainsChar(s[1..], c);
      assert s == [s[0]] + s[1..];
    }
  }

  /** A prefix that lacks the first character of sub cannot hold the start of a match. */
  lemma {:induction false} ContainsSkip(p: string, q: string, sub: string)
    requires sub != [] && sub[0] !in p
    ensures Contains(p + q, sub) <==> Contains(q, sub)
  {
    if p != [] {
      assert (p + q)[1..] == p[1..] + q;
      assert (p + q)[0] == p[0];
      ContainsSkip(p[1..], q, sub);
    } else {
      assert p + q == q;
    }
  }

  /** str.split(sep) for a one-character separator: the pieces between separators. */
  function Split(s: string, sep: char): (r: seq<string>)
    ensures |r| >= 1
    ensures forall i :: 0 <= i < |r| ==> sep !in r[i]
  {
    if s == [] then [""]
    else
      var rest := Split(s[1..], sep);
      if s[0] == sep then [""] + rest
      else
        assert forall i :: 1 <= i < |rest| ==> sep !in rest[i];
        [[s[0]] + rest[0]] + rest[1..]
  }

  /** The inverse of Split: the pieces joined back with the separator. */
  function Join(pieces: seq<string>, sep: char): string
    requires |pieces| >= 1
  {
    if |pieces| == 1 then pieces[0] else pieces[0] + [sep] + Join(pieces[1..], sep)
  }

  lemma {:induction false} SplitJoin(s: string, sep: char)
    ensures Join(Split(s, sep), sep) == s
  {
    if s != [] {
      SplitJoin(s[1..], sep);
      var rest := Split(s[1..], sep);
      if s[0] != sep {
        if |rest| == 1 {
          assert Split(s, sep) == [[s[0]] + rest[0]];
        } else {
          assert Split(s, sep) == [[s[0]] + rest[0]] + rest[1..];
          assert ([[s[0]] + rest[0]] + rest[1..])[1..] == rest[1..];
        }
      } else {
        assert Split(s, sep)[1..] == rest;
      }
    }
  }

  /** A piece without the separator splits to itself. */
  lemma {:induction false} SplitNoSep(p: string, sep: char)
    requires sep !in p
    ensures Split(p, sep) == [p]
  {
    if p != [] {
      SplitNoSep(p[1..], sep);
      assert [p[0]] + p[1..] == p;
    }
  }

  lemma {:induction false} SplitPrefix(p: string, sep: char, q: string)
    requires sep !in p
    ensures Split(p + [sep] + q, sep) == [p] + Split(q, sep)
  {
    var s := p + [sep] + q;
    if p == [] {
      assert s[0] == sep && s[1..] == q;
    } else {
      assert s[0] == p[0] && s[1..] == p[1..] + [sep] + q;
      SplitPrefix(p[1..], sep, q);
      assert [p[0]] + p[1..] == p;
    }
  }

  /** Split undoes Join when no piece holds the separator. */
  lemma {:induction false} JoinSplit(pieces: seq<string>, sep: char)
    requires |pieces| >= 1 && forall i :: 0 <= i < |pieces| ==> sep !in pieces[i]
    ensures Split(Join(pieces, sep), sep) == pieces
  {
    if |pieces| == 1 {
      SplitNoSep(pieces[0], sep);
    } else {
      JoinSplit(pieces[1..], sep);
      SplitPrefix(pieces[0], sep, Join(pieces[1..], sep));
      assert [pieces[0]] + pieces[1..] == pieces;
    }
  }

  /** Blank pieces joined by a whitespace separator are blank. */
  lemma {:induction false} JoinBlank(pieces: seq<string>, sep: char)
    requires |pieces| >= 1 && IsSpace(sep) && forall i :: 0 <= i < |pieces| ==> Blank(pieces[i])
    ensures Blank(Join(pieces, sep))
  {
    if |pieces| > 1 {
      JoinBlank(pieces[1..], sep);
      assert Blank(pieces[0]);
    }
  }

  /** Python's str.isdigit on ASCII: non-empty and every character a digit. */
  predicate IsDigits(s: string) {
    s != [] && forall i :: 0 <= i < |s| ==> IsDigit(s[i])
  }

  /** The decimal value of a run of digits (leading zeros allowed). */
  function DigitsValue(s: string): (n: nat)
    requires forall i :: 0 <= i < |s| ==> IsDigit(s[i])
  {
    if s == [] then 0 else 10 * DigitsValue(s[..|s| - 1]) + DigitValue(s[|s| - 1])
  }

  /** str(n) for a natural number: its decimal digits, without leading zeros. */
  function Str(n: nat): (r: string)
    ensures IsDigits(r)
    ensures DigitsValue(r) == n
  {
    if n < 10 then [DigitChar(n)]
    else
      var r := Str(n / 10) + [DigitChar(n % 10)];
      assert r[..|r| - 1] == Str(n / 10);
      r
  }

  /** The body Python's int() accepts after the sign: digits, single underscores between digits. */
  predicate IsIntBody(b: string) {
    b != [] && IsDigit(b[0]) && IsDigit(b[|b| - 1]) &&
    (forall i :: 0 <= i < |b| ==> IsDigit(b[i]) || b[i] == '_') &&
    (forall i :: 0 <= i < |b| - 1 ==> !(b[i] == '_' && b[i + 1] == '_'))
  }

  function DropUnderscores(b: string): (r: string)
    requires forall i :: 0 <= i < |b| ==> IsDigit(b[i]) || b[i] == '_'
    ensures forall i :: 0 <= i < |r| ==> IsDigit(r[i])
  {
    if b == [] then []
    else if b[0] == '_' then DropUnderscores(b[1..])
    else [b[0]] + DropUnderscores(b[1..])
  }

  /** Python's int() (base 10, ASCII digits) on a string without surrounding
      whitespace: None where int() raises ValueError. */
  function IntOf(t: string): (r: Option<int>)
    ensures IsDigits(t) ==> r == Some(DigitsValue(t))
  {
    if t == [] then None
    else
      var negative := t[0] == '-';
      var body := if t[0] == '-' || t[0] == '+' then t[1..] else t;
      if !IsIntBody(body) then None
      else
        assert IsDigits(t) ==> DropUnderscores(body) == body by {
          if IsDigits(t) { NoUnderscores(body); }
        }
        var v: int := DigitsValue(DropUnderscores(body));
        Some(if negative then -v else v)
  }

  /** Python's int(s) on a str: surrounding whitespace is ignored. */
  function PyInt(s: string): Option<int> {
    IntOf(Strip(s))
  }

  lemma {:induction false} NoUnderscores(b: string)
    requires forall i :: 0 <= i < |b| ==> IsDigit(b[i])
    ensures DropUnderscores(b) == b
  {
    if b != [] {
      NoUnderscores(b[1..]);
    }
  }

  // ---------------------------------------------------------------------
  // Naive date-times: whole seconds since 0001-01-01 00:00:00.
  // ---------------------------------------------------------------------

  const MinuteSeconds: int := 60
  const HourSeconds: int := 3600
  const DaySeconds: int := 86400
  const WeekSeconds: int := 7 * 86400

  /** 10000-01-01 00:00, the first instant Python's datetime cannot hold. */
  const TimeLimit: int := 3652059 * DaySeconds

  predicate IsLeap(y: int) {
    (y % 4 == 0 && y % 100 != 0) || y % 400 == 0
  }

  function DaysInMonth(y: int, m: int): int
    requires 1 <= m <= 12
  {
    if m == 2 then (if IsLeap(y) then 29 else 28)
    else if m == 4 || m == 6 || m == 9 || m == 11 then 30
    else 31
  }

  function DaysBeforeMonth(y: int, m: int): int
    requires 1 <= m <= 12
    decreases m
  {
    if m == 1 then 0 else DaysBeforeMonth(y, m - 1) + DaysInMonth(y, m - 1)
  }

  /** The date Python's datetime() constructor accepts (years 1..9999). */
  predicate ValidDate(y: int, m: int, d: int) {
    1 <= y <= 9999 && 1 <= m <= 12 && 1 <= d <= DaysInMonth(y, m)
  }

  /** Days from 0001-01-01 to the given date; 0 is a Monday. */
  function DayNumber(y: int, m: int, d: int): int
    requires ValidDate(y, m, d)
  {
    var p := y - 1;
    365 * p + p / 4 - p / 100 + p / 400 + DaysBeforeMonth(y, m) + d - 1
  }

  function DateTimeSeconds(y: int, m: int, d: int, hh: int, mm: int): int
    requires ValidDate(y, m, d)
  {
    DayNumber(y, m, d) * DaySeconds + hh * HourSeconds + mm * MinuteSeconds
  }

  /** datetime.replace(hour=h, minute=0, second=0, microsecond=0). */
  function AtHourOfDay(t: int, h: int): int {
    (t / DaySeconds) * DaySeconds + h * HourSeconds
  }

  /** replace(hour=h, ...) keeps the day and lands exactly on h o'clock. */
  lemma AtHourOfDayClock(t: int, h: int)
    requires 0 <= h <= 23
    ensures AtHourOfDay(t, h) / DaySeconds == t / DaySeconds
    ensures AtHourOfDay(t, h) % DaySeconds == h * HourSeconds
  {
    var q := t / DaySeconds;
    assert AtHourOfDay(t, h) == q * DaySeconds + h * HourSeconds;
    assert 0 <= h * HourSeconds < DaySeconds;
  }

  /** date.weekday(): 0 = Monday, 6 = Sunday. */
  function Weekday(t: int): int {
    (t / DaySeconds) % 7
  }
}
