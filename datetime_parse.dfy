/** The bot's date/time input parser (parse_datetime, parse_deadline) and the
    token check (verify_token). "Now" is a parameter; times are whole seconds
    from 0001-01-01 00:00 (see Base); the hash is a function parameter. */
module DateParse {
  import opened Base

  /** parse_datetime's outcome: a date-time, None, or the OverflowError that adding a
      relative offset raises past the end of year 9999. */
  datatype Parsed = At(t: int) | Unrecognised | Raises

  /** now + timedelta(seconds=delta). */
  function Shift(now: int, delta: int): Parsed {
    if now + delta < TimeLimit then At(now + delta) else Raises
  }

  // ---------------------------------------------------------------------
  // Scanning helpers.
  // ---------------------------------------------------------------------

  /** Length of the run of digits that starts s. */
  function LeadingDigits(s: string): (k: nat)
    ensures k <= |s|
    ensures forall i :: 0 <= i < k ==> IsDigit(s[i])
    ensures k < |s| ==> !IsDigit(s[k])
  {
    if s != [] && IsDigit(s[0]) then 1 + LeadingDigits(s[1..]) else 0
  }

  /** Length of the run of digits that ends s. */
  function TrailingDigits(s: string): (k: nat)
    ensures k <= |s|
    ensures forall i :: |s| - k <= i < |s| ==> IsDigit(s[i])
    ensures k < |s| ==> !IsDigit(s[|s| - k - 1])
  {
    if s != [] && IsDigit(s[|s| - 1]) then 1 + TrailingDigits(s[..|s| - 1]) else 0
  }

  /** Length of the run of whitespace that ends s. */
  function TrailingSpaces(s: string): (k: nat)
    ensures k <= |s|
    ensures forall i :: |s| - k <= i < |s| ==> IsSpace(s[i])
    ensures k < |s| ==> !IsSpace(s[|s| - k - 1])
  {
    if s != [] && IsSpace(s[|s| - 1]) then 1 + TrailingSpaces(s[..|s| - 1]) else 0
  }

  /** Index of the first c in s, |s| when there is none. */
  function IndexOf(s: string, c: char): (k: nat)
    ensures k <= |s|
    ensures forall i :: 0 <= i < k ==> s[i] != c
    ensures k < |s| ==> s[k] == c
  {
    if s == [] then 0 else if s[0] == c then 0 else 1 + IndexOf(s[1..], c)
  }

  // ---------------------------------------------------------------------
  // The relative, "N시간 후", AM/PM and hour-only branches. Each returns None
  // when its pattern does not match, so that the next one is tried.
  // ---------------------------------------------------------------------

  /** Seconds per unit of the relative form; the unit is compared after lower(). */
  function UnitSeconds(u: string): Option<int> {
    var l := Lower(u);
    if l == "일" || l == "day" || l == "days" then Some(DaySeconds)
    else if l == "주" || l == "week" || l == "weeks" then Some(WeekSeconds)
    else if l == "시간" || l == "hour" || l == "hours" then Some(HourSeconds)
    else None
  }

  /** "<digits><unit>". */
  function Relative(s: string, now: int): Option<Parsed> {
    var k := LeadingDigits(s);
    if k == 0 then None
    else match UnitSeconds(s[k..])
      case None => None
      case Some(unit) => Some(Shift(now, DigitsValue(s[..k]) * unit))
  }

  /** "<digits>시간<spaces>후". */
  function HoursLater(s: string, now: int): Option<Parsed> {
    var k := LeadingDigits(s);
    if k == 0 || |s| < k + 3 || s[k..k + 2] != "시간" || s[|s| - 1] != '후' || !Blank(s[k + 2..|s| - 1]) then None
    else Some(Shift(now, DigitsValue(s[..k]) * HourSeconds))
  }

  /** The two-character AM/PM marker, compared after lower(): Some(true) for 오전 and am,
      Some(false) for 오후 and pm. */
  function Marker(a: char, b: char): Option<bool> {
    var x, y := LowerChar(a), LowerChar(b);
    if (x == '오' && y == '전') || (x == 'a' && y == 'm') then Some(true)
    else if (x == '오' && y == '후') || (x == 'p' && y == 'm') then Some(false)
    else None
  }

  /** "<digits>시" and its hour. */
  function HourMark(s: string): Option<nat> {
    var k := LeadingDigits(s);
    if k == 0 || |s| != k + 1 || s[k] != '시' then None else Some(DigitsValue(s[..k]))
  }

  /** The hour rules of the AM/PM branch: 12 AM is hour 0 and a morning hour above 12 is
      refused; an afternoon hour other than 12 gains 12 and a result of 24 or more is refused. */
  function MeridiemHour(morning: bool, hour: nat, now: int): Parsed {
    if morning then
      if hour == 12 then At(AtHourOfDay(now, 0))
      else if hour > 12 then Unrecognised
      else At(AtHourOfDay(now, hour))
    else
      var h := if hour != 12 then hour + 12 else hour;
      if h >= 24 then Unrecognised else At(AtHourOfDay(now, h))
  }

  /** "<오전|오후|AM|PM><spaces><digits>시", the marker in any case. */
  function Meridiem(s: string, now: int): Option<Parsed> {
    if |s| < 2 then None
    else match Marker(s[0], s[1])
      case None => None
      case Some(morning) =>
        match HourMark(TrimLeft(s[2..]))
        case None => None
        case Some(hour) => Some(MeridiemHour(morning, hour, now))
  }

  /** "<one or two digits>시" for an hour 0..23; a larger hour falls through. */
  function HourOnly(s: string, now: int): Option<Parsed> {
    var k := LeadingDigits(s);
    match HourMark(s)
    case Some(hour) => if k <= 2 && hour <= 23 then Some(At(AtHourOfDay(now, hour))) else None
    case None => None
  }

  // ---------------------------------------------------------------------
  // The absolute formats, matched as strptime does: %Y four digits, %m and %d
  // one or two digits (%d also " 7"), %H and %M one or two digits, and the
  // space in a format standing for one or more whitespace characters.
  // ---------------------------------------------------------------------

  datatype Format = Format(sep: char, withTime: bool)

  /** '%Y-%m-%d %H:%M', '%Y-%m-%d', '%Y/%m/%d %H:%M', '%Y/%m/%d', '%Y.%m.%d %H:%M', '%Y.%m.%d'. */
  const Formats: seq<Format> :=
    [Format('-', true), Format('-', false), Format('/', true), Format('/', false), Format('.', true), Format('.', false)]

  predicate MonthField(t: string) {
    (|t| == 1 && '1' <= t[0] <= '9')
    || (|t| == 2 && ((t[0] == '1' && '0' <= t[1] <= '2') || (t[0] == '0' && '1' <= t[1] <= '9')))
  }

  predicate DayField(t: string) {
    (|t| == 1 && '1' <= t[0] <= '9')
    || (|t| == 2 && ((t[0] == '3' && '0' <= t[1] <= '1') || ('1' <= t[0] <= '2' && IsDigit(t[1]))
                     || (t[0] == '0' && '1' <= t[1] <= '9') || (t[0] == ' ' && '1' <= t[1] <= '9')))
  }

  predicate HourField(t: string) {
    (|t| == 1 && IsDigit(t[0]))
    || (|t| == 2 && ((t[0] == '2' && '0' <= t[1] <= '3') || ('0' <= t[0] <= '1' && IsDigit(t[1]))))
  }

  predicate MinuteField(t: string) {
    (|t| == 1 && IsDigit(t[0])) || (|t| == 2 && '0' <= t[0] <= '5' && IsDigit(t[1]))
  }

  /** The number a field spells, a leading space ignored. */
  function FieldValue(t: string): nat
    requires |t| >= 1 && (IsDigit(t[0]) || t[0] == ' ')
    requires forall i :: 1 <= i < |t| ==> IsDigit(t[i])
  {
    if t[0] == ' ' then DigitsValue(t[1..]) else DigitsValue(t)
  }

  /** Day, hour and minute of what follows the second separator. */
  function DayAndTime(tail: string, withTime: bool): Option<(int, int, int)> {
    if !withTime then
      if DayField(tail) then Some((FieldValue(tail), 0, 0)) else None
    else DayWithTime(tail)
  }

  /** "<day><whitespace><hour>:<minute>". */
  function DayWithTime(tail: string): Option<(int, int, int)> {
    var c := IndexOf(tail, ':');
    if c == |tail| || !MinuteField(tail[c + 1..]) then None
    else match DayAndHour(tail[..c])
      case None => None
      case Some((day, hour)) => Some((day, hour, FieldValue(tail[c + 1..])))
  }

  /** "<day><whitespace><hour>", the whitespace run as long as it goes. */
  function DayAndHour(left: string): Option<(int, int)> {
    var h := TrailingDigits(left);
    var hour := left[|left| - h..];
    var before := left[..|left| - h];
    var w := TrailingSpaces(before);
    var day := before[..|before| - w];
    if !HourField(hour) || w == 0 || !DayField(day) then None
    else Some((FieldValue(day), FieldValue(hour)))
  }

  /** datetime.strptime(t, f), None where it raises ValueError (including an impossible date). */
  function ParseFormat(t: string, f: Format): Option<int> {
    if |t| < 5 || !IsDigits(t[..4]) || t[4] != f.sep then None
    else
      var rest := t[5..];
      var j := IndexOf(rest, f.sep);
      if j == |rest| || !MonthField(rest[..j]) then None
      else match DayAndTime(rest[j + 1..], f.withTime)
        case None => None
        case Some((day, hour, minute)) =>
          var year := DigitsValue(t[..4]);
          var month := FieldValue(rest[..j]);
          if ValidDate(year, month, day) then Some(DateTimeSeconds(year, month, day, hour, minute)) else None
  }

  /** The loop over the formats: the first one that parses. */
  function FirstFormat(t: string, fs: seq<Format>): Option<int> {
    if fs == [] then None
    else match ParseFormat(t, fs[0])
      case Some(v) => Some(v)
      case None => FirstFormat(t, fs[1..])
  }

  // ---------------------------------------------------------------------
  // parse_datetime and parse_deadline.
  // ---------------------------------------------------------------------

  function ParseDatetime(s: string, now: int): Parsed {
    if s == [] then Unrecognised else ParseStripped(Strip(s), now)
  }

  /** The patterns, tried in order on the stripped text. */
  function ParseStripped(t: string, now: int): Parsed {
    var relative := Relative(t, now);
    if relative.Some? then relative.value
    else
      var later := HoursLater(t, now);
      if later.Some? then later.value
      else
        var meridiem := Meridiem(t, now);
        if meridiem.Some? then meridiem.value
        else
          var hourOnly := HourOnly(t, now);
          if hourOnly.Some? then hourOnly.value
          else match FirstFormat(t, Formats)
            case Some(v) => At(v)
            case None => Unrecognised
  }

  /** parse_deadline, the alias kept for older callers. */
  function ParseDeadline(s: string, now: int): Parsed {
    ParseDatetime(s, now)
  }

  // ---------------------------------------------------------------------
  // hash_token and verify_token.
  // ---------------------------------------------------------------------

  /** verify_token, with `hash` standing for hash_token. */
  predicate VerifyToken(input: string, storedHash: string, hash: string -> string) {
    hash(input) == storedHash
  }

  /** A token verifies against its own stored hash, whatever the hash function. */
  lemma VerifyOwnToken(token: string, hash: string -> string)
    ensures VerifyToken(token, hash(token), hash)
  {
  }

  /** With an idealised collision-free hash, no other token verifies against it. A real
      SHA-256 digest has a finite range, so this holds only up to collisions. */
  lemma VerifyOnlyOwnToken(token: string, input: string, hash: string -> string)
    requires forall a, b :: hash(a) == hash(b) ==> a == b
    ensures VerifyToken(input, hash(token), hash) <==> input == token
  {
  }


  // ---------------------------------------------------------------------
  // Text builders for the lemmas below.
  // ---------------------------------------------------------------------

  /** Two digits, zero-padded. */
  function Pad2(n: int): string
    requires 0 <= n <= 99
  {
    [DigitChar(n / 10), DigitChar(n % 10)]
  }

  /** Four digits, zero-padded. */
  function Pad4(n: int): string
    requires 0 <= n <= 9999
  {
    Pad2(n / 100) + Pad2(n % 100)
  }

  /** "YYYY<sep>MM<sep>DD". */
  function DateText(sep: char, y: int, m: int, d: int): string
    requires 0 <= y <= 9999 && 0 <= m <= 99 && 0 <= d <= 99
  {
    Pad4(y) + [sep] + Pad2(m) + [sep] + Pad2(d)
  }

  /** "YYYY<sep>MM<sep>DD HH:MM". */
  function DateTimeText(sep: char, y: int, m: int, d: int, hh: int, mm: int): string
    requires 0 <= y <= 9999 && 0 <= m <= 99 && 0 <= d <= 99 && 0 <= hh <= 99 && 0 <= mm <= 99
  {
    DateText(sep, y, m, d) + [' '] + Pad2(hh) + [':'] + Pad2(mm)
  }

  lemma Pad2Value(n: int)
    requires 0 <= n <= 99
    ensures IsDigits(Pad2(n)) && DigitsValue(Pad2(n)) == n
  {
    var p := Pad2(n);
    assert p[..1] == [p[0]] && [p[0]][..0] == [];
    assert DigitValue(p[0]) == n / 10 && DigitValue(p[1]) == n % 10;
    assert DigitsValue(p[..1]) == DigitValue(p[0]);
  }

  lemma DigitsValueAppend2(a: string, b: string)
    requires forall i :: 0 <= i < |a| ==> IsDigit(a[i])
    requires |b| == 2 && IsDigit(b[0]) && IsDigit(b[1])
    ensures forall i :: 0 <= i < |a + b| ==> IsDigit((a + b)[i])
    ensures DigitsValue(a + b) == 100 * DigitsValue(a) + DigitsValue(b)
  {
    var s := a + b;
    var a1 := a + [b[0]];
    assert s[..|s| - 1] == a1;
    assert a1[..|a|] == a;
    assert b[..1] == [b[0]] && [b[0]][..0] == [];
    assert DigitsValue(s) == 10 * DigitsValue(a1) + DigitValue(b[1]);
    assert DigitsValue(a1) == 10 * DigitsValue(a) + DigitValue(b[0]);
    assert DigitsValue(b) == 10 * DigitsValue([b[0]]) + DigitValue(b[1]);
    assert DigitsValue([b[0]]) == DigitValue(b[0]);
  }

  lemma Pad4Value(n: int)
    requires 0 <= n <= 9999
    ensures IsDigits(Pad4(n)) && DigitsValue(Pad4(n)) == n
  {
    Pad2Value(n / 100);
    Pad2Value(n % 100);
    DigitsValueAppend2(Pad2(n / 100), Pad2(n % 100));
  }

  // ---------------------------------------------------------------------
  // Facts about the scanning helpers on concatenations.
  // ---------------------------------------------------------------------

  lemma LeadingDigitsOf(x: string, y: string)
    requires forall i :: 0 <= i < |x| ==> IsDigit(x[i])
    requires y == [] || !IsDigit(y[0])
    ensures LeadingDigits(x + y) == |x|
  {
    var s := x + y;
    assert forall i :: 0 <= i < |x| ==> s[i] == x[i];
    assert y != [] ==> s[|x|] == y[0];
  }

  lemma IndexOfAt(x: string, c: char, y: string)
    requires forall i :: 0 <= i < |x| ==> x[i] != c
    requires y != [] && y[0] == c
    ensures IndexOf(x + y, c) == |x|
  {
    var s := x + y;
    assert forall i :: 0 <= i < |x| ==> s[i] == x[i];
    assert s[|x|] == y[0];
  }

  lemma TrailingDigitsOf(x: string, y: string)
    requires forall i :: 0 <= i < |y| ==> IsDigit(y[i])
    requires x == [] || !IsDigit(x[|x| - 1])
    ensures TrailingDigits(x + y) == |y|
  {
    var s := x + y;
    assert forall i :: |x| <= i < |s| ==> s[i] == y[i - |x|];
    assert x != [] ==> s[|x| - 1] == x[|x| - 1];
  }

  lemma TrailingSpacesOf(x: string, y: string)
    requires Blank(y)
    requires x == [] || !IsSpace(x[|x| - 1])
    ensures TrailingSpaces(x + y) == |y|
  {
    var s := x + y;
    assert forall i :: |x| <= i < |s| ==> s[i] == y[i - |x|];
    assert x != [] ==> s[|x| - 1] == x[|x| - 1];
  }

  // ---------------------------------------------------------------------
  // The loop over the formats.
  // ---------------------------------------------------------------------

  lemma SepMismatch(t: string, f: Format)
    requires |t| < 5 || t[4] != f.sep
    ensures ParseFormat(t, f) == None
  {
  }

  lemma FirstFormatStep(t: string, fs: seq<Format>)
    requires fs != []
    ensures FirstFormat(t, fs) == if ParseFormat(t, fs[0]).Some? then ParseFormat(t, fs[0]) else FirstFormat(t, fs[1..])
  {
  }

  /** Only the two formats whose separator is t[4] can parse t, and the timed one is tried first. */
  lemma FirstFormatBySep(t: string)
    ensures FirstFormat(t, Formats) ==
      if |t| < 5 || (t[4] != '-' && t[4] != '/' && t[4] != '.') then None
      else if ParseFormat(t, Format(t[4], true)).Some? then ParseFormat(t, Format(t[4], true))
      else ParseFormat(t, Format(t[4], false))
  {
    var f1 := [Format('-', false), Format('/', true), Format('/', false), Format('.', true), Format('.', false)];
    var f2 := [Format('/', true), Format('/', false), Format('.', true), Format('.', false)];
    var f3 := [Format('/', false), Format('.', true), Format('.', false)];
    var f4 := [Format('.', true), Format('.', false)];
    var f5 := [Format('.', false)];
    assert Formats[1..] == f1 && f1[1..] == f2 && f2[1..] == f3 && f3[1..] == f4 && f4[1..] == f5 && f5[1..] == [];
    FirstFormatStep(t, Formats);
    FirstFormatStep(t, f1);
    FirstFormatStep(t, f2);
    FirstFormatStep(t, f3);
    FirstFormatStep(t, f4);
    FirstFormatStep(t, f5);
    var dash := |t| >= 5 && t[4] == '-';
    var slash := |t| >= 5 && t[4] == '/';
    var dot := |t| >= 5 && t[4] == '.';
    if !dash {
      SepMismatch(t, Format('-', true));
      SepMismatch(t, Format('-', false));
    }
    if !slash {
      SepMismatch(t, Format('/', true));
      SepMismatch(t, Format('/', false));
    }
    if !dot {
      SepMismatch(t, Format('.', true));
      SepMismatch(t, Format('.', false));
    }
  }

  // ---------------------------------------------------------------------
  // Which branch of parse_datetime answers, for a stripped input.
  // ---------------------------------------------------------------------

  lemma ByRelative(s: string, now: int)
    requires s != [] && Strip(s) == s && Relative(s, now).Some?
    ensures ParseDatetime(s, now) == Relative(s, now).value
  {
  }

  lemma ByHoursLater(s: string, now: int)
    requires s != [] && Strip(s) == s && Relative(s, now) == None && HoursLater(s, now).Some?
    ensures ParseDatetime(s, now) == HoursLater(s, now).value
  {
  }

  lemma ByMeridiem(s: string, now: int)
    requires s != [] && Strip(s) == s && Relative(s, now) == None && HoursLater(s, now) == None
    requires Meridiem(s, now).Some?
    ensures ParseDatetime(s, now) == Meridiem(s, now).value
  {
  }

  lemma ByHourOnly(s: string, now: int)
    requires s != [] && Strip(s) == s && Relative(s, now) == None && HoursLater(s, now) == None
    requires Meridiem(s, now) == None && HourOnly(s, now).Some?
    ensures ParseDatetime(s, now) == HourOnly(s, now).value
  {
  }

  lemma ByFormats(s: string, now: int)
    requires s != [] && Strip(s) == s && Relative(s, now) == None && HoursLater(s, now) == None
    requires Meridiem(s, now) == None && HourOnly(s, now) == None
    ensures ParseDatetime(s, now) == match FirstFormat(s, Formats) case Some(v) => At(v) case None => Unrecognised
  {
  }

  // ---------------------------------------------------------------------
  // The absolute formats.
  // ---------------------------------------------------------------------

  lemma DigitsValueShort(t: string)
    requires 1 <= |t| <= 2 && forall i :: 0 <= i < |t| ==> IsDigit(t[i])
    ensures DigitsValue(t) == if |t| == 1 then DigitValue(t[0]) else 10 * DigitValue(t[0]) + DigitValue(t[1])
  {
    assert t[..|t| - 1][..0] == [];
    if |t| == 2 {
      assert t[..1] == [t[0]];
    }
  }

  /** The ranges strptime enforces on each field. */
  lemma FieldRanges(t: string)
    ensures MonthField(t) ==> 1 <= FieldValue(t) <= 12
    ensures DayField(t) ==> 1 <= FieldValue(t) <= 31
    ensures HourField(t) ==> FieldValue(t) <= 23
    ensures MinuteField(t) ==> FieldValue(t) <= 59
  {
    if |t| == 2 && t[0] == ' ' && IsDigit(t[1]) {
      DigitsValueShort(t[1..]);
    } else if 1 <= |t| <= 2 && forall i :: 0 <= i < |t| ==> IsDigit(t[i]) {
      DigitsValueShort(t);
    }
  }

  /** A zero-padded number is a valid field exactly in the field's range, and reads back. */
  lemma PaddedFields(n: int)
    requires 0 <= n <= 99
    ensures MonthField(Pad2(n)) <==> 1 <= n <= 12
    ensures DayField(Pad2(n)) <==> 1 <= n <= 31
    ensures HourField(Pad2(n)) <==> n <= 23
    ensures MinuteField(Pad2(n)) <==> n <= 59
    ensures FieldValue(Pad2(n)) == n
  {
    Pad2Value(n);
  }

  lemma FormatTail(ys: string, sep: char, ms: string, tail: string, withTime: bool)
    requires |ys| == 4 && IsDigits(ys) && MonthField(ms) && !IsDigit(sep)
    ensures ParseFormat(ys + [sep] + ms + [sep] + tail, Format(sep, withTime)) ==
      match DayAndTime(tail, withTime)
      case None => None
      case Some((day, hour, minute)) =>
        if ValidDate(DigitsValue(ys), FieldValue(ms), day)
        then Some(DateTimeSeconds(DigitsValue(ys), FieldValue(ms), day, hour, minute)) else None
  {
    var s := ys + [sep] + ms + [sep] + tail;
    var rest := ms + [sep] + tail;
    assert s[..4] == ys && s[4] == sep && s[5..] == rest;
    assert rest == ms + ([sep] + tail);
    IndexOfAt(ms, sep, [sep] + tail);
    assert rest[..|ms|] == ms && rest[|ms| + 1..] == tail;
  }

  /** "<day><whitespace><hour>" reads back its two fields. */
  lemma DayAndHourParse(ds: string, w: string, hs: string)
    requires DayField(ds) && w != [] && Blank(w) && HourField(hs)
    ensures DayAndHour(ds + w + hs) == Some((FieldValue(ds), FieldValue(hs)))
  {
    var left := ds + w + hs;
    TrailingDigitsOf(ds + w, hs);
    assert left[..|left| - |hs|] == ds + w && left[|left| - |hs|..] == hs;
    TrailingSpacesOf(ds, w);
    assert (ds + w)[..|ds|] == ds;
  }

  /** "<day><whitespace><hour>:<minute>" reads back its three fields. */
  lemma DayWithTimeParse(ds: string, w: string, hs: string, mins: string)
    requires DayField(ds) && w != [] && Blank(w) && HourField(hs) && MinuteField(mins)
    ensures DayWithTime(ds + w + hs + [':'] + mins) == Some((FieldValue(ds), FieldValue(hs), FieldValue(mins)))
  {
    var left := ds + w + hs;
    var tail := left + ([':'] + mins);
    assert tail == ds + w + hs + [':'] + mins;
    assert forall i :: 0 <= i < |left| ==> left[i] != ':' by {
      assert forall i :: 0 <= i < |left| ==> IsDigit(left[i]) || IsSpace(left[i]);
    }
    IndexOfAt(left, ':', [':'] + mins);
    assert tail[..|left|] == left && tail[|left| + 1..] == mins;
    DayAndHourParse(ds, w, hs);
  }

  /** A date-only text has no ':' and so fails the timed format. */
  lemma DayOnlyNotTimed(ds: string)
    requires DayField(ds)
    ensures DayWithTime(ds) == None
  {
  }

  /** '%Y<sep>%m<sep>%d' reads back year, month and day at 00:00, and refuses an impossible date. */
  lemma DateOnlyParse(ys: string, sep: char, ms: string, ds: string)
    requires |ys| == 4 && IsDigits(ys) && MonthField(ms) && DayField(ds) && !IsDigit(sep)
    ensures ParseFormat(ys + [sep] + ms + [sep] + ds, Format(sep, true)) == None
    ensures ParseFormat(ys + [sep] + ms + [sep] + ds, Format(sep, false)) ==
      if ValidDate(DigitsValue(ys), FieldValue(ms), FieldValue(ds))
      then Some(DateTimeSeconds(DigitsValue(ys), FieldValue(ms), FieldValue(ds), 0, 0)) else None
  {
    FormatTail(ys, sep, ms, ds, true);
    FormatTail(ys, sep, ms, ds, false);
    DayOnlyNotTimed(ds);
  }

  /** '%Y<sep>%m<sep>%d %H:%M' reads back all five fields, and refuses an impossible date. */
  lemma DateTimeParse(ys: string, sep: char, ms: string, ds: string, w: string, hs: string, mins: string)
    requires |ys| == 4 && IsDigits(ys) && MonthField(ms) && DayField(ds) && !IsDigit(sep)
    requires w != [] && Blank(w) && HourField(hs) && MinuteField(mins)
    ensures ParseFormat(ys + [sep] + ms + [sep] + (ds + w + hs + [':'] + mins), Format(sep, true)) ==
      if ValidDate(DigitsValue(ys), FieldValue(ms), FieldValue(ds))
      then Some(DateTimeSeconds(DigitsValue(ys), FieldValue(ms), FieldValue(ds), FieldValue(hs), FieldValue(mins)))
      else None
    ensures ParseFormat(ys + [sep] + ms + [sep] + (ds + w + hs + [':'] + mins), Format(sep, false)) == None
  {
    var tail := ds + w + hs + [':'] + mins;
    FormatTail(ys, sep, ms, tail, true);
    FormatTail(ys, sep, ms, tail, false);
    DayWithTimeParse(ds, w, hs, mins);
    assert |tail| > 2;
  }

  lemma DayWithTimeLong(tail: string)
    ensures DayWithTime(tail).Some? ==> |tail| >= 5
  {
    var c := IndexOf(tail, ':');
    if c < |tail| && DayAndHour(tail[..c]).Some? {
      DayAndHourLong(tail[..c]);
    }
  }

  lemma DayAndHourLong(left: string)
    ensures DayAndHour(left).Some? ==> |left| >= 3
  {
  }

  /** At most one of the six formats parses a given text. */
  lemma FormatsExclusive(t: string, f: Format, g: Format)
    requires ParseFormat(t, f).Some? && ParseFormat(t, g).Some?
    ensures f == g
  {
    var rest := t[5..];
    var j := IndexOf(rest, f.sep);
    DayWithTimeLong(rest[j + 1..]);
  }

  // ---------------------------------------------------------------------
  // Properties of parse_datetime.
  // ---------------------------------------------------------------------

  /** What every branch makes of the empty string. */
  lemma EmptyUnrecognised(now: int)
    ensures Relative([], now) == None && HoursLater([], now) == None && Meridiem([], now) == None
    ensures HourOnly([], now) == None && FirstFormat([], Formats) == None
  {
    FirstFormatBySep([]);
  }

  /** Empty or all-whitespace input is not a date and time. */
  lemma BlankUnrecognised(s: string, now: int)
    requires Blank(s)
    ensures ParseDatetime(s, now) == Unrecognised
  {
    StripEmptyIffBlank(s);
    EmptyUnrecognised(now);
  }

  /** The input is stripped before any pattern is tried. */
  lemma StripFirst(s: string, now: int)
    ensures ParseDatetime(s, now) == ParseDatetime(Strip(s), now)
  {
    StripIdempotent(s);
    EmptyUnrecognised(now);
  }

  /** A relative unit starts with none of the characters a digit, a separator or a space can be. */
  lemma UnitShape(u: string)
    ensures UnitSeconds(u).Some? ==>
      u != [] && !IsDigit(u[0]) && u[0] != '-' && u[0] != '/' && u[0] != '.' && !IsSpace(u[|u| - 1])
  {
    if UnitSeconds(u).Some? {
      var l := Lower(u);
      assert l[0] == LowerChar(u[0]) && l[|l| - 1] == LowerChar(u[|u| - 1]);
    }
  }

  lemma RelativeMatch(d: string, u: string, now: int)
    requires IsDigits(d) && UnitSeconds(u).Some?
    ensures Relative(d + u, now) == Some(Shift(now, DigitsValue(d) * UnitSeconds(u).value))
  {
    UnitShape(u);
    var s := d + u;
    LeadingDigitsOf(d, u);
    assert s[..|d|] == d && s[|d|..] == u;
  }

  /** "<N>일|day|days|주|week|weeks|시간|hour|hours" (unit in any case) is now plus N of that unit. */
  lemma RelativeForm(d: string, u: string, now: int)
    requires IsDigits(d) && UnitSeconds(u).Some?
    ensures ParseDatetime(d + u, now) == Shift(now, DigitsValue(d) * UnitSeconds(u).value)
  {
    UnitShape(u);
    StripKeeps(d + u);
    RelativeMatch(d, u, now);
    ByRelative(d + u, now);
  }

  /** A unit means days exactly when its lower-cased form is 일, day or days, so in any case. */
  lemma DayUnits(u: string)
    ensures UnitSeconds(u) == Some(DaySeconds) <==> Lower(u) in {"일", "day", "days"}
  {
  }

  /** A unit means weeks exactly when its lower-cased form is 주, week or weeks. */
  lemma WeekUnits(u: string)
    ensures UnitSeconds(u) == Some(WeekSeconds) <==> Lower(u) in {"주", "week", "weeks"}
  {
  }

  /** A unit means hours exactly when its lower-cased form is 시간, hour or hours. */
  lemma HourUnits(u: string)
    ensures UnitSeconds(u) == Some(HourSeconds) <==> Lower(u) in {"시간", "hour", "hours"}
  {
  }

  /** Every other word is no unit: minutes (분, min) and abbreviations (hr) among them. */
  lemma OtherUnits(u: string)
    ensures UnitSeconds(u) == None <==>
      Lower(u) !in {"일", "day", "days", "주", "week", "weeks", "시간", "hour", "hours"}
  {
  }

  lemma HoursLaterNotRelative(d: string, w: string, now: int)
    requires IsDigits(d) && Blank(w)
    ensures Relative(d + "시간" + w + "후", now) == None
  {
    var s := d + "시간" + w + "후";
    var tail := "시간" + w + "후";
    assert s == d + tail;
    LeadingDigitsOf(d, tail);
    assert s[|d|..] == tail;
    NotAUnit(tail);
  }

  /** Three or more characters starting with 시 are no relative unit. */
  lemma NotAUnit(u: string)
    requires |u| >= 3 && u[0] == '시'
    ensures UnitSeconds(u) == None
  {
    var l := Lower(u);
    assert l[0] == '시' && |l| >= 3;
  }

  lemma HoursLaterMatch(d: string, w: string, now: int)
    requires IsDigits(d) && Blank(w)
    ensures HoursLater(d + "시간" + w + "후", now) == Some(Shift(now, DigitsValue(d) * HourSeconds))
  {
    var s := d + "시간" + w + "후";
    var tail := "시간" + w + "후";
    assert s == d + tail;
    LeadingDigitsOf(d, tail);
    assert s[..|d|] == d;
    assert s[|d|..|d| + 2] == "시간";
    assert s[|d| + 2..|s| - 1] == w;
  }

  /** "<N>시간<whitespace>후" is now plus N hours. */
  lemma HoursLaterForm(d: string, w: string, now: int)
    requires IsDigits(d) && Blank(w)
    ensures ParseDatetime(d + "시간" + w + "후", now) == Shift(now, DigitsValue(d) * HourSeconds)
  {
    var s := d + "시간" + w + "후";
    assert s[0] == d[0] && s[|s| - 1] == '후';
    StripKeeps(s);
    HoursLaterNotRelative(d, w, now);
    HoursLaterMatch(d, w, now);
    ByHoursLater(s, now);
  }

  lemma MeridiemOf(s: string, now: int)
    requires |s| >= 2 && Marker(s[0], s[1]).Some? && HourMark(TrimLeft(s[2..])).Some?
    ensures Meridiem(s, now) == Some(MeridiemHour(Marker(s[0], s[1]).value, HourMark(TrimLeft(s[2..])).value, now))
  {
  }

  lemma MeridiemMatch(a: char, b: char, w: string, mark: string, now: int)
    requires Marker(a, b).Some? && Blank(w) && HourMark(mark).Some? && !IsSpace(mark[0])
    ensures Meridiem([a, b] + w + mark, now) == Some(MeridiemHour(Marker(a, b).value, HourMark(mark).value, now))
  {
    var s := [a, b] + w + mark;
    assert s[2..] == w + mark;
    TrimLeftBlankPrefix(w, mark);
    MeridiemOf(s, now);
  }

  /** A digit starts no AM/PM marker. */
  lemma DigitNoMarker(c: char, e: char)
    requires IsDigit(c)
    ensures Marker(c, e) == None
  {
  }

  lemma NoMarkerNoMeridiem(s: string, now: int)
    requires |s| >= 2 ==> Marker(s[0], s[1]) == None
    ensures Meridiem(s, now) == None
  {
  }

  /** "<N>시" marks hour N. */
  lemma HourMarkOf(d: string)
    requires IsDigits(d)
    ensures HourMark(d + "시") == Some(DigitsValue(d))
  {
    LeadingDigitsOf(d, "시");
    assert (d + "시")[..|d|] == d;
  }

  lemma MeridiemNoEarlierMatch(a: char, b: char, rest: string, now: int)
    requires Marker(a, b).Some?
    requires rest != [] && rest[|rest| - 1] == '시'
    ensures var s := [a, b] + rest;
      s != [] && Strip(s) == s && Relative(s, now) == None && HoursLater(s, now) == None
  {
    var s := [a, b] + rest;
    assert s[0] == a && s[|s| - 1] == '시';
    StripKeeps(s);
    assert LeadingDigits(s) == 0;
  }

  /** "<오전|오후|AM|PM><whitespace><N>시", the marker in any case, follows the twelve-hour rules
      of MeridiemHour. */
  lemma MeridiemForm(a: char, b: char, w: string, d: string, now: int)
    requires Marker(a, b).Some? && Blank(w) && IsDigits(d)
    ensures ParseDatetime([a, b] + w + d + "시", now) == MeridiemHour(Marker(a, b).value, DigitsValue(d), now)
  {
    var mark := d + "시";
    assert [a, b] + w + d + "시" == [a, b] + w + mark;
    HourMarkOf(d);
    assert mark[0] == d[0] && mark[|mark| - 1] == '시';
    MeridiemText(a, b, w, mark, now);
  }

  lemma MeridiemText(a: char, b: char, w: string, mark: string, now: int)
    requires Marker(a, b).Some? && Blank(w) && HourMark(mark).Some? && !IsSpace(mark[0]) && mark[|mark| - 1] == '시'
    ensures ParseDatetime([a, b] + w + mark, now) == MeridiemHour(Marker(a, b).value, HourMark(mark).value, now)
  {
    var s := [a, b] + w + mark;
    assert s == [a, b] + (w + mark);
    MeridiemNoEarlierMatch(a, b, w + mark, now);
    MeridiemMatch(a, b, w, mark, now);
    ByMeridiem(s, now);
  }

  /** The markers, in either case. */
  lemma Markers()
    ensures Marker('오', '전') == Marker('A', 'm') == Marker('a', 'M') == Some(true)
    ensures Marker('오', '후') == Marker('P', 'M') == Marker('p', 'm') == Some(false)
    ensures Marker('오', 'm') == Marker('a', '후') == None
  {
  }

  /** The twelve-hour clock: an hour up to 12 gives hour % 12 in the morning and hour % 12 + 12 in
      the afternoon, on the day of `now` at minute 0; any larger hour is refused. */
  lemma MeridiemClock(morning: bool, hour: nat, now: int)
    ensures MeridiemHour(morning, hour, now).At? <==> hour <= 12
    ensures MeridiemHour(morning, hour, now).At? ==>
      var t := MeridiemHour(morning, hour, now).t;
      t / DaySeconds == now / DaySeconds &&
      t % DaySeconds == (if morning then hour % 12 else hour % 12 + 12) * HourSeconds
  {
    if hour <= 12 {
      var h := if morning then hour % 12 else hour % 12 + 12;
      assert MeridiemHour(morning, hour, now) == At(AtHourOfDay(now, h));
      AtHourOfDayClock(now, h);
    }
  }

  lemma HourOnlyNotRelative(d: string, now: int)
    requires IsDigits(d)
    ensures Relative(d + "시", now) == None
  {
    var s := d + "시";
    LeadingDigitsOf(d, "시");
    assert s[|d|..] == "시";
    assert Lower("시") == "시";
  }

  lemma HourOnlyNoEarlierMatch(d: string, now: int)
    requires IsDigits(d)
    ensures var s := d + "시";
      s != [] && Strip(s) == s && Relative(s, now) == None && HoursLater(s, now) == None && Meridiem(s, now) == None
  {
    var s := d + "시";
    StripKeeps(s);
    HourOnlyNotRelative(d, now);
    LeadingDigitsOf(d, "시");
    assert s[0] == d[0];
    DigitNoMarker(s[0], s[1]);
    NoMarkerNoMeridiem(s, now);
  }

  lemma HourOnlyMatch(d: string, now: int)
    requires IsDigits(d)
    ensures HourOnly(d + "시", now) ==
      if |d| <= 2 && DigitsValue(d) <= 23 then Some(At(AtHourOfDay(now, DigitsValue(d)))) else None
  {
    LeadingDigitsOf(d, "시");
    HourMarkOf(d);
  }

  lemma HourMarkNoFormat(d: string)
    requires IsDigits(d)
    ensures FirstFormat(d + "시", Formats) == None
  {
    var s := d + "시";
    FirstFormatBySep(s);
    assert |s| >= 5 ==> s[4] == '시' || IsDigit(s[4]);
  }

  /** "<N>시" is N o'clock today for one or two digits and N up to 23, and is refused otherwise. */
  lemma HourOnlyForm(d: string, now: int)
    requires IsDigits(d)
    ensures ParseDatetime(d + "시", now) ==
      if |d| <= 2 && DigitsValue(d) <= 23 then At(AtHourOfDay(now, DigitsValue(d))) else Unrecognised
  {
    HourOnlyNoEarlierMatch(d, now);
    HourOnlyMatch(d, now);
    HourMarkNoFormat(d);
    if |d| <= 2 && DigitsValue(d) <= 23 {
      ByHourOnly(d + "시", now);
    } else {
      ByFormats(d + "시", now);
    }
  }

  lemma DateShapedNotRelative(s: string, now: int)
    requires |s| >= 5 && IsDigits(s[..4]) && (s[4] == '-' || s[4] == '/' || s[4] == '.')
    ensures LeadingDigits(s) == 4 && Relative(s, now) == None
  {
    assert s == s[..4] + s[4..];
    LeadingDigitsOf(s[..4], s[4..]);
    UnitShape(s[4..]);
  }

  /** Text shaped like an absolute date reaches the loop over the formats. */
  lemma DateShapedNoEarlierMatch(s: string, now: int)
    requires |s| >= 5 && IsDigits(s[..4]) && (s[4] == '-' || s[4] == '/' || s[4] == '.') && !IsSpace(s[|s| - 1])
    ensures s != [] && Strip(s) == s && Relative(s, now) == None && HoursLater(s, now) == None
    ensures Meridiem(s, now) == None && HourOnly(s, now) == None
  {
    assert IsDigit(s[..4][0]);
    StripKeeps(s);
    DateShapedNotRelative(s, now);
    DigitNoMarker(s[0], s[1]);
    NoMarkerNoMeridiem(s, now);
  }

  lemma DateTextShape(ys: string, sep: char, ms: string, tail: string)
    requires |ys| == 4 && tail != []
    ensures var s := ys + [sep] + ms + [sep] + tail;
      |s| >= 5 && s[..4] == ys && s[4] == sep && s[|s| - 1] == tail[|tail| - 1]
  {
  }

  /** Text shaped like an absolute date is read by the two formats with its separator. */
  lemma DateShapedParse(s: string, now: int)
    requires |s| >= 5 && IsDigits(s[..4]) && (s[4] == '-' || s[4] == '/' || s[4] == '.') && !IsSpace(s[|s| - 1])
    ensures ParseDatetime(s, now) ==
      if ParseFormat(s, Format(s[4], true)).Some? then At(ParseFormat(s, Format(s[4], true)).value)
      else if ParseFormat(s, Format(s[4], false)).Some? then At(ParseFormat(s, Format(s[4], false)).value)
      else Unrecognised
  {
    DateShapedNoEarlierMatch(s, now);
    FirstFormatBySep(s);
    ByFormats(s, now);
  }

  lemma TimedTailShape(ds: string, w: string, hs: string, mins: string)
    requires MinuteField(mins)
    ensures var tail := ds + w + hs + [':'] + mins; tail != [] && IsDigit(tail[|tail| - 1])
  {
    var tail := ds + w + hs + [':'] + mins;
    assert tail[|tail| - 1] == mins[|mins| - 1];
  }

  lemma DateTextParse(ys: string, sep: char, ms: string, tail: string, now: int)
    requires sep == '-' || sep == '/' || sep == '.'
    requires |ys| == 4 && IsDigits(ys) && tail != [] && IsDigit(tail[|tail| - 1])
    ensures ParseDatetime(ys + [sep] + ms + [sep] + tail, now) ==
      var s := ys + [sep] + ms + [sep] + tail;
      if ParseFormat(s, Format(sep, true)).Some? then At(ParseFormat(s, Format(sep, true)).value)
      else if ParseFormat(s, Format(sep, false)).Some? then At(ParseFormat(s, Format(sep, false)).value)
      else Unrecognised
  {
    DateTextShape(ys, sep, ms, tail);
    DateShapedParse(ys + [sep] + ms + [sep] + tail, now);
  }

  /** "YYYY<sep>M<sep>D" with sep one of - / . is that day at 00:00 (the date-only formats),
      and an impossible date (year 0, 30 February, 31 April, ...) is refused. */
  lemma DateForm(ys: string, sep: char, ms: string, ds: string, now: int)
    requires sep == '-' || sep == '/' || sep == '.'
    requires |ys| == 4 && IsDigits(ys) && MonthField(ms) && DayField(ds)
    ensures ParseDatetime(ys + [sep] + ms + [sep] + ds, now) ==
      if ValidDate(DigitsValue(ys), FieldValue(ms), FieldValue(ds))
      then At(DateTimeSeconds(DigitsValue(ys), FieldValue(ms), FieldValue(ds), 0, 0)) else Unrecognised
  {
    DateOnlyParse(ys, sep, ms, ds);
    DateTextParse(ys, sep, ms, ds, now);
  }

  /** "YYYY<sep>M<sep>D<whitespace>H:M" with sep one of - / . is that minute, and an impossible
      date is refused. */
  lemma DateTimeForm(ys: string, sep: char, ms: string, ds: string, w: string, hs: string, mins: string, now: int)
    requires sep == '-' || sep == '/' || sep == '.'
    requires |ys| == 4 && IsDigits(ys) && MonthField(ms) && DayField(ds)
    requires w != [] && Blank(w) && HourField(hs) && MinuteField(mins)
    ensures ParseDatetime(ys + [sep] + ms + [sep] + (ds + w + hs + [':'] + mins), now) ==
      if ValidDate(DigitsValue(ys), FieldValue(ms), FieldValue(ds))
      then At(DateTimeSeconds(DigitsValue(ys), FieldValue(ms), FieldValue(ds), FieldValue(hs), FieldValue(mins)))
      else Unrecognised
  {
    var tail := ds + w + hs + [':'] + mins;
    TimedTailShape(ds, w, hs, mins);
    DateTimeParse(ys, sep, ms, ds, w, hs, mins);
    DateTextParse(ys, sep, ms, tail, now);
  }

  /** Writing a date zero-padded and parsing it gives it back at 00:00, for every separator. */
  lemma DateRoundTrip(sep: char, y: int, m: int, d: int, now: int)
    requires sep == '-' || sep == '/' || sep == '.'
    requires ValidDate(y, m, d)
    ensures ParseDatetime(DateText(sep, y, m, d), now) == At(DateTimeSeconds(y, m, d, 0, 0))
  {
    Pad4Value(y);
    PaddedFields(m);
    PaddedFields(d);
    DateForm(Pad4(y), sep, Pad2(m), Pad2(d), now);
  }

  /** Writing a date and time zero-padded and parsing it gives it back, for every separator. */
  lemma DateTimeRoundTrip(sep: char, y: int, m: int, d: int, hh: int, mm: int, now: int)
    requires sep == '-' || sep == '/' || sep == '.'
    requires ValidDate(y, m, d) && 0 <= hh <= 23 && 0 <= mm <= 59
    ensures ParseDatetime(DateTimeText(sep, y, m, d, hh, mm), now) == At(DateTimeSeconds(y, m, d, hh, mm))
  {
    Pad4Value(y);
    PaddedFields(m);
    PaddedFields(d);
    PaddedFields(hh);
    PaddedFields(mm);
    assert DateTimeText(sep, y, m, d, hh, mm) == Pad4(y) + [sep] + Pad2(m) + [sep] + (Pad2(d) + [' '] + Pad2(hh) + [':'] + Pad2(mm));
    DateTimeForm(Pad4(y), sep, Pad2(m), Pad2(d), [' '], Pad2(hh), Pad2(mm), now);
  }

  /** An impossible padded date is refused outright. */
  lemma ImpossibleDateRefused(sep: char, y: int, m: int, d: int, now: int)
    requires sep == '-' || sep == '/' || sep == '.'
    requires 0 <= y <= 9999 && 1 <= m <= 12 && 1 <= d <= 31 && !ValidDate(y, m, d)
    ensures ParseDatetime(DateText(sep, y, m, d), now) == Unrecognised
  {
    Pad4Value(y);
    PaddedFields(m);
    PaddedFields(d);
    DateForm(Pad4(y), sep, Pad2(m), Pad2(d), now);
  }

  /** parse_deadline answers exactly as parse_datetime. */
  lemma DeadlineIsDatetime(s: string, now: int)
    ensures ParseDeadline(s, now) == ParseDatetime(s, now)
  {
  }

  /** A text without a digit has no leading digits. */
  lemma NoLeadingDigits(t: string)
    requires forall i :: 0 <= i < |t| ==> !IsDigit(t[i])
    ensures LeadingDigits(t) == 0
  {
  }

  /** No format matches a text that does not start with four digits. */
  lemma {:induction false} NoYearNoFormat(t: string, fs: seq<Format>)
    requires |t| < 5 || !IsDigits(t[..4])
    ensures FirstFormat(t, fs) == None
  {
    if fs != [] {
      NoYearNoFormat(t, fs[1..]);
    }
  }

  /** Every pattern needs a digit, so a text without one, such as 내일 (tomorrow), is not a
      date and time. */
  lemma UnknownWordRefused(s: string, now: int)
    requires forall i :: 0 <= i < |s| ==> !IsDigit(s[i])
    ensures ParseDatetime(s, now) == Unrecognised
  {
    if s != [] {
      var t := Strip(s);
      forall c | IsDigit(c) ensures c !in t {
        StripKeepsOut(s, c);
      }
      NoLeadingDigits(t);
      if |t| >= 2 {
        var r := TrimLeft(t[2..]);
        forall i | 0 <= i < |r| ensures !IsDigit(r[i]) {
          assert r[i] in t[2..];
        }
        NoLeadingDigits(r);
      }
      if |t| >= 5 {
        assert !IsDigit(t[..4][0]);
      }
      NoYearNoFormat(t, Formats);
    }
  }
}
