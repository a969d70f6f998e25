/** The solved.ac tier codec: tier numbers 0..30, their long labels
    ("Gold II") and the two-character short codes ("G2"). */
module Tiers {
  import opened Base

  /** TIER_MAPPING, indexed by tier number. */
  const TierNames: seq<string> := [
    "Unrated",
    "Bronze V", "Bronze IV", "Bronze III", "Bronze II", "Bronze I",
    "Silver V", "Silver IV", "Silver III", "Silver II", "Silver I",
    "Gold V", "Gold IV", "Gold III", "Gold II", "Gold I",
    "Platinum V", "Platinum IV", "Platinum III", "Platinum II", "Platinum I",
    "Diamond V", "Diamond IV", "Diamond III", "Diamond II", "Diamond I",
    "Ruby V", "Ruby IV", "Ruby III", "Ruby II", "Ruby I"
  ]

  const MaxTier: int := 30
  const UnknownTier: string := "Unknown"

  /** The short-code letters and the band names they stand for, lowest band first. */
  const BandLetters: seq<char> := ['B', 'S', 'G', 'P', 'D', 'R']
  const BandNames: seq<string> := ["Bronze", "Silver", "Gold", "Platinum", "Diamond", "Ruby"]

  /** The level table of tier_to_number; levels outside 1..5 map to the empty string. */
  function Roman(level: int): string {
    if level == 5 then "V"
    else if level == 4 then "IV"
    else if level == 3 then "III"
    else if level == 2 then "II"
    else if level == 1 then "I"
    else ""
  }

  /** Band (0 = Bronze .. 5 = Ruby) and level (5 = V .. 1 = I) of a rated tier. */
  function Band(n: int): int
    requires 1 <= n <= MaxTier
  {
    (n - 1) / 5
  }

  function Level(n: int): int
    requires 1 <= n <= MaxTier
  {
    5 - (n - 1) % 5
  }

  /** The short code "G2" of a rated tier, as the docstring of number_to_tier_short describes it. */
  predicate IsShortCodeOf(s: string, n: int) {
    1 <= n <= MaxTier && |s| == 2 && UpperChar(s[0]) == BandLetters[Band(n)] && s[1] == DigitChar(Level(n))
  }

  /** First-match search over TIER_MAPPING from tier `from` upwards. */
  function FindTier(name: string, from: nat): (r: Option<int>)
    ensures r.Some? ==> from <= r.value < |TierNames| && TierNames[r.value] == name
    ensures r.None? ==> forall n :: from <= n < |TierNames| ==> TierNames[n] != name
    decreases |TierNames| - from
  {
    if from >= |TierNames| then None
    else if TierNames[from] == name then Some(from)
    else FindTier(name, from + 1)
  }

  /** Index of a letter in the short-code table. */
  function BandOf(letter: char): (r: Option<int>)
    ensures r.Some? ==> 0 <= r.value < |BandLetters| && BandLetters[r.value] == letter
    ensures r.None? ==> letter !in BandLetters
  {
    if letter == 'B' then Some(0)
    else if letter == 'S' then Some(1)
    else if letter == 'G' then Some(2)
    else if letter == 'P' then Some(3)
    else if letter == 'D' then Some(4)
    else if letter == 'R' then Some(5)
    else None
  }

  /** The short-form branch of tier_to_number: None when it does not return. */
  function ShortForm(s: string): Option<int> {
    if |s| == 2 && IsAsciiLetter(s[0]) && IsDigit(s[1]) then
      match BandOf(UpperChar(s[0]))
      case Some(b) => FindTier(BandNames[b] + " " + Roman(DigitValue(s[1])), 0)
      case None => None
    else None
  }

  /** tier_to_number: the short form first, then an exact long label. */
  function TierToNumber(s: string): Option<int> {
    match ShortForm(s)
    case Some(n) => Some(n)
    case None => FindTier(s, 0)
  }

  /** number_to_tier. */
  function NumberToTier(n: int): (r: string)
    ensures r != UnknownTier <==> 0 <= n <= MaxTier
  {
    if 0 <= n < |TierNames| then TierNames[n] else UnknownTier
  }

  /** number_to_tier_short as written: the "V" test comes before the "IV" test. */
  function NumberToTierShort(n: int): string {
    if n == 0 then "Unrated"
    else
      var name := NumberToTier(n);
      if name == UnknownTier then UnknownTier else LabelToShort(name)
  }

  /** The Roman-numeral tests of number_to_tier_short on a label. */
  function LabelToShort(name: string): string
    requires name != []
  {
    var letter := name[0];
    if Contains(name, "V") then [letter, '5']
    else if Contains(name, "IV") then [letter, '4']
    else if Contains(name, "III") then [letter, '3']
    else if Contains(name, "II") then [letter, '2']
    else if Contains(name, "I") then [letter, '1']
    else name
  }

  /** number_to_tier_short as its docstring describes it: "IV" is tested before "V". */
  function NumberToTierShortIntended(n: int): string {
    if n == 0 then "Unrated"
    else
      var name := NumberToTier(n);
      if name == UnknownTier then UnknownTier else LabelToShortIntended(name)
  }

  function LabelToShortIntended(name: string): string
    requires name != []
  {
    var letter := name[0];
    if Contains(name, "IV") then [letter, '4']
    else if Contains(name, "V") then [letter, '5']
    else if Contains(name, "III") then [letter, '3']
    else if Contains(name, "II") then [letter, '2']
    else if Contains(name, "I") then [letter, '1']
    else name
  }

  /** On a label whose numeral tests answer as level l's do, the tests pick digit l,
      except that as written level 4 is caught by the "V" test. */
  lemma NumeralTests(name: string, l: int)
    requires name != [] && 1 <= l <= 5
    requires Contains(name, "V") <==> l >= 4
    requires Contains(name, "IV") <==> l == 4
    requires Contains(name, "III") <==> l == 3
    requires Contains(name, "II") <==> l == 2 || l == 3
    requires Contains(name, "I") <==> l <= 4
    ensures LabelToShort(name) == [name[0], DigitChar(if l == 4 then 5 else l)]
    ensures LabelToShortIntended(name) == [name[0], DigitChar(l)]
  {
  }

  // ---------------------------------------------------------------------
  // Facts about the table.
  // ---------------------------------------------------------------------

  lemma TierNamesDistinct()
    ensures forall i, j :: 0 <= i < j < |TierNames| ==> TierNames[i] != TierNames[j]
  {
    forall i, j | 0 <= i < j < |TierNames| ensures TierNames[i] != TierNames[j] {
      TierPairDistinct(i, j);
    }
  }

  lemma TierPairDistinct(i: int, j: int)
    requires 0 <= i < j <= MaxTier
    ensures TierNames[i] != TierNames[j]
  {
    TierNameShape(j);
    if i == 0 {
      assert TierNames[0] == "Unrated";
      BuiltLabelsDistinct(-1, 0, Band(j), Level(j));
    } else {
      TierNameShape(i);
      BuiltLabelsDistinct(Band(i), Level(i), Band(j), Level(j));
    }
  }

  /** Built labels of different (band, level) pairs differ, and none is "Unrated". */
  lemma BuiltLabelsDistinct(b1: int, l1: int, b2: int, l2: int)
    requires -1 <= b1 < |BandNames| && 0 <= b2 < |BandNames| && 1 <= l2 <= 5
    requires b1 >= 0 ==> 1 <= l1 <= 5
    requires (b1, l1) != (b2, l2)
    ensures (if b1 < 0 then "Unrated" else BandNames[b1] + " " + Roman(l1)) != BandNames[b2] + " " + Roman(l2)
  {
    var q := BandNames[b2] + " ";
    assert (q + Roman(l2))[0] == BandNames[b2][0];
    if b1 >= 0 {
      var p := BandNames[b1] + " ";
      assert (p + Roman(l1))[0] == BandNames[b1][0];
      if b1 == b2 {
        assert (p + Roman(l1))[|p|..] == Roman(l1);
        assert (q + Roman(l2))[|q|..] == Roman(l2);
      }
    }
  }

  /** Every rated label is its band name, a space and its level in Roman numerals. */
  lemma TierNameShape(n: int)
    requires 1 <= n <= MaxTier
    ensures TierNames[n] == BandNames[Band(n)] + " " + Roman(Level(n))
  {
    if n <= 10 {
      LowerBandsShape(n);
    } else if n <= 20 {
      MiddleBandsShape(n);
    } else {
      UpperBandsShape(n);
    }
  }

  lemma LowerBandsShape(n: int)
    requires 1 <= n <= 10
    ensures TierNames[n] == BandNames[Band(n)] + " " + Roman(Level(n))
  {
    if n <= 5 { assert Band(n) == 0; } else { assert Band(n) == 1; }
  }

  lemma MiddleBandsShape(n: int)
    requires 11 <= n <= 20
    ensures TierNames[n] == BandNames[Band(n)] + " " + Roman(Level(n))
  {
    if n <= 15 { assert Band(n) == 2; } else { assert Band(n) == 3; }
  }

  lemma UpperBandsShape(n: int)
    requires 21 <= n <= 30
    ensures TierNames[n] == BandNames[Band(n)] + " " + Roman(Level(n))
  {
    if n <= 25 { assert Band(n) == 4; } else { assert Band(n) == 5; }
  }

  /** Every label ends in a letter, never in a space. */
  lemma TierNamesShape()
    ensures forall n :: 0 <= n < |TierNames| ==> |TierNames[n]| >= 6 && TierNames[n][|TierNames[n]| - 1] != ' '
  {
  }

  /** A band name followed by a space alone (an out-of-range level) is no label. */
  lemma BandPrefixNotATier(b: int)
    requires 0 <= b < |BandNames|
    ensures forall n :: 0 <= n < |TierNames| ==> TierNames[n] != BandNames[b] + " "
  {
    TierNamesShape();
    var p := BandNames[b] + " ";
    assert p[|p| - 1] == ' ';
  }

  lemma RomanContains(k: int)
    requires 1 <= k <= 5
    ensures Contains(Roman(k), "V") <==> k >= 4
    ensures Contains(Roman(k), "IV") <==> k == 4
    ensures Contains(Roman(k), "III") <==> k == 3
    ensures Contains(Roman(k), "II") <==> k == 2 || k == 3
    ensures Contains(Roman(k), "I") <==> k <= 4
  {
    var r := Roman(k);
    ContainsChar(r, 'V');
    ContainsChar(r, 'I');
    assert "V" == ['V'] && "I" == ['I'];
    if k == 5 {
      ContainsLonger(r, "IV");
      ContainsLonger(r, "III");
      ContainsLonger(r, "II");
    } else if k == 4 {
      assert r[..2] == "IV";
      ContainsLonger(r, "III");
      assert r[1..] == "V";
      ContainsLonger(r[1..], "II");
    } else if k == 3 {
      assert r[..3] == "III" && r[..2] == "II";
      assert r[1..] == "II" && r[1..][..2] == "II";
      ContainsLonger(r[1..][1..], "IV");
    } else if k == 2 {
      assert r[..2] == "II";
      ContainsLonger(r, "III");
      assert r[1..] == "I";
      ContainsLonger(r[1..], "IV");
    } else {
      ContainsLonger(r, "IV");
      ContainsLonger(r, "III");
      ContainsLonger(r, "II");
    }
  }

  /** No band name holds the first letter of a Roman numeral. */
  lemma NumeralNotInBand(b: int, sub: string)
    requires 0 <= b < |BandNames|
    requires sub in {"V", "IV", "III", "II", "I"}
    ensures sub != [] && sub[0] !in BandNames[b] + " "
  {
    assert sub[0] == 'V' || sub[0] == 'I';
  }

  /** The Roman-numeral tests of number_to_tier_short see only the level part of a label. */
  lemma LabelContains(n: int, sub: string)
    requires 1 <= n <= MaxTier
    requires sub in {"V", "IV", "III", "II", "I"}
    ensures Contains(TierNames[n], sub) <==> Contains(Roman(Level(n)), sub)
  {
    TierNameShape(n);
    NumeralNotInBand(Band(n), sub);
    ContainsSkip(BandNames[Band(n)] + " ", Roman(Level(n)), sub);
  }

  // ---------------------------------------------------------------------
  // The codec's promises.
  // ---------------------------------------------------------------------

  /** The label search finds exactly the tier whose label it is given. */
  lemma FindTierExact(s: string, n: int)
    ensures FindTier(s, 0) == Some(n) <==> 0 <= n <= MaxTier && s == TierNames[n]
  {
    TierNamesDistinct();
  }

  /** The label the short-form branch builds names tier 5·band + (6 − level), and only for levels 1..5. */
  lemma BuiltLabel(b: int, level: int, n: int)
    requires 0 <= b < |BandNames|
    requires FindTier(BandNames[b] + " " + Roman(level), 0) == Some(n)
    ensures 1 <= level <= 5 && n == 5 * b + 6 - level
  {
    var full := BandNames[b] + " " + Roman(level);
    if level < 1 || level > 5 {
      BandPrefixNotATier(b);
      assert false;
    }
    var m := 5 * b + 6 - level;
    TierNameShape(m);
    assert Band(m) == b && Level(m) == level;
    FindTierExact(full, m);
    FindTierExact(full, n);
  }

  /** What the short-form branch returns is the tier the code names. */
  lemma ShortFormSound(s: string, n: int)
    requires ShortForm(s) == Some(n)
    ensures IsShortCodeOf(s, n)
  {
    var b := BandOf(UpperChar(s[0])).value;
    var level := DigitValue(s[1]);
    BuiltLabel(b, level, n);
    assert Band(n) == b && Level(n) == level;
  }

  /** Every short code is accepted by the short-form branch. */
  lemma ShortFormComplete(s: string, n: int)
    requires IsShortCodeOf(s, n)
    ensures ShortForm(s) == Some(n)
  {
    TierNameShape(n);
    assert BandOf(UpperChar(s[0])) == Some(Band(n));
    assert DigitValue(s[1]) == Level(n);
    assert IsAsciiLetter(s[0]);
    FindTierExact(TierNames[n], n);
  }

  lemma ShortFormExact(s: string, n: int)
    ensures ShortForm(s) == Some(n) <==> IsShortCodeOf(s, n)
  {
    if ShortForm(s) == Some(n) {
      ShortFormSound(s, n);
    }
    if IsShortCodeOf(s, n) {
      ShortFormComplete(s, n);
    }
  }

  /** The first letter of a rated label is its band letter. */
  lemma LabelLetter(n: int)
    requires 1 <= n <= MaxTier
    ensures TierNames[n][0] == BandLetters[Band(n)]
  {
    TierNameShape(n);
  }

  /** tier_to_number accepts exactly the labels and the short codes, and inverts both. */
  lemma TierToNumberExact(s: string, n: int)
    ensures TierToNumber(s) == Some(n) <==> 0 <= n <= MaxTier && (s == TierNames[n] || IsShortCodeOf(s, n))
  {
    ShortFormExact(s, n);
    FindTierExact(s, n);
    TierNamesShape();
    if ShortForm(s).Some? {
      ShortFormExact(s, ShortForm(s).value);
    }
  }

  /** tier_to_number recovers every tier number from its label; any other number is "Unknown". */
  lemma NumberToTierRoundTrip(n: int)
    ensures 0 <= n <= MaxTier ==> TierToNumber(NumberToTier(n)) == Some(n)
    ensures !(0 <= n <= MaxTier) ==> TierToNumber(NumberToTier(n)) == None
  {
    if 0 <= n <= MaxTier {
      TierToNumberExact(NumberToTier(n), n);
    } else {
      assert ShortForm(UnknownTier) == None;
      assert UnknownTier !in TierNames;
    }
  }

  /** "Gold II", "G2" and "g2" all name tier 14. */
  lemma GoldTwo()
    ensures TierToNumber("Gold II") == Some(14)
    ensures TierToNumber("G2") == Some(14)
    ensures TierToNumber("g2") == Some(14)
  {
    TierToNumberExact("Gold II", 14);
    TierToNumberExact("G2", 14);
    TierToNumberExact("g2", 14);
  }

  /** The Roman-numeral tests of both short forms see the level of a rated tier. */
  lemma LevelTests(n: int)
    requires 1 <= n <= MaxTier
    ensures Contains(TierNames[n], "V") <==> Level(n) >= 4
    ensures Contains(TierNames[n], "IV") <==> Level(n) == 4
    ensures Contains(TierNames[n], "III") <==> Level(n) == 3
    ensures Contains(TierNames[n], "II") <==> Level(n) == 2 || Level(n) == 3
    ensures Contains(TierNames[n], "I") <==> Level(n) <= 4
  {
    RomanContains(Level(n));
    LabelContains(n, "V");
    LabelContains(n, "IV");
    LabelContains(n, "III");
    LabelContains(n, "II");
    LabelContains(n, "I");
  }

  /** As written, a rated tier's short code is its band letter and its level, except that
      level IV is shown as 5. */
  lemma ShortCodeIs(n: int)
    requires 1 <= n <= MaxTier
    ensures NumberToTierShort(n) == [BandLetters[Band(n)], DigitChar(if Level(n) == 4 then 5 else Level(n))]
    ensures NumberToTierShortIntended(n) == [BandLetters[Band(n)], DigitChar(Level(n))]
  {
    LabelLetter(n);
    LevelTests(n);
    NumeralTests(TierNames[n], Level(n));
  }

  /** A short code is read back by the short-form branch of tier_to_number. */
  lemma ShortCodeReadBack(s: string, n: int)
    requires IsShortCodeOf(s, n)
    ensures TierToNumber(s) == Some(n)
  {
    ShortFormComplete(s, n);
  }

  /** As written, every tier except the IV ones gets its documented short code back. */
  lemma ShortCodeRoundTrip(n: int)
    requires 1 <= n <= MaxTier && Level(n) != 4
    ensures IsShortCodeOf(NumberToTierShort(n), n)
    ensures TierToNumber(NumberToTierShort(n)) == Some(n)
  {
    ShortCodeIs(n);
    assert UpperChar(BandLetters[Band(n)]) == BandLetters[Band(n)];
    ShortCodeReadBack(NumberToTierShort(n), n);
  }

  /** The code of an IV tier with digit 5 is the short code of the V tier below it. */
  lemma FourCodeIsBelow(n: int)
    requires 1 <= n <= MaxTier && Level(n) == 4
    ensures IsShortCodeOf([BandLetters[Band(n)], '5'], n - 1)
  {
    var b := Band(n);
    assert n - 1 == 5 * b + 1;
    assert Band(n - 1) == b && Level(n - 1) == 5;
    assert UpperChar(BandLetters[b]) == BandLetters[b];
    assert DigitChar(5) == '5';
  }

  /** As written, an IV tier gets digit 5, the code of the tier one below it. */
  lemma ShortCodeOfFourIsFive(n: int)
    requires 1 <= n <= MaxTier && Level(n) == 4
    ensures NumberToTierShort(n) == [BandLetters[Band(n)], '5']
    ensures TierToNumber(NumberToTierShort(n)) == Some(n - 1)
  {
    ShortCodeIs(n);
    FourCodeIsBelow(n);
    ShortCodeReadBack([BandLetters[Band(n)], '5'], n - 1);
  }

  /** Bronze IV (tier 2) is shown as "B5". */
  lemma BronzeFourShownAsFive()
    ensures NumberToTierShort(2) == "B5"
    ensures TierToNumber(NumberToTierShort(2)) == Some(1)
  {
    ShortCodeOfFourIsFive(2);
  }

  /** With the tests in the documented order the short code round-trips for every rated tier. */
  lemma IntendedShortCodeRoundTrip(n: int)
    requires 1 <= n <= MaxTier
    ensures IsShortCodeOf(NumberToTierShortIntended(n), n)
    ensures TierToNumber(NumberToTierShortIntended(n)) == Some(n)
  {
    ShortCodeIs(n);
    assert UpperChar(BandLetters[Band(n)]) == BandLetters[Band(n)];
    ShortCodeReadBack(NumberToTierShortIntended(n), n);
  }

  /** Tier 0 is "Unrated" and numbers outside 0..30 are "Unknown", in both short forms. */
  lemma ShortCodeOutsideRated(n: int)
    requires !(1 <= n <= MaxTier)
    ensures NumberToTierShort(n) == NumberToTierShortIntended(n)
    ensures NumberToTierShort(n) == if n == 0 then "Unrated" else UnknownTier
    ensures TierToNumber(NumberToTierShort(n)) == if n == 0 then Some(0) else None
  {
    NumberToTierRoundTrip(n);
  }
}
