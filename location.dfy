/**
 * The location rule: `re.search(r'\b(hyderabad|chennai|...|ahmedabad)\b',
 * text, re.IGNORECASE)`, and on a match `match.group(0).title()`; the field
 * is "" when nothing matches.
 *
 * Python tries start positions from left to right; at each one it checks
 * `\b`, then the alternatives in list order, each followed by `\b`, and takes
 * the first that succeeds. The matched text is a city name in some mix of
 * cases, and `.title()` turns it into the capitalised name.
 */
module Location {
  import opened Text

  /** `indian_cities`, in the order the alternation tries them. */
  const Cities: seq<string> :=
    ["hyderabad", "chennai", "bangalore", "pune", "mumbai", "delhi",
     "gurgaon", "noida", "kolkata", "ahmedabad"]

  /** The values the field can take besides "": each city, title-cased. */
  const CityNames: seq<string> :=
    ["Hyderabad", "Chennai", "Bangalore", "Pune", "Mumbai", "Delhi",
     "Gurgaon", "Noida", "Kolkata", "Ahmedabad"]

  /** `\b` at `i`: a word character on exactly one side. */
  predicate IsBoundary(s: string, i: nat)
    requires i <= |s|
  {
    (0 < i && IsWordChar(s[i - 1])) != (i < |s| && IsWordChar(s[i]))
  }

  /** `\b<city c>\b` matches at `i`, case ignored. */
  predicate CityMatchAt(s: string, i: nat, c: nat) {
    && c < |Cities|
    && i + |Cities[c]| <= |s|
    && IsBoundary(s, i)
    && LitAt(s, i, Cities[c])
    && IsBoundary(s, i + |Cities[c]|)
  }

  /** The cities that match at `i`. */
  function CitiesAt(s: string, i: nat): nat -> bool
  {
    (c: nat) => CityMatchAt(s, i, c)
  }

  /** The alternation at `i`: the first city in list order that matches
      there, or `|Cities|`. */
  function CityAt(s: string, i: nat): (c: nat)
    ensures c <= |Cities|
    ensures c < |Cities| ==> i + |Cities[c]| <= |s|
  {
    FirstIndex(CitiesAt(s, i), 0, |Cities|)
  }

  /** The text the alternation matches at `i`. */
  function MatchedText(s: string, i: nat): (m: string)
    requires CityAt(s, i) < |Cities|
    ensures |m| == |Cities[CityAt(s, i)]|
  {
    s[i..i + |Cities[CityAt(s, i)]|]
  }

  /** The city the alternation finds does match there. */
  lemma CityAtMatches(s: string, i: nat)
    ensures CityAt(s, i) < |Cities| ==> CityMatchAt(s, i, CityAt(s, i))
  {
    assert CityAt(s, i) < |Cities| ==> CitiesAt(s, i)(CityAt(s, i));
  }

  /** The start positions where some city matches. */
  function StartsCity(s: string): nat -> bool
  {
    (i: nat) => CityAt(s, i) < |Cities|
  }

  /** The scan of `re.search`: the first start position where a city
      matches, or `|s| + 1`. */
  function FindCity(s: string): (i: nat)
    ensures i <= |s| + 1
    ensures i <= |s| ==> CityAt(s, i) < |Cities|
  {
    FirstIndex(StartsCity(s), 0, |s| + 1)
  }

  /** The location field of a resume. */
  function LocationOf(text: string): string
  {
    var i := FindCity(text);
    if i <= |text| then Title(MatchedText(text, i)) else ""
  }

  /** Each name in `CityNames` is its city with the first letter upper-cased. */
  lemma CityNamesCapitalise(c: nat)
    requires c < |Cities|
    ensures |Cities[c]| > 0 && CityNames[c] == [ToUpper(Cities[c][0])] + Cities[c][1..]
  {
    if c < 5 {
      FirstCityNamesCapitalise(c);
    } else {
      LastCityNamesCapitalise(c);
    }
  }

  lemma FirstCityNamesCapitalise(c: nat)
    requires c < 5
    ensures |Cities[c]| > 0 && CityNames[c] == [ToUpper(Cities[c][0])] + Cities[c][1..]
  {
    if c == 0 { assert CityNames[c] == [ToUpper(Cities[c][0])] + Cities[c][1..]; }
    else if c == 1 { assert CityNames[c] == [ToUpper(Cities[c][0])] + Cities[c][1..]; }
    else if c == 2 { assert CityNames[c] == [ToUpper(Cities[c][0])] + Cities[c][1..]; }
    else if c == 3 { assert CityNames[c] == [ToUpper(Cities[c][0])] + Cities[c][1..]; }
    else { assert CityNames[c] == [ToUpper(Cities[c][0])] + Cities[c][1..]; }
  }

  lemma LastCityNamesCapitalise(c: nat)
    requires 5 <= c < |Cities|
    ensures |Cities[c]| > 0 && CityNames[c] == [ToUpper(Cities[c][0])] + Cities[c][1..]
  {
    if c == 5 { assert CityNames[c] == [ToUpper(Cities[c][0])] + Cities[c][1..]; }
    else if c == 6 { assert CityNames[c] == [ToUpper(Cities[c][0])] + Cities[c][1..]; }
    else if c == 7 { assert CityNames[c] == [ToUpper(Cities[c][0])] + Cities[c][1..]; }
    else if c == 8 { assert CityNames[c] == [ToUpper(Cities[c][0])] + Cities[c][1..]; }
    else { assert CityNames[c] == [ToUpper(Cities[c][0])] + Cities[c][1..]; }
  }

  /** Every city is written in lower-case letters. */
  lemma CitiesAreLower(c: nat)
    requires c < |Cities|
    ensures forall k :: 0 <= k < |Cities[c]| ==> IsLower(Cities[c][k])
  {
  }

  /** Whatever mix of cases the text uses for a city, `.title()` of the
      matched text is that city's canonical name. */
  lemma TitleOfMatch(s: string, i: nat)
    requires CityAt(s, i) < |Cities|
    ensures Title(MatchedText(s, i)) == CityNames[CityAt(s, i)]
  {
    var c := CityAt(s, i);
    CityAtMatches(s, i);
    CitiesAreLower(c);
    CityNamesCapitalise(c);
    TitleOfLit(s, i, Cities[c]);
  }

  /** No city occurs as a whole word at a position before `i`. */
  ghost predicate NoCityBefore(text: string, i: nat) {
    forall b, d :: 0 <= b < i && 0 <= d < |Cities| ==> !CityMatchAt(text, b, d)
  }

  /** No city before `c` in list order occurs as a whole word at `i`. */
  ghost predicate NoEarlierCityAt(text: string, i: nat, c: nat) {
    forall d :: 0 <= d < c ==> !CityMatchAt(text, i, d)
  }

  /** The scan misses no position before the one it finds. */
  lemma FindCitySpec(text: string)
    ensures NoCityBefore(text, FindCity(text))
  {
    var i := FindCity(text);
    FirstIndexSpec(StartsCity(text), 0, |text| + 1);
    forall b, d | 0 <= b < i && 0 <= d < |Cities| ensures !CityMatchAt(text, b, d) {
      assert !StartsCity(text)(b);
      CityAtSpec(text, b);
    }
  }

  /** The alternation misses no city before the one it finds. */
  lemma CityAtSpec(text: string, i: nat)
    ensures NoEarlierCityAt(text, i, CityAt(text, i))
  {
    var p := CitiesAt(text, i);
    FirstIndexSpec(p, 0, |Cities|);
    forall d | 0 <= d < CityAt(text, i) ensures !CityMatchAt(text, i, d) {
      assert !p(d);
    }
  }

  /** The field in terms of the scan: the canonical name of the city found,
      or "" when the scan finds none. */
  lemma LocationOfScan(text: string)
    ensures FindCity(text) <= |text| ==> LocationOf(text) == CityNames[CityAt(text, FindCity(text))]
    ensures FindCity(text) > |text| ==> LocationOf(text) == ""
  {
    var i := FindCity(text);
    if i <= |text| {
      TitleOfMatch(text, i);
    }
  }

  /** The field is "" exactly when no city occurs as a whole word, case
      ignored. */
  lemma LocationOfEmpty(text: string)
    ensures LocationOf(text) == "" <==>
      forall i, c :: 0 <= i <= |text| && 0 <= c < |Cities| ==> !CityMatchAt(text, i, c)
  {
    var i := FindCity(text);
    LocationOfScan(text);
    FindCitySpec(text);
    if i <= |text| {
      CityAtMatches(text, i);
      CityNamesCapitalise(CityAt(text, i));
    }
  }

  /** Otherwise the field is the canonical name of the city Python reports:
      the one at the leftmost position where any city occurs as a whole
      word, and the first in list order among those that occur there. */
  lemma LocationOfMatch(text: string)
    ensures LocationOf(text) != "" ==>
      exists i: nat, c: nat ::
        && CityMatchAt(text, i, c)
        && LocationOf(text) == CityNames[c]
        && NoCityBefore(text, i)
        && NoEarlierCityAt(text, i, c)
  {
    var i := FindCity(text);
    LocationOfScan(text);
    if i <= |text| {
      FindCitySpec(text);
      CityAtSpec(text, i);
      CityAtMatches(text, i);
    }
  }

  /** The field is "" or one of the ten canonical city names. */
  lemma LocationIsCanonical(text: string)
    ensures LocationOf(text) == "" || LocationOf(text) in CityNames
  {
    var i := FindCity(text);
    LocationOfScan(text);
    if i <= |text| {
      var c := CityAt(text, i);
      assert LocationOf(text) == CityNames[c];
    }
  }

  // ---------------------------------------------------------------------
  // Concrete texts

  /** A listed city is found and title-cased. */
  lemma BangaloreIsFound()
    ensures LocationOf("Bangalore") == "Bangalore"
  {
    var s := "Bangalore";
    var p := CitiesAt(s, 0);
    assert !p(0) && !p(1) && p(2);
    assert FirstIndex(p, 2, |Cities|) == 2;
    assert FirstIndex(p, 0, |Cities|) == FirstIndex(p, 1, |Cities|) == 2;
    assert StartsCity(s)(0);
    assert FindCity(s) == 0;
    LocationOfScan(s);
  }

  /** Another spelling of a listed city is not recognised. */
  lemma BengaluruIsNotFound()
    ensures LocationOf("Bengaluru") == ""
  {
    var s := "Bengaluru";
    forall i, c | 0 <= i <= |s| && 0 <= c < |Cities| ensures !CityMatchAt(s, i, c) {
      if c == 2 && i == 0 {
        assert !LitAt(s, 1, Cities[2][1..]) by {
          assert ToLower(s[1]) != Cities[2][1];
        }
      }
    }
    LocationOfEmpty(s);
  }
}
