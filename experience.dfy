/**
 * The years-of-experience rule. Three patterns are tried in order with
 * `re.search(pattern, text, re.IGNORECASE)`; the first that matches gives
 * its group 1 (`match.group(1) if match.group(1) else "1"`), and when none
 * matches the field is "N/A":
 *
 *   YearsOfExperience  `(\d+)\+?\s*(years?|yrs?)\s*(of)?\s*(experience|exp)`
 *   ExperienceColon    `experience\s*:\s*(\d+)\s*(years?|yrs?)`
 *   YearRange          `(\d+)\s*-\s*(\d+)\s*years?\s*experience`
 *
 * No element of these patterns needs real backtracking. Each `\d+` has to
 * take its whole run of digits (a digit left over can match neither `\+`,
 * `\s`, `-` nor a letter), each `\s*` its whole run of whitespace (no literal
 * that follows is whitespace), and each optional `+`, `s` or `of` has to be
 * taken when present (what comes next cannot start with that character). So
 * a match at a start position exists exactly when the deterministic scan
 * below succeeds from there, and group 1 is the digit run it read.
 * `(experience|exp)` matches wherever `exp` does. `MatchAtSpec` proves this
 * against `PatternMatch`, which describes a match part by part.
 */
module Experience {
  import opened Text
  import opened Wrappers

  datatype ExpPattern = YearsOfExperience | ExperienceColon | YearRange

  /** `exp_patterns`, in the order the loop tries them. */
  const ExpPatterns: seq<ExpPattern> := [YearsOfExperience, ExperienceColon, YearRange]

  /** `(years?|yrs?)` at `p`: where it ends, taking the `s` when present. */
  function UnitEnd(s: string, p: nat): (r: Option<nat>)
    requires p <= |s|
    ensures r.Some? ==> p + 2 <= r.value <= |s|
  {
    if LitAt(s, p, "year") then Some(OptionalS(s, p + 4))
    else if LitAt(s, p, "yr") then Some(OptionalS(s, p + 2))
    else None
  }

  /** `s?` at `p`, case ignored. */
  function OptionalS(s: string, p: nat): (q: nat)
    requires p <= |s|
    ensures p <= q <= |s|
  {
    if LitAt(s, p, "s") then p + 1 else p
  }

  /** Group 1 of a match of `pat` that starts at `i`, if there is one. */
  function MatchAt(pat: ExpPattern, s: string, i: nat): (r: Option<string>)
    requires i <= |s|
    ensures r.Some? ==> r.value != [] && AllDigits(r.value)
  {
    match pat
    case YearsOfExperience => YearsOfExperienceAt(s, i)
    case ExperienceColon => ExperienceColonAt(s, i)
    case YearRange => YearRangeAt(s, i)
  }

  /** `(\d+)` read from a digit at `d`: the whole run of digits there. */
  function DigitGroup(s: string, d: nat): (g: string)
    requires d < |s| && IsDigit(s[d])
    ensures g != [] && AllDigits(g)
  {
    RunEndSpec(s, d, IsDigit);
    s[d..DigitsEnd(s, d)]
  }

  /** `(\d+)\+?\s*(years?|yrs?)\s*(of)?\s*(experience|exp)` at `i` */
  function YearsOfExperienceAt(s: string, i: nat): (r: Option<string>)
    requires i <= |s|
    ensures r.Some? ==> r.value != [] && AllDigits(r.value)
  {
    if i < |s| && IsDigit(s[i]) && UnitThenExp(s, SkipSpaces(s, OptionalPlus(s, DigitsEnd(s, i))))
    then Some(DigitGroup(s, i))
    else None
  }

  /** `\+?` at `j` */
  function OptionalPlus(s: string, j: nat): (a: nat)
    requires j <= |s|
    ensures j <= a <= |s|
  {
    if j < |s| && s[j] == '+' then j + 1 else j
  }

  /** `(years?|yrs?)\s*(of)?\s*(experience|exp)` at `b` */
  predicate UnitThenExp(s: string, b: nat)
    requires b <= |s|
  {
    match UnitEnd(s, b)
    case None => false
    case Some(c) => OfExpAt(s, SkipSpaces(s, c))
  }

  /** `(of)?\s*(experience|exp)` at `d` */
  predicate OfExpAt(s: string, d: nat)
    requires d <= |s|
  {
    LitAt(s, SkipSpaces(s, if LitAt(s, d, "of") then d + 2 else d), "exp")
  }

  /** `experience\s*:\s*(\d+)\s*(years?|yrs?)` at `i` */
  function ExperienceColonAt(s: string, i: nat): (r: Option<string>)
    requires i <= |s|
    ensures r.Some? ==> r.value != [] && AllDigits(r.value)
  {
    if LitAt(s, i, "experience") then ColonDigitsUnitAt(s, SkipSpaces(s, i + 10)) else None
  }

  /** `:\s*(\d+)\s*(years?|yrs?)` at `p`, giving group 1 */
  function ColonDigitsUnitAt(s: string, p: nat): (r: Option<string>)
    requires p <= |s|
  {
    if p < |s| && s[p] == ':' then DigitsUnitAt(s, SkipSpaces(s, p + 1)) else None
  }

  /** `(\d+)\s*(years?|yrs?)` at `d`, giving group 1 */
  function DigitsUnitAt(s: string, d: nat): (r: Option<string>)
    requires d <= |s|
  {
    if d < |s| && IsDigit(s[d]) && UnitEnd(s, SkipSpaces(s, DigitsEnd(s, d))).Some?
    then Some(DigitGroup(s, d))
    else None
  }

  /** `(\d+)\s*-\s*(\d+)\s*years?\s*experience` at `i` */
  function YearRangeAt(s: string, i: nat): (r: Option<string>)
    requires i <= |s|
    ensures r.Some? ==> r.value != [] && AllDigits(r.value)
  {
    if i < |s| && IsDigit(s[i]) && DashDigitsAt(s, SkipSpaces(s, DigitsEnd(s, i)))
    then Some(DigitGroup(s, i))
    else None
  }

  /** `-\s*(\d+)\s*years?\s*experience` at `p` */
  predicate DashDigitsAt(s: string, p: nat)
    requires p <= |s|
  {
    p < |s| && s[p] == '-' && DigitsYearsAt(s, SkipSpaces(s, p + 1))
  }

  /** `(\d+)\s*years?\s*experience` at `d` */
  predicate DigitsYearsAt(s: string, d: nat)
    requires d <= |s|
  {
    d < |s| && IsDigit(s[d]) && YearsExperienceAt(s, SkipSpaces(s, DigitsEnd(s, d)))
  }

  /** `years?\s*experience` at `q` */
  predicate YearsExperienceAt(s: string, q: nat)
    requires q <= |s|
  {
    LitAt(s, q, "year") && LitAt(s, SkipSpaces(s, OptionalS(s, q + 4)), "experience")
  }

  // ---------------------------------------------------------------------
  // The patterns as descriptions of the text they match

  /** `s[i..j]` is a run of characters that satisfy `p`: either it is
      empty, or `s[i]` satisfies `p` and `s[i + 1..j]` is such a run. */
  ghost predicate Run(s: string, i: nat, j: nat, p: char -> bool)
    decreases j - i
  {
    i <= j <= |s| && (i < j ==> p(s[i]) && Run(s, i + 1, j, p))
  }

  /** A run is a stretch of `s` whose every character satisfies `p`. */
  lemma {:induction false} RunSpec(s: string, i: nat, j: nat, p: char -> bool)
    ensures Run(s, i, j, p) <==> i <= j <= |s| && forall k :: i <= k < j ==> p(s[k])
    decreases j - i
  {
    if i < j <= |s| {
      RunSpec(s, i + 1, j, p);
      if forall k :: i <= k < j ==> p(s[k]) {
        assert forall k :: i + 1 <= k < j ==> p(s[k]);
      }
    }
  }

  /** The greedy scan of `p` from `i` reads a run, and stops at the end of
      `s` or at a character that fails `p`. */
  lemma {:induction false} RunOfRunEnd(s: string, i: nat, p: char -> bool)
    requires i <= |s|
    ensures Run(s, i, RunEnd(s, i, p), p)
    ensures RunEnd(s, i, p) == |s| || !p(s[RunEnd(s, i, p)])
    decreases |s| - i
  {
    if i < |s| && p(s[i]) {
      RunOfRunEnd(s, i + 1, p);
    }
  }

  /** A run followed by the end of `s` or by a character that fails `p` is
      exactly what the greedy scan reads. */
  lemma {:induction false} RunEndOfRun(s: string, i: nat, j: nat, p: char -> bool)
    requires Run(s, i, j, p) && (j == |s| || !p(s[j]))
    ensures RunEnd(s, i, p) == j
    decreases j - i
  {
    if i < j {
      RunEndOfRun(s, i + 1, j, p);
    }
  }

  /** Two adjacent runs make one. */
  lemma {:induction false} RunJoin(s: string, i: nat, j: nat, k: nat, p: char -> bool)
    requires Run(s, i, j, p) && Run(s, j, k, p)
    ensures Run(s, i, k, p)
    decreases j - i
  {
    if i < j {
      RunJoin(s, i + 1, j, k, p);
    }
  }

  /** `(years?|yrs?)` matches `s[b..c]`, case ignored. */
  ghost predicate UnitMatch(s: string, b: nat, c: nat) {
    || (LitAt(s, b, "year") && (c == b + 4 || (c == b + 5 && LitAt(s, b + 4, "s"))))
    || (LitAt(s, b, "yr") && (c == b + 2 || (c == b + 3 && LitAt(s, b + 2, "s"))))
  }

  /** `(\d+)\+?\s*(years?|yrs?)\s*(of)?\s*(experience|exp)` matches `s[i..k]`
      in these parts: the digits `s[i..j]` (group 1), an optional `+` up to
      `a`, whitespace up to `b`, the unit up to `c`, whitespace up to `d`, an
      optional `of` up to `e`, whitespace up to `f`, and `exp` or
      `experience` from `f` to `k`. */
  ghost predicate YearsOfExperienceParts(s: string, i: nat, j: nat, a: nat, b: nat, c: nat, d: nat, e: nat, f: nat, k: nat) {
    && i < j && Run(s, i, j, IsDigit)
    && (a == j || (a == j + 1 && j < |s| && s[j] == '+'))
    && Run(s, a, b, IsSpace)
    && UnitMatch(s, b, c)
    && Run(s, c, d, IsSpace)
    && (e == d || (e == d + 2 && LitAt(s, d, "of")))
    && Run(s, e, f, IsSpace)
    && LitAt(s, f, "exp")
    && (k == f + 3 || (k == f + 10 && LitAt(s, f, "experience")))
  }

  /** `experience\s*:\s*(\d+)\s*(years?|yrs?)` matches `s[i..k]` in these
      parts: `experience`, whitespace up to `p`, `:` at `p`, whitespace up to
      `d`, the digits `s[d..j]` (group 1), whitespace up to `m`, and the unit
      from `m` to `k`. */
  ghost predicate ExperienceColonParts(s: string, i: nat, p: nat, d: nat, j: nat, m: nat, k: nat) {
    && LitAt(s, i, "experience")
    && Run(s, i + 10, p, IsSpace)
    && p < |s| && s[p] == ':'
    && Run(s, p + 1, d, IsSpace)
    && d < j && Run(s, d, j, IsDigit)
    && Run(s, j, m, IsSpace)
    && UnitMatch(s, m, k)
  }

  /** `(\d+)\s*-\s*(\d+)\s*years?\s*experience` matches `s[i..k]` in these
      parts: the digits `s[i..j]` (group 1), whitespace up to `p`, `-` at
      `p`, whitespace up to `d`, the digits `s[d..e]`, whitespace up to `q`,
      `year` and an optional `s` up to `u`, whitespace up to `t`, and
      `experience` from `t` to `k`. */
  ghost predicate YearRangeParts(s: string, i: nat, j: nat, p: nat, d: nat, e: nat, q: nat, u: nat, t: nat, k: nat) {
    && i < j && Run(s, i, j, IsDigit)
    && Run(s, j, p, IsSpace)
    && p < |s| && s[p] == '-'
    && Run(s, p + 1, d, IsSpace)
    && d < e && Run(s, d, e, IsDigit)
    && Run(s, e, q, IsSpace)
    && LitAt(s, q, "year")
    && (u == q + 4 || (u == q + 5 && LitAt(s, q + 4, "s")))
    && Run(s, u, t, IsSpace)
    && LitAt(s, t, "experience")
    && k == t + 10
  }

  /** Where the parts of a match of the first pattern end, in the order
      of `YearsOfExperienceParts`. */
  datatype YearsOfExperienceEnds = YearsOfExperienceEnds(j: nat, a: nat, b: nat, c: nat, d: nat, e: nat, f: nat)

  /** Where the parts of a match of the second pattern end, in the order
      of `ExperienceColonParts`. */
  datatype ExperienceColonEnds = ExperienceColonEnds(p: nat, d: nat, j: nat, m: nat)

  /** Where the parts of a match of the third pattern end, in the order of
      `YearRangeParts`. */
  datatype YearRangeEnds = YearRangeEnds(j: nat, p: nat, d: nat, e: nat, q: nat, u: nat, t: nat)

  /** `pat` matches `s[i..k]` with group 1 equal to `g`. */
  ghost predicate PatternMatch(pat: ExpPattern, s: string, i: nat, k: nat, g: string) {
    match pat
    case YearsOfExperience =>
      exists x: YearsOfExperienceEnds ::
        YearsOfExperienceParts(s, i, x.j, x.a, x.b, x.c, x.d, x.e, x.f, k) && g == s[i..x.j]
    case ExperienceColon =>
      exists x: ExperienceColonEnds ::
        ExperienceColonParts(s, i, x.p, x.d, x.j, x.m, k) && g == s[x.d..x.j]
    case YearRange =>
      exists x: YearRangeEnds ::
        YearRangeParts(s, i, x.j, x.p, x.d, x.e, x.q, x.u, x.t, k) && g == s[i..x.j]
  }

  /** A unit starts with a letter, and the scan finds one there. */
  lemma UnitFacts(s: string, b: nat, c: nat)
    requires UnitMatch(s, b, c)
    ensures b < |s| && IsLetter(s[b]) && UnitEnd(s, b).Some?
  {
  }

  /** `yr` and `year` differ in their second letter. */
  lemma YrIsNotYear(s: string, b: nat)
    requires LitAt(s, b, "yr")
    ensures !LitAt(s, b, "year")
  {
    LitAtSpec(s, b, "yr");
    LitAtSpec(s, b, "year");
    assert ToLower(s[b + 1]) == 'r';
  }

  /** The scan takes the `s` of the unit exactly when the match does,
      provided no `s` follows the match (the rest of each pattern that comes
      after a unit cannot start with `s`). */
  lemma UnitComplete(s: string, b: nat, c: nat)
    requires UnitMatch(s, b, c) && !LitAt(s, c, "s")
    ensures UnitEnd(s, b) == Some(c)
  {
    if LitAt(s, b, "yr") {
      YrIsNotYear(s, b);
    }
  }

  /** What the scan reads as a unit is a unit. */
  lemma UnitSound(s: string, b: nat)
    requires b <= |s| && UnitEnd(s, b).Some?
    ensures UnitMatch(s, b, UnitEnd(s, b).value)
  {
  }

  /** A run of whitespace followed by a letter is what `\s*` skips. */
  lemma SkipToLetter(s: string, a: nat, b: nat)
    requires Run(s, a, b, IsSpace) && b < |s| && IsLetter(s[b])
    ensures SkipSpaces(s, a) == b
  {
    RunEndOfRun(s, a, b, IsSpace);
  }

  /** `\s*(of)?\s*(experience|exp)` after a unit ending at `c`: it does not
      start with `s`, and the scan gets past it. */
  lemma OfExpComplete(s: string, c: nat, d: nat, e: nat, f: nat)
    requires Run(s, c, d, IsSpace)
    requires e == d || (e == d + 2 && LitAt(s, d, "of"))
    requires Run(s, e, f, IsSpace)
    requires LitAt(s, f, "exp")
    ensures !LitAt(s, c, "s")
    ensures OfExpAt(s, SkipSpaces(s, c))
  {
    assert IsLetter(s[f]);
    SkipToLetter(s, e, f);
    if e == d + 2 {
      assert IsLetter(s[d]);
      SkipToLetter(s, c, d);
    } else {
      RunJoin(s, c, d, f, IsSpace);
      SkipToLetter(s, c, f);
      RunEndOfRun(s, f, f, IsSpace);
    }
  }

  /** `(\d+)\+?\s*` at `i`, matched as `s[i..j]`, an optional `+` up to `a`
      and whitespace up to a letter at `b`: the scan reads the same. */
  lemma DigitsPlusComplete(s: string, i: nat, j: nat, a: nat, b: nat)
    requires i < j && Run(s, i, j, IsDigit)
    requires a == j || (a == j + 1 && j < |s| && s[j] == '+')
    requires Run(s, a, b, IsSpace) && b < |s| && IsLetter(s[b])
    ensures i < |s| && IsDigit(s[i]) && DigitsEnd(s, i) == j
    ensures SkipSpaces(s, OptionalPlus(s, j)) == b
  {
    assert a < b ==> IsSpace(s[a]);
    RunEndOfRun(s, i, j, IsDigit);
    SkipToLetter(s, a, b);
  }

  /** Every match of the first pattern is one the scan reports, with the
      same group 1. */
  lemma YearsOfExperienceComplete(s: string, i: nat, j: nat, a: nat, b: nat, c: nat, d: nat, e: nat, f: nat, k: nat)
    requires YearsOfExperienceParts(s, i, j, a, b, c, d, e, f, k)
    ensures YearsOfExperienceAt(s, i) == Some(s[i..j])
  {
    UnitFacts(s, b, c);
    DigitsPlusComplete(s, i, j, a, b);
    OfExpComplete(s, c, d, e, f);
    UnitComplete(s, b, c);
  }

  /** The parts of a match of the first pattern make one. */
  lemma YearsOfExperienceIntro(s: string, i: nat, j: nat, a: nat, b: nat, c: nat, d: nat, e: nat, f: nat, k: nat)
    requires i < j && Run(s, i, j, IsDigit)
    requires a == j || (a == j + 1 && j < |s| && s[j] == '+')
    requires Run(s, a, b, IsSpace) && UnitMatch(s, b, c) && Run(s, c, d, IsSpace)
    requires e == d || (e == d + 2 && LitAt(s, d, "of"))
    requires Run(s, e, f, IsSpace) && LitAt(s, f, "exp")
    requires k == f + 3 || (k == f + 10 && LitAt(s, f, "experience"))
    ensures PatternMatch(YearsOfExperience, s, i, k, s[i..j])
  {
    var x := YearsOfExperienceEnds(j, a, b, c, d, e, f);
    assert YearsOfExperienceParts(s, i, x.j, x.a, x.b, x.c, x.d, x.e, x.f, k);
  }

  /** What the scan reads after the number, for the first pattern, is the
      rest of a match. */
  lemma UnitThenExpSound(s: string, b: nat)
    requires b <= |s| && UnitThenExp(s, b)
    ensures var c := UnitEnd(s, b).value;
      var d := SkipSpaces(s, c);
      var e := if LitAt(s, d, "of") then d + 2 else d;
      var f := SkipSpaces(s, e);
      && UnitMatch(s, b, c) && Run(s, c, d, IsSpace)
      && Run(s, e, f, IsSpace) && LitAt(s, f, "exp")
  {
    UnitSound(s, b);
    var c := UnitEnd(s, b).value;
    var d := SkipSpaces(s, c);
    RunOfRunEnd(s, c, IsSpace);
    var e := if LitAt(s, d, "of") then d + 2 else d;
    RunOfRunEnd(s, e, IsSpace);
  }

  /** The scan's reading of the first pattern from a digit at `i` is a
      match. */
  lemma YearsOfExperienceSoundFrom(s: string, i: nat)
    requires i < |s| && IsDigit(s[i])
    requires UnitThenExp(s, SkipSpaces(s, OptionalPlus(s, DigitsEnd(s, i))))
    ensures exists k: nat :: PatternMatch(YearsOfExperience, s, i, k, s[i..DigitsEnd(s, i)])
  {
    var j := DigitsEnd(s, i);
    var a := OptionalPlus(s, j);
    var b := SkipSpaces(s, a);
    RunOfRunEnd(s, i, IsDigit);
    RunOfRunEnd(s, a, IsSpace);
    UnitThenExpSound(s, b);
    var c := UnitEnd(s, b).value;
    var d := SkipSpaces(s, c);
    var e := if LitAt(s, d, "of") then d + 2 else d;
    var f := SkipSpaces(s, e);
    var k := if LitAt(s, f, "experience") then f + 10 else f + 3;
    YearsOfExperienceIntro(s, i, j, a, b, c, d, e, f, k);
  }

  /** What the scan reports for the first pattern is a match of it. */
  lemma YearsOfExperienceSound(s: string, i: nat)
    requires i <= |s| && YearsOfExperienceAt(s, i).Some?
    ensures exists k: nat :: PatternMatch(YearsOfExperience, s, i, k, YearsOfExperienceAt(s, i).value)
  {
    YearsOfExperienceSoundFrom(s, i);
  }

  /** A match of the second pattern fixes every position the scan
      computes. */
  lemma ExperienceColonSteps(s: string, i: nat, p: nat, d: nat, j: nat, m: nat, k: nat)
    requires ExperienceColonParts(s, i, p, d, j, m, k)
    ensures SkipSpaces(s, i + 10) == p && SkipSpaces(s, p + 1) == d
    ensures DigitsEnd(s, d) == j && UnitEnd(s, SkipSpaces(s, j)).Some?
  {
    var a := i + 10;
    RunEndOfRun(s, a, p, IsSpace);
    var b := p + 1;
    RunEndOfRun(s, b, d, IsSpace);
    assert j < m ==> IsSpace(s[j]);
    UnitFacts(s, m, k);
    RunEndOfRun(s, d, j, IsDigit);
    SkipToLetter(s, j, m);
  }

  /** The scan of the second pattern succeeds through those positions. */
  lemma ExperienceColonAtIs(s: string, i: nat, p: nat, d: nat, j: nat)
    requires i <= |s| && LitAt(s, i, "experience")
    requires SkipSpaces(s, i + 10) == p && p < |s| && s[p] == ':'
    requires SkipSpaces(s, p + 1) == d && d < |s| && IsDigit(s[d])
    requires DigitsEnd(s, d) == j && UnitEnd(s, SkipSpaces(s, j)).Some?
    ensures ExperienceColonAt(s, i) == Some(s[d..j])
  {
  }

  /** Every match of the second pattern is one the scan reports, with the
      same group 1. */
  lemma ExperienceColonComplete(s: string, i: nat, p: nat, d: nat, j: nat, m: nat, k: nat)
    requires ExperienceColonParts(s, i, p, d, j, m, k)
    ensures ExperienceColonAt(s, i) == Some(s[d..j])
  {
    ExperienceColonSteps(s, i, p, d, j, m, k);
    ExperienceColonAtIs(s, i, p, d, j);
  }

  /** The parts of a match of the second pattern make one. */
  lemma ExperienceColonIntro(s: string, i: nat, p: nat, d: nat, j: nat, m: nat, k: nat)
    requires LitAt(s, i, "experience") && Run(s, i + 10, p, IsSpace)
    requires p < |s| && s[p] == ':' && Run(s, p + 1, d, IsSpace)
    requires d < j && Run(s, d, j, IsDigit) && Run(s, j, m, IsSpace)
    requires UnitMatch(s, m, k)
    ensures PatternMatch(ExperienceColon, s, i, k, s[d..j])
  {
    var x := ExperienceColonEnds(p, d, j, m);
    assert ExperienceColonParts(s, i, x.p, x.d, x.j, x.m, k);
  }

  /** What the scan reads from a digit at `d`, for the second pattern, is
      the rest of a match. */
  lemma DigitsUnitSound(s: string, d: nat)
    requires d <= |s| && DigitsUnitAt(s, d).Some?
    ensures var j := DigitsEnd(s, d);
      var m := SkipSpaces(s, j);
      && d < j && Run(s, d, j, IsDigit) && Run(s, j, m, IsSpace)
      && UnitMatch(s, m, UnitEnd(s, m).value)
      && DigitsUnitAt(s, d) == Some(s[d..j])
  {
    RunOfRunEnd(s, d, IsDigit);
    var j := DigitsEnd(s, d);
    RunOfRunEnd(s, j, IsSpace);
    var m := SkipSpaces(s, j);
    UnitSound(s, m);
  }

  /** The scan's reading of the second pattern after `experience` is a
      match. */
  lemma ExperienceColonSoundFrom(s: string, i: nat, p: nat)
    requires i + 10 <= |s| && LitAt(s, i, "experience")
    requires p == SkipSpaces(s, i + 10) && ColonDigitsUnitAt(s, p).Some?
    ensures exists k: nat :: PatternMatch(ExperienceColon, s, i, k, ColonDigitsUnitAt(s, p).value)
  {
    var d := SkipSpaces(s, p + 1);
    var a := i + 10;
    RunOfRunEnd(s, a, IsSpace);
    var b := p + 1;
    RunOfRunEnd(s, b, IsSpace);
    DigitsUnitSound(s, d);
    var j := DigitsEnd(s, d);
    var m := SkipSpaces(s, j);
    var k := UnitEnd(s, m).value;
    ExperienceColonIntro(s, i, p, d, j, m, k);
  }

  /** What the scan reports for the second pattern is a match of it. */
  lemma ExperienceColonSound(s: string, i: nat)
    requires i <= |s| && ExperienceColonAt(s, i).Some?
    ensures exists k: nat :: PatternMatch(ExperienceColon, s, i, k, ExperienceColonAt(s, i).value)
  {
    var p := SkipSpaces(s, i + 10);
    ExperienceColonSoundFrom(s, i, p);
  }

  /** `(\d+)\s*-\s*(\d+)\s*` at `i` in those parts, followed by a letter at
      `q`: the scan reads the same. */
  lemma RangeComplete(s: string, i: nat, j: nat, p: nat, d: nat, e: nat, q: nat)
    requires i < j && Run(s, i, j, IsDigit)
    requires Run(s, j, p, IsSpace)
    requires p < |s| && s[p] == '-'
    requires Run(s, p + 1, d, IsSpace)
    requires d < e && Run(s, d, e, IsDigit)
    requires Run(s, e, q, IsSpace) && q < |s| && IsLetter(s[q])
    ensures i < |s| && IsDigit(s[i]) && DigitsEnd(s, i) == j && SkipSpaces(s, j) == p
    ensures SkipSpaces(s, p + 1) == d && d < |s| && IsDigit(s[d])
    ensures SkipSpaces(s, DigitsEnd(s, d)) == q
  {
    assert j < p ==> IsSpace(s[j]);
    RunEndOfRun(s, i, j, IsDigit);
    RunEndOfRun(s, j, p, IsSpace);
    var b := p + 1;
    RunEndOfRun(s, b, d, IsSpace);
    assert e < q ==> IsSpace(s[e]);
    RunEndOfRun(s, d, e, IsDigit);
    SkipToLetter(s, e, q);
  }

  /** A word that does not start with `s`, after whitespace, leaves no `s`
      where the whitespace starts. */
  lemma NoSBefore(s: string, u: nat, t: nat, w: string)
    requires Run(s, u, t, IsSpace) && LitAt(s, t, w) && w != [] && w[0] != 's'
    ensures !LitAt(s, u, "s")
  {
    if u < t {
      assert IsSpace(s[u]);
    }
  }

  /** `years?\s*experience` matched at `q` as the third pattern's parts say
      is what the scan reads there. */
  lemma YearsExperienceComplete(s: string, q: nat, u: nat, t: nat)
    requires LitAt(s, q, "year")
    requires u == q + 4 || (u == q + 5 && LitAt(s, q + 4, "s"))
    requires Run(s, u, t, IsSpace) && LitAt(s, t, "experience")
    ensures q <= |s| && YearsExperienceAt(s, q)
  {
    if u == q + 4 {
      NoSBefore(s, u, t, "experience");
    }
    assert OptionalS(s, q + 4) == u;
    assert IsLetter(s[t]);
    SkipToLetter(s, u, t);
  }

  /** Every match of the third pattern is one the scan reports, with the
      same group 1. */
  lemma YearRangeComplete(s: string, i: nat, j: nat, p: nat, d: nat, e: nat, q: nat, u: nat, t: nat, k: nat)
    requires YearRangeParts(s, i, j, p, d, e, q, u, t, k)
    ensures YearRangeAt(s, i) == Some(s[i..j])
  {
    assert IsLetter(s[q]);
    RangeComplete(s, i, j, p, d, e, q);
    YearsExperienceComplete(s, q, u, t);
    YearRangeAtIs(s, i, j, p, d, q);
  }

  /** The scan of the third pattern succeeds through those positions. */
  lemma YearRangeAtIs(s: string, i: nat, j: nat, p: nat, d: nat, q: nat)
    requires i < |s| && IsDigit(s[i]) && DigitsEnd(s, i) == j && SkipSpaces(s, j) == p
    requires p < |s| && s[p] == '-' && SkipSpaces(s, p + 1) == d && d < |s| && IsDigit(s[d])
    requires SkipSpaces(s, DigitsEnd(s, d)) == q && YearsExperienceAt(s, q)
    ensures YearRangeAt(s, i) == Some(s[i..j])
  {
  }

  /** The parts of a match of the third pattern make one. */
  lemma YearRangeIntro(s: string, i: nat, j: nat, p: nat, d: nat, e: nat, q: nat, u: nat, t: nat)
    requires i < j && Run(s, i, j, IsDigit) && Run(s, j, p, IsSpace)
    requires p < |s| && s[p] == '-' && Run(s, p + 1, d, IsSpace)
    requires d < e && Run(s, d, e, IsDigit) && Run(s, e, q, IsSpace)
    requires LitAt(s, q, "year") && (u == q + 4 || (u == q + 5 && LitAt(s, q + 4, "s")))
    requires Run(s, u, t, IsSpace) && LitAt(s, t, "experience")
    ensures PatternMatch(YearRange, s, i, t + 10, s[i..j])
  {
    var x := YearRangeEnds(j, p, d, e, q, u, t);
    assert YearRangeParts(s, i, x.j, x.p, x.d, x.e, x.q, x.u, x.t, t + 10);
  }

  /** What the scan reads from a digit at `d`, for the third pattern, is
      the rest of a match. */
  lemma DigitsYearsSound(s: string, d: nat)
    requires d <= |s| && DigitsYearsAt(s, d)
    ensures var e := DigitsEnd(s, d);
      var q := SkipSpaces(s, e);
      var u := OptionalS(s, q + 4);
      && d < e && Run(s, d, e, IsDigit) && Run(s, e, q, IsSpace)
      && LitAt(s, q, "year") && (u == q + 4 || (u == q + 5 && LitAt(s, q + 4, "s")))
      && Run(s, u, SkipSpaces(s, u), IsSpace) && LitAt(s, SkipSpaces(s, u), "experience")
  {
    var e := DigitsEnd(s, d);
    var q := SkipSpaces(s, e);
    RunOfRunEnd(s, d, IsDigit);
    RunOfRunEnd(s, e, IsSpace);
    var u := OptionalS(s, q + 4);
    RunOfRunEnd(s, u, IsSpace);
  }

  /** The scan's reading of the third pattern from a digit at `i` is a
      match. */
  lemma YearRangeSoundFrom(s: string, i: nat)
    requires i < |s| && IsDigit(s[i]) && DashDigitsAt(s, SkipSpaces(s, DigitsEnd(s, i)))
    ensures exists k: nat :: PatternMatch(YearRange, s, i, k, s[i..DigitsEnd(s, i)])
  {
    var j := DigitsEnd(s, i);
    var p := SkipSpaces(s, j);
    var d := SkipSpaces(s, p + 1);
    RunOfRunEnd(s, i, IsDigit);
    RunOfRunEnd(s, j, IsSpace);
    var b := p + 1;
    RunOfRunEnd(s, b, IsSpace);
    DigitsYearsSound(s, d);
    var e := DigitsEnd(s, d);
    var q := SkipSpaces(s, e);
    var u := OptionalS(s, q + 4);
    var t := SkipSpaces(s, u);
    YearRangeIntro(s, i, j, p, d, e, q, u, t);
  }

  /** What the scan reports for the third pattern is a match of it. */
  lemma YearRangeSound(s: string, i: nat)
    requires i <= |s| && YearRangeAt(s, i).Some?
    ensures exists k: nat :: PatternMatch(YearRange, s, i, k, YearRangeAt(s, i).value)
  {
    YearRangeSoundFrom(s, i);
  }

  /** The first pattern matches at `i` with group `g` exactly when the scan
      reports `g` there. */
  lemma YearsOfExperienceSpec(s: string, i: nat)
    requires i <= |s|
    ensures YearsOfExperienceAt(s, i).Some? ==>
      exists k: nat :: PatternMatch(YearsOfExperience, s, i, k, YearsOfExperienceAt(s, i).value)
    ensures forall k: nat, g :: PatternMatch(YearsOfExperience, s, i, k, g) ==> YearsOfExperienceAt(s, i) == Some(g)
  {
    if YearsOfExperienceAt(s, i).Some? {
      YearsOfExperienceSound(s, i);
    }
    forall k: nat, g | PatternMatch(YearsOfExperience, s, i, k, g) ensures YearsOfExperienceAt(s, i) == Some(g) {
      var x: YearsOfExperienceEnds :|
        YearsOfExperienceParts(s, i, x.j, x.a, x.b, x.c, x.d, x.e, x.f, k) && g == s[i..x.j];
      YearsOfExperienceComplete(s, i, x.j, x.a, x.b, x.c, x.d, x.e, x.f, k);
    }
  }

  /** The second pattern matches at `i` with group `g` exactly when the
      scan reports `g` there. */
  lemma ExperienceColonSpec(s: string, i: nat)
    requires i <= |s|
    ensures ExperienceColonAt(s, i).Some? ==>
      exists k: nat :: PatternMatch(ExperienceColon, s, i, k, ExperienceColonAt(s, i).value)
    ensures forall k: nat, g :: PatternMatch(ExperienceColon, s, i, k, g) ==> ExperienceColonAt(s, i) == Some(g)
  {
    if ExperienceColonAt(s, i).Some? {
      ExperienceColonSound(s, i);
    }
    forall k: nat, g | PatternMatch(ExperienceColon, s, i, k, g) ensures ExperienceColonAt(s, i) == Some(g) {
      var x: ExperienceColonEnds :| ExperienceColonParts(s, i, x.p, x.d, x.j, x.m, k) && g == s[x.d..x.j];
      ExperienceColonComplete(s, i, x.p, x.d, x.j, x.m, k);
    }
  }

  /** The third pattern matches at `i` with group `g` exactly when the scan
      reports `g` there. */
  lemma YearRangeSpec(s: string, i: nat)
    requires i <= |s|
    ensures YearRangeAt(s, i).Some? ==> exists k: nat :: PatternMatch(YearRange, s, i, k, YearRangeAt(s, i).value)
    ensures forall k: nat, g :: PatternMatch(YearRange, s, i, k, g) ==> YearRangeAt(s, i) == Some(g)
  {
    if YearRangeAt(s, i).Some? {
      YearRangeSound(s, i);
    }
    forall k: nat, g | PatternMatch(YearRange, s, i, k, g) ensures YearRangeAt(s, i) == Some(g) {
      var x: YearRangeEnds :|
        YearRangeParts(s, i, x.j, x.p, x.d, x.e, x.q, x.u, x.t, k) && g == s[i..x.j];
      YearRangeComplete(s, i, x.j, x.p, x.d, x.e, x.q, x.u, x.t, k);
    }
  }

  /** The scan at `i` reports group `g` exactly when the pattern matches
      some `s[i..k]` with group 1 equal to `g`: no backtracking is lost, and
      all matches at one start have the same group 1. */
  lemma MatchAtSpec(pat: ExpPattern, s: string, i: nat)
    requires i <= |s|
    ensures MatchAt(pat, s, i).Some? ==> exists k: nat :: PatternMatch(pat, s, i, k, MatchAt(pat, s, i).value)
    ensures forall k: nat, g :: PatternMatch(pat, s, i, k, g) ==> MatchAt(pat, s, i) == Some(g)
  {
    match pat
    case YearsOfExperience => YearsOfExperienceSpec(s, i);
    case ExperienceColon => ExperienceColonSpec(s, i);
    case YearRange => YearRangeSpec(s, i);
  }

  /** The start positions where `pat` matches. */
  function MatchesAt(pat: ExpPattern, s: string): nat -> bool
  {
    (k: nat) => k <= |s| && MatchAt(pat, s, k).Some?
  }

  /** The scan of `re.search`: the first start position at or after `i`
      where `pat` matches. */
  function FirstMatch(pat: ExpPattern, s: string, i: nat): (r: Option<nat>)
    requires i <= |s|
    ensures r.Some? ==> i <= r.value <= |s| && MatchAt(pat, s, r.value).Some?
  {
    var k := FirstIndex(MatchesAt(pat, s), i, |s| + 1);
    if k <= |s| then Some(k) else None
  }

  /** No start position in `[i, k)` matches. */
  ghost predicate IsLeftmost(pat: ExpPattern, s: string, i: nat, k: nat)
    requires k <= |s|
  {
    forall b :: i <= b < k ==> MatchAt(pat, s, b).None?
  }

  /** `FirstMatch` misses nothing: no position matches when it finds none,
      and none before the one it finds. */
  lemma FirstMatchSpec(pat: ExpPattern, s: string, i: nat)
    requires i <= |s|
    ensures FirstMatch(pat, s, i).None? ==> forall k :: i <= k <= |s| ==> MatchAt(pat, s, k).None?
    ensures FirstMatch(pat, s, i).Some? ==> IsLeftmost(pat, s, i, FirstMatch(pat, s, i).value)
  {
    var p := MatchesAt(pat, s);
    FirstIndexSpec(p, i, |s| + 1);
    var hi := FirstIndex(p, i, |s| + 1);
    forall k | i <= k < hi ensures MatchAt(pat, s, k).None? {
      assert !p(k);
    }
  }

  /** `re.search(pattern, text, re.IGNORECASE)` followed by `group(1)`. */
  function Search(pat: ExpPattern, s: string): (r: Option<string>)
    ensures r.Some? ==> r.value != [] && AllDigits(r.value)
  {
    match FirstMatch(pat, s, 0)
    case None => None
    case Some(k) => MatchAt(pat, s, k)
  }

  /** The pattern indices whose pattern matches somewhere in `s`. */
  function HasMatch(s: string): nat -> bool
  {
    (n: nat) => n < |ExpPatterns| && Search(ExpPatterns[n], s).Some?
  }

  /** The first pattern, at index `n` or later, that has a match, or
      `|ExpPatterns|` when none of them does. */
  function FirstHit(s: string, n: nat): (m: nat)
    requires n <= |ExpPatterns|
    ensures n <= m <= |ExpPatterns|
    ensures m < |ExpPatterns| ==> Search(ExpPatterns[m], s).Some?
  {
    FirstIndex(HasMatch(s), n, |ExpPatterns|)
  }

  /** No pattern before the first hit has a match. */
  lemma FirstHitSpec(s: string)
    ensures forall m :: 0 <= m < FirstHit(s, 0) ==> Search(ExpPatterns[m], s).None?
  {
    var p := HasMatch(s);
    FirstIndexSpec(p, 0, |ExpPatterns|);
    forall m | 0 <= m < FirstHit(s, 0) ensures Search(ExpPatterns[m], s).None? {
      assert !p(m);
    }
  }

  /** The experience field of a resume. */
  function ExperienceOf(text: string): string
  {
    var m := FirstHit(text, 0);
    if m == |ExpPatterns| then "N/A"
    else
      match Search(ExpPatterns[m], text)
      case None => "N/A"
      case Some(g) => if g != [] then g else "1"
  }

  /** The field is "N/A" exactly when none of the three patterns matches
      anywhere; otherwise it is the digit string in group 1 of the leftmost
      match of the first pattern, in list order, that matches. The "1"
      fallback is never taken, because group 1 cannot be empty. */
  lemma ExperienceOfSpec(text: string)
    ensures ExperienceOf(text) == "N/A" <==>
      forall n, k :: 0 <= n < |ExpPatterns| && 0 <= k <= |text| ==> MatchAt(ExpPatterns[n], text, k).None?
    ensures ExperienceOf(text) != "N/A" ==>
      && ExperienceOf(text) != []
      && AllDigits(ExperienceOf(text))
      && exists n, k ::
        && 0 <= n < |ExpPatterns| && 0 <= k <= |text|
        && IsLeftmost(ExpPatterns[n], text, 0, k)
        && MatchAt(ExpPatterns[n], text, k) == Some(ExperienceOf(text))
        && forall m, b :: 0 <= m < n && 0 <= b <= |text| ==> MatchAt(ExpPatterns[m], text, b).None?
  {
    var n := FirstHit(text, 0);
    FirstHitSpec(text);
    forall m | 0 <= m < n ensures forall b :: 0 <= b <= |text| ==> MatchAt(ExpPatterns[m], text, b).None? {
      FirstMatchSpec(ExpPatterns[m], text, 0);
    }
    if n < |ExpPatterns| {
      var k := FirstMatch(ExpPatterns[n], text, 0).value;
      FirstMatchSpec(ExpPatterns[n], text, 0);
      var g := MatchAt(ExpPatterns[n], text, k).value;
      assert g != "N/A" by { assert IsDigit(g[0]); }
      assert ExperienceOf(text) == g;
    } else {
      forall m, b | 0 <= m < |ExpPatterns| && 0 <= b <= |text| ensures MatchAt(ExpPatterns[m], text, b).None? {
        FirstMatchSpec(ExpPatterns[m], text, 0);
      }
    }
  }

  /** No match of `pat` starts at `b` exactly when the scan reports none
      there. */
  lemma NoMatchAt(pat: ExpPattern, s: string, b: nat)
    requires b <= |s|
    ensures MatchAt(pat, s, b).None? <==> forall k: nat, g :: !PatternMatch(pat, s, b, k, g)
  {
    MatchAtSpec(pat, s, b);
    if MatchAt(pat, s, b).Some? {
      var k: nat :| PatternMatch(pat, s, b, k, MatchAt(pat, s, b).value);
    }
  }

  /** The field is "N/A" exactly when no pattern matches any part of the
      text. */
  lemma ExperienceOfNoMatch(text: string)
    ensures ExperienceOf(text) == "N/A" <==>
      forall n: nat, b: nat, k: nat, g :: n < |ExpPatterns| && b <= |text| ==> !PatternMatch(ExpPatterns[n], text, b, k, g)
  {
    ExperienceOfSpec(text);
    if ExperienceOf(text) == "N/A" {
      forall n: nat, b: nat, k: nat, g | n < |ExpPatterns| && b <= |text|
        ensures !PatternMatch(ExpPatterns[n], text, b, k, g)
      {
        NoMatchAt(ExpPatterns[n], text, b);
      }
    } else if forall n: nat, b: nat, k: nat, g :: n < |ExpPatterns| && b <= |text| ==> !PatternMatch(ExpPatterns[n], text, b, k, g) {
      forall n, b | 0 <= n < |ExpPatterns| && 0 <= b <= |text| ensures MatchAt(ExpPatterns[n], text, b).None? {
        NoMatchAt(ExpPatterns[n], text, b);
      }
    }
  }

  /** Otherwise it is group 1 of a match of the first pattern, in list
      order, that matches somewhere, at the leftmost position where that
      pattern matches. */
  lemma ExperienceOfFirstMatch(text: string)
    requires ExperienceOf(text) != "N/A"
    ensures exists n: nat, b: nat, k: nat ::
      && n < |ExpPatterns| && b <= |text|
      && PatternMatch(ExpPatterns[n], text, b, k, ExperienceOf(text))
      && (forall c: nat, k': nat, g :: c < b ==> !PatternMatch(ExpPatterns[n], text, c, k', g))
      && forall m: nat, c: nat, k': nat, g :: m < n && c <= |text| ==> !PatternMatch(ExpPatterns[m], text, c, k', g)
  {
    ExperienceOfSpec(text);
    var n: nat, b: nat :|
      && n < |ExpPatterns| && b <= |text|
      && IsLeftmost(ExpPatterns[n], text, 0, b)
      && MatchAt(ExpPatterns[n], text, b) == Some(ExperienceOf(text))
      && forall m, c :: 0 <= m < n && 0 <= c <= |text| ==> MatchAt(ExpPatterns[m], text, c).None?;
    MatchAtSpec(ExpPatterns[n], text, b);
    var k: nat :| PatternMatch(ExpPatterns[n], text, b, k, ExperienceOf(text));
    forall c: nat, k': nat, g | c < b ensures !PatternMatch(ExpPatterns[n], text, c, k', g) {
      NoMatchAt(ExpPatterns[n], text, c);
    }
    forall m: nat, c: nat, k': nat, g | m < n && c <= |text| ensures !PatternMatch(ExpPatterns[m], text, c, k', g) {
      NoMatchAt(ExpPatterns[m], text, c);
    }
  }

  /** The rule as the source writes it: a loop over the patterns that stops
      at the first match. */
  method ExtractExperience(text: string) returns (experience: string)
    ensures experience == ExperienceOf(text)
  {
    experience := "N/A";
    var n := 0;
    while n < |ExpPatterns|
      invariant 0 <= n <= |ExpPatterns|
      invariant experience == "N/A"
      invariant FirstHit(text, n) == FirstHit(text, 0)
    {
      var found := Search(ExpPatterns[n], text);
      if found.Some? {
        experience := if found.value != [] then found.value else "1";
        break;
      }
      n := n + 1;
    }
  }

  // ---------------------------------------------------------------------
  // Concrete texts

  /** Only the number is kept: "5 years of experience" gives "5". */
  lemma DirectMention()
    ensures ExperienceOf("5 years of experience") == "5"
  {
    var s := Direct;
    DirectMentionMatch();
    assert MatchAt(YearsOfExperience, s, 0) == Some("5");
    assert FirstMatch(YearsOfExperience, s, 0) == Some(0);
    assert Search(ExpPatterns[0], s) == Some("5");
    assert FirstHit(s, 0) == 0;
  }

  const Direct: string := "5 years of experience"

  lemma DirectMentionMatch()
    ensures YearsOfExperienceAt(Direct, 0) == Some("5")
  {
    DirectNumber();
    DirectUnit();
    DirectRest();
    assert IsDigit(Direct[0]) && Direct[1] != '+';
    assert DigitGroup(Direct, 0) == Direct[0..1] == "5";
  }

  lemma DirectNumber()
    ensures DigitsEnd(Direct, 0) == 1
    ensures SkipSpaces(Direct, 1) == 2
  {
    RunEndAt(Direct, 0, 1, IsDigit);
    RunEndAt(Direct, 1, 2, IsSpace);
  }

  lemma DirectUnit()
    ensures UnitEnd(Direct, 2) == Some(7)
  {
    assert LitAt(Direct, 2, "year");
    assert LitAt(Direct, 6, "s");
  }

  lemma DirectRest()
    ensures SkipSpaces(Direct, 7) == 8 && LitAt(Direct, 8, "of")
    ensures SkipSpaces(Direct, 10) == 11 && LitAt(Direct, 11, "exp")
  {
    RunEndAt(Direct, 7, 8, IsSpace);
    RunEndAt(Direct, 10, 11, IsSpace);
    assert LitAt(Direct, 8, "of");
    assert LitAt(Direct, 11, "exp");
  }
}
