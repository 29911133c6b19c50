/**
 * The phone rule: the first match of `[\+\(]?[1-9][0-9 .\-\(\)]{8,}[0-9]` in
 * the resume text, or "" when there is none (`re.findall(...)[0]`).
 *
 * At a start `i` the optional prefix is taken whenever `s[i]` is `+` or `(`
 * (leaving it out would ask `[1-9]` to match that same character). Then
 * `[1-9]` must match, `[0-9 .\-\(\)]{8,}` greedily takes the whole run of
 * phone characters, and backtracking gives characters back until a digit can
 * close the match. Since a digit is itself a phone character, the match ends
 * just after the last digit of that run that leaves at least eight characters
 * in between: again the leftmost match, and the longest one at its start.
 */
module Phone {
  import opened Text
  import opened Wrappers

  /** `[0-9 .\-\(\)]` */
  predicate IsPhoneChar(c: char) {
    IsDigit(c) || c == ' ' || c == '.' || c == '-' || c == '(' || c == ')'
  }

  predicate IsNonZeroDigit(c: char) { '1' <= c <= '9' }

  predicate IsPhonePrefix(c: char) { c == '+' || c == '(' }

  /** Length of the optional `[\+\(]` prefix of `w`. */
  function PrefixLength(w: string): (p: nat)
    ensures p <= 1 && p <= |w|
  {
    if |w| > 0 && IsPhonePrefix(w[0]) then 1 else 0
  }

  /** `w` is matched in full by the phone pattern: an optional `+` or `(`,
      then a digit 1-9, then at least eight digits, spaces, dots, hyphens or
      parentheses, then a final digit. */
  ghost predicate IsPhoneMatch(w: string) {
    var p := PrefixLength(w);
    && |w| - p >= 10
    && IsNonZeroDigit(w[p])
    && IsDigit(w[|w| - 1])
    && forall k :: p < k < |w| - 1 ==> IsPhoneChar(w[k])
  }

  ghost predicate PhoneMatchAt(s: string, i: int, k: int) {
    0 <= i <= k <= |s| && IsPhoneMatch(s[i..k])
  }

  /** The largest `q` in `[lo, hi)` with `s[q]` a digit. */
  function LastDigit(s: string, lo: nat, hi: nat): (r: Option<nat>)
    requires hi <= |s|
    ensures r.Some? ==>
      lo <= r.value < hi && IsDigit(s[r.value]) && forall q :: r.value < q < hi ==> !IsDigit(s[q])
    ensures r.None? ==> forall q :: lo <= q < hi ==> !IsDigit(s[q])
    decreases hi
  {
    if hi <= lo then None
    else if IsDigit(s[hi - 1]) then Some(hi - 1)
    else LastDigit(s, lo, hi - 1)
  }

  /** Where the greedy match that starts at `i` ends, if there is one. */
  function PhoneEndAt(s: string, i: nat): (r: Option<nat>)
    requires i <= |s|
    ensures r.Some? ==> i + 10 <= r.value <= |s|
  {
    var p := if i < |s| && IsPhonePrefix(s[i]) then i + 1 else i;
    if p < |s| && IsNonZeroDigit(s[p]) then
      var e := RunEnd(s, p + 1, IsPhoneChar);
      match LastDigit(s, p + 9, e)
      case Some(q) => Some(q + 1)
      case None => None
    else None
  }

  lemma PhoneEndAtMatches(s: string, i: nat)
    requires i <= |s| && PhoneEndAt(s, i).Some?
    ensures PhoneMatchAt(s, i, PhoneEndAt(s, i).value)
  {
    var p := if i < |s| && IsPhonePrefix(s[i]) then i + 1 else i;
    var k := PhoneEndAt(s, i).value;
    RunEndSpec(s, p + 1, IsPhoneChar);
    var w := s[i..k];
    assert PrefixLength(w) == p - i;
    forall m | p - i < m < |w| - 1 ensures IsPhoneChar(w[m]) {
      assert w[m] == s[i + m];
    }
  }

  /** Every match that starts at `i` is found by the greedy scan and ends no
      later than it. */
  lemma MatchWithinPhoneEnd(s: string, i: nat, k: nat)
    requires PhoneMatchAt(s, i, k)
    ensures PhoneEndAt(s, i).Some? && k <= PhoneEndAt(s, i).value
  {
    var w := s[i..k];
    var p := i + PrefixLength(w);
    assert p == if i < |s| && IsPhonePrefix(s[i]) then i + 1 else i;
    assert s[p] == w[p - i];
    forall m | p + 1 <= m < k ensures IsPhoneChar(s[m]) {
      assert s[m] == w[m - i];
    }
    RunEndCovers(s, p + 1, k, IsPhoneChar);
    assert IsDigit(s[k - 1]) by { assert s[k - 1] == w[|w| - 1]; }
  }

  /** The start positions where the pattern matches. */
  function StartsPhone(s: string): nat -> bool
  {
    (a: nat) => a <= |s| && PhoneEndAt(s, a).Some?
  }

  /** Python's left-to-right scan: the first start where the pattern
      matches, with the end of its greedy match. */
  function FirstPhone(s: string): (r: Option<(nat, nat)>)
    ensures r.Some? ==> r.value.0 <= |s| && PhoneEndAt(s, r.value.0) == Some(r.value.1)
  {
    var a := FirstIndex(StartsPhone(s), 0, |s| + 1);
    if a <= |s| then Some((a, PhoneEndAt(s, a).value)) else None
  }

  /** The scan misses no start: none matches when it finds none, and none
      before the one it finds. */
  lemma FirstPhoneSpec(s: string)
    ensures FirstPhone(s).None? ==> forall a :: 0 <= a <= |s| ==> PhoneEndAt(s, a).None?
    ensures FirstPhone(s).Some? ==> forall b :: 0 <= b < FirstPhone(s).value.0 ==> PhoneEndAt(s, b).None?
  {
    var p := StartsPhone(s);
    FirstIndexSpec(p, 0, |s| + 1);
    var hi := FirstIndex(p, 0, |s| + 1);
    forall b | 0 <= b < hi && b <= |s| ensures PhoneEndAt(s, b).None? {
      assert !p(b);
    }
  }

  ghost predicate NoPhoneMatchAt(s: string, a: int) {
    forall k :: a <= k <= |s| ==> !PhoneMatchAt(s, a, k)
  }

  lemma NoPhoneEnd(s: string, a: nat)
    requires a <= |s| && PhoneEndAt(s, a).None?
    ensures NoPhoneMatchAt(s, a)
  {
    forall k | a <= k <= |s| ensures !PhoneMatchAt(s, a, k) {
      if PhoneMatchAt(s, a, k) {
        MatchWithinPhoneEnd(s, a, k);
      }
    }
  }

  /** The phone field of a resume. */
  function PhoneOf(text: string): string
  {
    match FirstPhone(text)
    case None => ""
    case Some((i, k)) => text[i..k]
  }

  /** The phone field is "" exactly when nothing in the text matches;
      otherwise it is the leftmost match, the longest one at its start: an
      optional `+`/`(`, a digit 1-9, at least ten characters from that digit
      on, only digits, spaces, dots, hyphens and parentheses in between, and
      a digit at the end. */
  lemma PhoneOfSpec(text: string)
    ensures PhoneOf(text) == "" <==>
      forall a, k :: 0 <= a <= k <= |text| ==> !PhoneMatchAt(text, a, k)
    ensures PhoneOf(text) != "" ==>
      exists a, k :: PhoneMatchAt(text, a, k) && PhoneOf(text) == text[a..k]
        && (forall b, m :: 0 <= b < a && b <= m <= |text| ==> !PhoneMatchAt(text, b, m))
        && (forall m :: k < m <= |text| ==> !PhoneMatchAt(text, a, m))
  {
    FirstPhoneSpec(text);
    match FirstPhone(text)
    case None =>
      forall a, k | 0 <= a <= k <= |text| ensures !PhoneMatchAt(text, a, k) {
        NoPhoneEnd(text, a);
      }
    case Some((a, k)) =>
      PhoneEndAtMatches(text, a);
      assert PhoneMatchAt(text, a, k);
      assert text[a..k] != "" by { assert |text[a..k]| >= 10; }
      forall b, m | 0 <= b < a && b <= m <= |text| ensures !PhoneMatchAt(text, b, m) {
        if PhoneMatchAt(text, b, m) {
          MatchWithinPhoneEnd(text, b, m);
        }
      }
      forall m | k < m <= |text| ensures !PhoneMatchAt(text, a, m) {
        if PhoneMatchAt(text, a, m) {
          MatchWithinPhoneEnd(text, a, m);
        }
      }
  }
}
