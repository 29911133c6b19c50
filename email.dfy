/**
 * The e-mail rule: the first match of `[\w\.-]+@[\w\.-]+` in the resume
 * text, or "" when there is none (`re.findall(...)[0]`).
 *
 * Python tries start positions from left to right. At a start `i` the first
 * `[\w\.-]+` greedily takes the whole run of e-mail characters; a shorter
 * take would leave an e-mail character where `@` is needed, so backtracking
 * never helps. The second `[\w\.-]+` also takes its whole run, and nothing
 * follows it. The match Python reports is therefore the leftmost one, and
 * among the matches at that start the longest.
 */
module Email {
  import opened Text
  import opened Wrappers

  /** `[\w\.-]` */
  predicate IsEmailChar(c: char) { IsWordChar(c) || c == '.' || c == '-' }

  /** `w` is matched in full by `[\w\.-]+@[\w\.-]+`: a single `@`, not at
      either end, and every other character an e-mail character. */
  ghost predicate IsEmailMatch(w: string) {
    exists j :: 0 < j < |w| - 1 && w[j] == '@' && AllEmailCharsBut(w, j)
  }

  ghost predicate AllEmailCharsBut(w: string, j: int) {
    forall k :: 0 <= k < |w| && k != j ==> IsEmailChar(w[k])
  }

  /** The pattern matches `s[i..k]`. */
  ghost predicate EmailMatchAt(s: string, i: int, k: int) {
    0 <= i <= k <= |s| && IsEmailMatch(s[i..k])
  }

  /** Where the greedy match that starts at `i` ends, if there is one. */
  function EmailEndAt(s: string, i: nat): (r: Option<nat>)
    requires i <= |s|
    ensures r.Some? ==> i + 3 <= r.value <= |s|
  {
    var j := RunEnd(s, i, IsEmailChar);
    if i < j && j + 1 < |s| && s[j] == '@' && IsEmailChar(s[j + 1])
    then Some(RunEnd(s, j + 1, IsEmailChar))
    else None
  }

  /** The greedy end, when there is one, is a match. */
  lemma EmailEndAtMatches(s: string, i: nat)
    requires i <= |s| && EmailEndAt(s, i).Some?
    ensures EmailMatchAt(s, i, EmailEndAt(s, i).value)
  {
    var j := RunEnd(s, i, IsEmailChar);
    var k := EmailEndAt(s, i).value;
    RunEndSpec(s, i, IsEmailChar);
    RunEndSpec(s, j + 1, IsEmailChar);
    var w := s[i..k];
    assert w[j - i] == '@';
    assert AllEmailCharsBut(w, j - i) by {
      forall m | 0 <= m < |w| && m != j - i ensures IsEmailChar(w[m]) {
        assert w[m] == s[i + m];
      }
    }
  }

  /** Every match that starts at `i` is found by the greedy scan and ends no
      later than it. */
  lemma MatchWithinEmailEnd(s: string, i: nat, k: nat)
    requires EmailMatchAt(s, i, k)
    ensures EmailEndAt(s, i).Some? && k <= EmailEndAt(s, i).value
  {
    var w := s[i..k];
    var j :| 0 < j < |w| - 1 && w[j] == '@' && AllEmailCharsBut(w, j);
    forall m | i <= m < i + j ensures IsEmailChar(s[m]) {
      assert s[m] == w[m - i];
    }
    assert !IsEmailChar(s[i + j]) by { assert s[i + j] == w[j]; }
    RunEndAt(s, i, i + j, IsEmailChar);
    assert s[i + j + 1] == w[j + 1];
    forall m | i + j + 1 <= m < k ensures IsEmailChar(s[m]) {
      assert s[m] == w[m - i];
    }
    RunEndCovers(s, i + j + 1, k, IsEmailChar);
  }

  /** The start positions where the pattern matches. */
  function StartsEmail(s: string): nat -> bool
  {
    (a: nat) => a <= |s| && EmailEndAt(s, a).Some?
  }

  /** Python's left-to-right scan: the first start where the pattern
      matches, with the end of its greedy match. */
  function FirstEmail(s: string): (r: Option<(nat, nat)>)
    ensures r.Some? ==> r.value.0 <= |s| && EmailEndAt(s, r.value.0) == Some(r.value.1)
  {
    var a := FirstIndex(StartsEmail(s), 0, |s| + 1);
    if a <= |s| then Some((a, EmailEndAt(s, a).value)) else None
  }

  /** The scan misses no start: none matches when it finds none, and none
      before the one it finds. */
  lemma FirstEmailSpec(s: string)
    ensures FirstEmail(s).None? ==> forall a :: 0 <= a <= |s| ==> EmailEndAt(s, a).None?
    ensures FirstEmail(s).Some? ==> forall b :: 0 <= b < FirstEmail(s).value.0 ==> EmailEndAt(s, b).None?
  {
    var p := StartsEmail(s);
    FirstIndexSpec(p, 0, |s| + 1);
    var hi := FirstIndex(p, 0, |s| + 1);
    forall b | 0 <= b < hi && b <= |s| ensures EmailEndAt(s, b).None? {
      assert !p(b);
    }
  }

  /** The e-mail field of a resume. */
  function EmailOf(text: string): string
  {
    match FirstEmail(text)
    case None => ""
    case Some((i, k)) => text[i..k]
  }

  /** The e-mail field is "" exactly when nothing in the text matches;
      otherwise it is the leftmost match, and the longest one that starts
      there: an `@` with a non-empty run of word, `.` or `-` characters on
      each side. */
  lemma EmailOfSpec(text: string)
    ensures EmailOf(text) == "" <==>
      forall a, k :: 0 <= a <= k <= |text| ==> !EmailMatchAt(text, a, k)
    ensures EmailOf(text) != "" ==>
      exists a, k :: EmailMatchAt(text, a, k) && EmailOf(text) == text[a..k]
        && (forall b, m :: 0 <= b < a && b <= m <= |text| ==> !EmailMatchAt(text, b, m))
        && (forall m :: k < m <= |text| ==> !EmailMatchAt(text, a, m))
  {
    FirstEmailSpec(text);
    match FirstEmail(text)
    case None =>
      forall a, k | 0 <= a <= k <= |text| ensures !EmailMatchAt(text, a, k) {
        if EmailMatchAt(text, a, k) {
          MatchWithinEmailEnd(text, a, k);
        }
      }
    case Some((a, k)) =>
      EmailEndAtMatches(text, a);
      assert EmailMatchAt(text, a, k);
      assert text[a..k] != "" by { assert |text[a..k]| >= 3; }
      forall b, m | 0 <= b < a && b <= m <= |text| ensures !EmailMatchAt(text, b, m) {
        if EmailMatchAt(text, b, m) {
          MatchWithinEmailEnd(text, b, m);
        }
      }
      forall m | k < m <= |text| ensures !EmailMatchAt(text, a, m) {
        if EmailMatchAt(text, a, m) {
          MatchWithinEmailEnd(text, a, m);
        }
      }
  }

  /** Running the rule on a bare address gives the address back. */
  lemma EmailOfAddress(w: string)
    requires IsEmailMatch(w)
    ensures EmailOf(w) == w
  {
    FirstEmailSpec(w);
    assert EmailMatchAt(w, 0, |w|) by { assert w[0..|w|] == w; }
    MatchWithinEmailEnd(w, 0, |w|);
    assert EmailEndAt(w, 0).Some?;
    assert w[0..|w|] == w;
  }
}
