/**
 * Character classes and string operations that the extraction rules rely on.
 *
 * Every class is the ASCII restriction of the corresponding Python notion:
 * `\w` is letters, digits and `_`; `\d` and `str.isdigit` are `0`-`9`; `\s`,
 * `str.strip` and `str.split()` use the ASCII characters for which
 * `str.isspace` holds (space, tab through carriage return, and the four
 * separator controls 0x1C-0x1F). Case mapping (`str.lower`, `str.title`,
 * `re.IGNORECASE`) only touches `A`-`Z` / `a`-`z`. A non-ASCII character is an
 * ordinary character that belongs to none of these classes.
 */
module Text {

  // ---------------------------------------------------------------------
  // Character classes

  predicate IsDigit(c: char) { '0' <= c <= '9' }

  predicate IsUpper(c: char) { 'A' <= c <= 'Z' }

  predicate IsLower(c: char) { 'a' <= c <= 'z' }

  predicate IsLetter(c: char) { IsUpper(c) || IsLower(c) }

  /** `\w` */
  predicate IsWordChar(c: char) { IsLetter(c) || IsDigit(c) || c == '_' }

  /** `\s`, and the separators of `str.strip()` / `str.split()` */
  predicate IsSpace(c: char) {
    var n := c as int;
    n == 32 || 9 <= n <= 13 || 28 <= n <= 31
  }

  function ToLower(c: char): (d: char)
    ensures IsLower(d) <==> IsLetter(c)
    ensures !IsLetter(c) ==> d == c
  {
    if IsUpper(c) then (c as int + 32) as char else c
  }

  function ToUpper(c: char): (d: char)
    ensures IsUpper(d) <==> IsLetter(c)
    ensures !IsLetter(c) ==> d == c
  {
    if IsLower(c) then (c as int - 32) as char else c
  }

  /** Upper-casing ignores the case a letter came in. */
  lemma ToUpperOfToLower(c: char)
    ensures ToUpper(ToLower(c)) == ToUpper(c)
  {
  }

  /** `str.lower()` */
  function LowerStr(s: string): (r: string)
    ensures |r| == |s|
  {
    if s == [] then [] else [ToLower(s[0])] + LowerStr(s[1..])
  }

  /** `str.lower()` maps each character on its own. */
  lemma {:induction false} LowerStrAt(s: string)
    ensures forall k :: 0 <= k < |s| ==> LowerStr(s)[k] == ToLower(s[k])
  {
    if s != [] {
      LowerStrAt(s[1..]);
    }
  }

  // ---------------------------------------------------------------------
  // Runs and literals

  /** The end of the longest run of characters satisfying `p` that starts at
      `i`: the position a greedy `[...]*` stops at. */
  function RunEnd(s: string, i: nat, p: char -> bool): (j: nat)
    requires i <= |s|
    ensures i <= j <= |s|
    decreases |s| - i
  {
    if i < |s| && p(s[i]) then RunEnd(s, i + 1, p) else i
  }

  /** Every character of the run satisfies `p`, and the one after it, if
      any, does not. */
  lemma {:induction false} RunEndSpec(s: string, i: nat, p: char -> bool)
    requires i <= |s|
    ensures forall k :: i <= k < RunEnd(s, i, p) ==> p(s[k])
    ensures RunEnd(s, i, p) == |s| || !p(s[RunEnd(s, i, p)])
    decreases |s| - i
  {
    if i < |s| && p(s[i]) {
      RunEndSpec(s, i + 1, p);
    }
  }

  /** A run that covers `[i, b)` ends at `b` or later. */
  lemma RunEndCovers(s: string, i: nat, b: nat, p: char -> bool)
    requires i <= b <= |s|
    requires forall k :: i <= k < b ==> p(s[k])
    ensures RunEnd(s, i, p) >= b
  {
    RunEndSpec(s, i, p);
  }

  /** A run ends exactly at the first position that fails `p`. */
  lemma RunEndAt(s: string, i: nat, m: nat, p: char -> bool)
    requires i <= m <= |s|
    requires forall k :: i <= k < m ==> p(s[k])
    requires m == |s| || !p(s[m])
    ensures RunEnd(s, i, p) == m
  {
    RunEndSpec(s, i, p);
  }

  /** Whitespace skipped by a greedy `\s*` from `i`. */
  function SkipSpaces(s: string, i: nat): (j: nat)
    requires i <= |s|
    ensures i <= j <= |s|
  {
    RunEnd(s, i, IsSpace)
  }

  /** Digits consumed by a greedy `\d+`/`[0-9]*` from `i`. */
  function DigitsEnd(s: string, i: nat): (j: nat)
    requires i <= |s|
    ensures i <= j <= |s|
  {
    RunEnd(s, i, IsDigit)
  }

  /** The lower-case literal `w` occurs at `i` when case is ignored
      (`re.IGNORECASE`). */
  predicate LitAt(s: string, i: nat, w: string)
  {
    i + |w| <= |s| && LitFrom(s, i, w, 0)
  }

  /** `w[k..]` occurs at `i + k`, case ignored. */
  predicate LitFrom(s: string, i: nat, w: string, k: nat)
    requires i + |w| <= |s| && k <= |w|
    decreases |w| - k
  {
    k == |w| || (ToLower(s[i + k]) == w[k] && LitFrom(s, i, w, k + 1))
  }

  lemma {:induction false} LitFromSpec(s: string, i: nat, w: string, k: nat)
    requires i + |w| <= |s| && k <= |w|
    ensures LitFrom(s, i, w, k) <==> forall m :: k <= m < |w| ==> ToLower(s[i + m]) == w[m]
    decreases |w| - k
  {
    if k < |w| {
      LitFromSpec(s, i, w, k + 1);
    }
  }

  /** `LitAt` compares character by character. */
  lemma LitAtSpec(s: string, i: nat, w: string)
    ensures LitAt(s, i, w) <==> i + |w| <= |s| && forall k :: 0 <= k < |w| ==> ToLower(s[i + k]) == w[k]
  {
    if i + |w| <= |s| {
      LitFromSpec(s, i, w, 0);
    }
  }

  /** The literal `w` occurs somewhere in `s` (Python's `w in s`). */
  predicate Contains(s: string, w: string) {
    exists i :: 0 <= i <= |s| && OccursAt(s, w, i)
  }

  predicate OccursAt(s: string, w: string, i: nat) {
    i + |w| <= |s| && s[i..i + |w|] == w
  }

  predicate AllDigits(s: string) {
    forall k :: 0 <= k < |s| ==> IsDigit(s[k])
  }

  predicate HasDigit(s: string) {
    exists k :: 0 <= k < |s| && IsDigit(s[k])
  }

  // ---------------------------------------------------------------------
  // str.strip()

  /** Where the trailing whitespace of `s[lo..j]` starts. */
  function TrailStart(s: string, lo: nat, j: nat): (b: nat)
    requires lo <= j <= |s|
    ensures lo <= b <= j
    decreases j
  {
    if lo < j && IsSpace(s[j - 1]) then TrailStart(s, lo, j - 1) else j
  }

  lemma {:induction false} TrailStartSpec(s: string, lo: nat, j: nat)
    requires lo <= j <= |s|
    ensures forall k :: TrailStart(s, lo, j) <= k < j ==> IsSpace(s[k])
    ensures TrailStart(s, lo, j) == lo || !IsSpace(s[TrailStart(s, lo, j) - 1])
    decreases j
  {
    if lo < j && IsSpace(s[j - 1]) {
      TrailStartSpec(s, lo, j - 1);
    }
  }

  /** `str.strip()`: `s` without its leading and trailing whitespace. */
  function Strip(s: string): (r: string)
  {
    var a := SkipSpaces(s, 0);
    s[a..TrailStart(s, a, |s|)]
  }

  /** A string that neither starts nor ends with whitespace. */
  predicate IsStripped(s: string) {
    s == [] || (!IsSpace(s[0]) && !IsSpace(s[|s| - 1]))
  }

  /** `strip` leaves neither leading nor trailing whitespace. */
  lemma StripSpec(s: string)
    ensures IsStripped(Strip(s))
  {
    var a := SkipSpaces(s, 0);
    var b := TrailStart(s, a, |s|);
    RunEndSpec(s, 0, IsSpace);
    TrailStartSpec(s, a, |s|);
    var r := Strip(s);
    if r != [] {
      assert r[0] == s[a];
      assert r[|r| - 1] == s[b - 1];
    }
  }

  /** `strip` removes whitespace only: its result is the piece of `s`
      between the leading and the trailing whitespace. */
  lemma StripInfix(s: string)
    ensures var a := SkipSpaces(s, 0);
      && a + |Strip(s)| <= |s|
      && Strip(s) == s[a..a + |Strip(s)|]
      && (forall k :: 0 <= k < a ==> IsSpace(s[k]))
      && (forall k :: a + |Strip(s)| <= k < |s| ==> IsSpace(s[k]))
  {
    RunEndSpec(s, 0, IsSpace);
    TrailStartSpec(s, SkipSpaces(s, 0), |s|);
  }

  /** `strip` changes nothing on a string that is already stripped. */
  lemma StripOfStripped(s: string)
    requires IsStripped(s)
    ensures Strip(s) == s
  {
    if s != [] {
      assert SkipSpaces(s, 0) == 0;
      assert TrailStart(s, 0, |s|) == |s|;
    }
    assert s[0..|s|] == s;
  }

  /** A string is stripped exactly when `strip` leaves it unchanged. */
  lemma StrippedIffFixed(s: string)
    ensures IsStripped(s) <==> Strip(s) == s
  {
    StripSpec(s);
    if IsStripped(s) {
      StripOfStripped(s);
    }
  }

  // ---------------------------------------------------------------------
  // str.split('\n') and str.split()

  /** `s.split('\n')`: the pieces between newlines, empty ones included. */
  function SplitNewlines(s: string): (r: seq<string>)
    ensures |r| >= 1
    ensures forall k :: 0 <= k < |r| ==> '\n' !in r[k]
  {
    if s == [] then [""]
    else
      var rest := SplitNewlines(s[1..]);
      if s[0] == '\n' then [""] + rest
      else [[s[0]] + rest[0]] + rest[1..]
  }

  /** `"\n".join(pieces)` */
  function JoinLines(pieces: seq<string>): string
  {
    if |pieces| == 0 then ""
    else if |pieces| == 1 then pieces[0]
    else pieces[0] + "\n" + JoinLines(pieces[1..])
  }

  /** Splitting at newlines loses nothing: joining the pieces with newlines
      gives the text back. */
  lemma {:induction false} SplitNewlinesJoin(s: string)
    ensures JoinLines(SplitNewlines(s)) == s
  {
    if s != [] {
      var rest := SplitNewlines(s[1..]);
      SplitNewlinesJoin(s[1..]);
      if s[0] == '\n' {
        assert ([""] + rest)[1..] == rest;
        assert s == "\n" + s[1..];
      } else {
        var r := [[s[0]] + rest[0]] + rest[1..];
        assert r[1..] == rest[1..];
        assert s == [s[0]] + s[1..];
      }
    }
  }

  /** `s.split()` with no separator: the maximal runs of non-whitespace. */
  function SplitWhitespace(s: string): seq<string>
  {
    SplitFrom(s, 0)
  }

  /** The tokens of `s` from position `i` on. */
  function SplitFrom(s: string, i: nat): seq<string>
    requires i <= |s|
    decreases |s| - i
  {
    var a := SkipSpaces(s, i);
    if a == |s| then []
    else
      var n := RunEnd(s, a, NotSpace);
      assert n > a by { RunEndSpec(s, i, IsSpace); }
      [s[a..n]] + SplitFrom(s, n)
  }

  predicate NotSpace(c: char) { !IsSpace(c) }

  /** A token starts at `k`: a non-whitespace character at the start of `s`
      or after whitespace. */
  predicate IsTokenStart(s: string, k: nat)
    requires k < |s|
  {
    !IsSpace(s[k]) && (k == 0 || IsSpace(s[k - 1]))
  }

  /** The positions in `[i, |s|)` where a token starts, in increasing order. */
  function TokenStarts(s: string, i: nat): (r: seq<nat>)
    requires i <= |s|
    ensures forall t :: 0 <= t < |r| ==> i <= r[t] < |s|
    decreases |s| - i
  {
    if i == |s| then []
    else (if IsTokenStart(s, i) then [i] else []) + TokenStarts(s, i + 1)
  }

  /** The token that starts at `k`: the run of non-whitespace from there. */
  function TokenAt(s: string, k: nat): string
    requires k <= |s|
  {
    s[k..RunEnd(s, k, NotSpace)]
  }

  /** `TokenStarts` lists every token start exactly once, in increasing
      order. */
  lemma {:induction false} TokenStartsSpec(s: string, i: nat)
    requires i <= |s|
    ensures forall t, u :: 0 <= t < u < |TokenStarts(s, i)| ==> TokenStarts(s, i)[t] < TokenStarts(s, i)[u]
    ensures forall k :: i <= k < |s| ==> (k in TokenStarts(s, i) <==> IsTokenStart(s, k))
    decreases |s| - i
  {
    if i < |s| {
      TokenStartsSpec(s, i + 1);
    }
  }

  /** No token starts in `[i, j)`. */
  lemma {:induction false} TokenStartsSkip(s: string, i: nat, j: nat)
    requires i <= j <= |s|
    requires forall k :: i <= k < j ==> !IsTokenStart(s, k)
    ensures TokenStarts(s, i) == TokenStarts(s, j)
    decreases j - i
  {
    if i < j {
      assert !IsTokenStart(s, i);
      TokenStartsSkip(s, i + 1, j);
    }
  }

  /** `i` is not inside a token: no non-whitespace on both sides of it. */
  predicate Between(s: string, i: nat)
    requires i <= |s|
  {
    i == 0 || i == |s| || IsSpace(s[i - 1]) || IsSpace(s[i])
  }

  /** One step of the split: the first token starts after the whitespace
      at `i`, and the rest is split from where it ends. */
  lemma SplitFromStep(s: string, i: nat)
    requires i <= |s| && SkipSpaces(s, i) < |s|
    ensures var a := SkipSpaces(s, i);
      var n := RunEnd(s, a, NotSpace);
      && a < n && Between(s, n)
      && SplitFrom(s, i) == [TokenAt(s, a)] + SplitFrom(s, n)
  {
    var a := SkipSpaces(s, i);
    RunEndSpec(s, i, IsSpace);
    RunEndSpec(s, a, NotSpace);
  }

  /** The same step for the token starts. */
  lemma TokenStartsStep(s: string, i: nat)
    requires i <= |s| && Between(s, i) && SkipSpaces(s, i) < |s|
    ensures var a := SkipSpaces(s, i);
      TokenStarts(s, i) == [a] + TokenStarts(s, RunEnd(s, a, NotSpace))
  {
    var a := SkipSpaces(s, i);
    RunEndSpec(s, i, IsSpace);
    TokenStartsSkip(s, i, a);
    assert IsTokenStart(s, a);
    var n := RunEnd(s, a, NotSpace);
    RunEndSpec(s, a, NotSpace);
    forall k | a + 1 <= k < n ensures !IsTokenStart(s, k) {
      assert NotSpace(s[k - 1]);
    }
    TokenStartsSkip(s, a + 1, n);
  }

  lemma {:induction false} SplitFromSpec(s: string, i: nat)
    requires i <= |s| && Between(s, i)
    ensures |SplitFrom(s, i)| == |TokenStarts(s, i)|
    ensures forall t :: 0 <= t < |SplitFrom(s, i)| ==> SplitFrom(s, i)[t] == TokenAt(s, TokenStarts(s, i)[t])
    decreases |s| - i
  {
    var a := SkipSpaces(s, i);
    if a == |s| {
      RunEndSpec(s, i, IsSpace);
      TokenStartsSkip(s, i, a);
    } else {
      SplitFromStep(s, i);
      TokenStartsStep(s, i);
      var n := RunEnd(s, a, NotSpace);
      SplitFromSpec(s, n);
      var r, st := SplitFrom(s, n), TokenStarts(s, n);
      forall t | 0 <= t < |SplitFrom(s, i)| ensures SplitFrom(s, i)[t] == TokenAt(s, TokenStarts(s, i)[t]) {
        if t > 0 {
          assert SplitFrom(s, i)[t] == r[t - 1];
          assert TokenStarts(s, i)[t] == st[t - 1];
        }
      }
    }
  }

  /** `split()` gives one token per token start, in order of position; each
      is the maximal run of non-whitespace that starts there. */
  lemma SplitWhitespaceSpec(s: string)
    ensures |SplitWhitespace(s)| == |TokenStarts(s, 0)|
    ensures forall t :: 0 <= t < |SplitWhitespace(s)| ==> SplitWhitespace(s)[t] == TokenAt(s, TokenStarts(s, 0)[t])
  {
    SplitFromSpec(s, 0);
  }

  /** Each token is non-empty, holds no whitespace, and cannot be extended:
      whitespace or an end of `s` lies on both sides of it. */
  lemma TokenAtSpec(s: string, k: nat)
    requires k < |s| && IsTokenStart(s, k)
    ensures var e := k + |TokenAt(s, k)|;
      && TokenAt(s, k) != []
      && (forall m :: 0 <= m < |TokenAt(s, k)| ==> !IsSpace(TokenAt(s, k)[m]))
      && e <= |s| && (e == |s| || IsSpace(s[e]))
      && (k == 0 || IsSpace(s[k - 1]))
  {
    RunEndSpec(s, k, NotSpace);
  }

  // ---------------------------------------------------------------------
  // str.title()

  /** `str.title()`: a character is title-cased when the previous character
      is not cased, and lower-cased otherwise. */
  function Title(s: string): string
  {
    TitleFrom(s, false)
  }

  function TitleFrom(s: string, previousIsCased: bool): (r: string)
    ensures |r| == |s|
  {
    if s == [] then []
    else
      [if previousIsCased then ToLower(s[0]) else ToUpper(s[0])]
        + TitleFrom(s[1..], IsLetter(s[0]))
  }

  /** After a cased character, a run of letters is simply lower-cased. */
  lemma {:induction false} TitleFromLetters(s: string)
    requires forall k :: 0 <= k < |s| ==> IsLetter(s[k])
    ensures TitleFrom(s, true) == LowerStr(s)
  {
    if s != [] {
      TitleFromLetters(s[1..]);
    }
  }

  /** The title case of a word made of letters is its first letter in upper
      case followed by the rest in lower case. */
  lemma TitleOfWord(s: string)
    requires s != [] && forall k :: 0 <= k < |s| ==> IsLetter(s[k])
    ensures Title(s) == [ToUpper(s[0])] + LowerStr(s[1..])
  {
    TitleFromLetters(s[1..]);
  }

  /** `.title()` of text that matches a lower-case word `w`, case ignored,
      is `w` with its first letter upper-cased. */
  lemma TitleOfLit(s: string, i: nat, w: string)
    requires LitAt(s, i, w) && w != []
    requires forall k :: 0 <= k < |w| ==> IsLower(w[k])
    ensures i + |w| <= |s|
    ensures Title(s[i..i + |w|]) == [ToUpper(w[0])] + w[1..]
  {
    LitAtSpec(s, i, w);
    var m := s[i..i + |w|];
    forall k | 0 <= k < |m| ensures IsLetter(m[k]) && ToLower(m[k]) == w[k] {
      assert m[k] == s[i + k];
      assert ToLower(s[i + k]) == w[k] && IsLower(w[k]);
    }
    TitleOfWord(m);
    ToUpperOfToLower(m[0]);
    LowerStrAt(m[1..]);
    assert LowerStr(m[1..]) == w[1..];
  }

  /** The first `k` in `[i, hi)` with `p(k)`, scanning upwards, or `hi`
      when there is none. */
  function FirstIndex(p: nat -> bool, i: nat, hi: nat): (k: nat)
    requires i <= hi
    ensures i <= k <= hi
    ensures k < hi ==> p(k)
    decreases hi - i
  {
    if i == hi || p(i) then i else FirstIndex(p, i + 1, hi)
  }

  /** The scan skips nothing: `p` fails everywhere before what it finds. */
  lemma {:induction false} FirstIndexSpec(p: nat -> bool, i: nat, hi: nat)
    requires i <= hi
    ensures forall k :: i <= k < FirstIndex(p, i, hi) ==> !p(k)
    decreases hi - i
  {
    if i < hi && !p(i) {
      FirstIndexSpec(p, i + 1, hi);
    }
  }

  // ---------------------------------------------------------------------
  // Filtering a sequence

  /** `f` of each element of `xs` that `keep` accepts, in order. */
  function FilterMap<T, U>(xs: seq<T>, keep: T -> bool, f: T -> U): seq<U>
  {
    if xs == [] then []
    else
      var init := FilterMap(xs[..|xs| - 1], keep, f);
      var last := xs[|xs| - 1];
      if keep(last) then init + [f(last)] else init
  }

  /** The positions, in increasing order, of the elements `keep` accepts. */
  function Kept<T>(xs: seq<T>, keep: T -> bool): (r: seq<nat>)
    ensures forall k :: 0 <= k < |r| ==> r[k] < |xs|
  {
    if xs == [] then []
    else
      var init := Kept(xs[..|xs| - 1], keep);
      if keep(xs[|xs| - 1]) then init + [|xs| - 1] else init
  }

  /** The positions are strictly increasing, and a position is among them
      exactly when `keep` accepts its element. */
  lemma {:induction false} KeptSpec<T>(xs: seq<T>, keep: T -> bool)
    ensures forall k, m :: 0 <= k < m < |Kept(xs, keep)| ==> Kept(xs, keep)[k] < Kept(xs, keep)[m]
    ensures forall j :: 0 <= j < |xs| ==> (j in Kept(xs, keep) <==> keep(xs[j]))
    ensures |Kept(xs, keep)| <= |xs|
  {
    if xs != [] {
      var init := xs[..|xs| - 1];
      KeptSpec(init, keep);
      var r := Kept(xs, keep);
      var r' := Kept(init, keep);
      assert forall k :: 0 <= k < |r'| ==> r'[k] < |init|;
      forall j | 0 <= j < |init| ensures xs[j] == init[j] { }
    }
  }

  /** Element `k` of the result is `f` of the `k`-th accepted element, and
      there is one result per accepted element. */
  lemma {:induction false} FilterMapSpec<T, U>(xs: seq<T>, keep: T -> bool, f: T -> U)
    ensures |FilterMap(xs, keep, f)| == |Kept(xs, keep)|
    ensures forall k :: 0 <= k < |FilterMap(xs, keep, f)| ==> FilterMap(xs, keep, f)[k] == f(xs[Kept(xs, keep)[k]])
  {
    if xs != [] {
      var init := xs[..|xs| - 1];
      FilterMapSpec(init, keep, f);
      forall j | 0 <= j < |init| ensures xs[j] == init[j] { }
    }
  }

  /** Filtering two parts gives the two parts' results, one after the
      other. */
  lemma {:induction false} FilterMapAppend<T, U>(a: seq<T>, b: seq<T>, keep: T -> bool, f: T -> U)
    ensures FilterMap(a + b, keep, f) == FilterMap(a, keep, f) + FilterMap(b, keep, f)
    decreases |b|
  {
    if b == [] {
      assert a + b == a;
    } else {
      var b' := b[..|b| - 1];
      assert (a + b)[..|a + b| - 1] == a + b';
      FilterMapAppend(a, b', keep, f);
    }
  }

  /** `xs[j]` satisfies `keep` and no earlier element does. */
  ghost predicate IsFirstWith<T>(xs: seq<T>, j: int, keep: T -> bool)
    requires 0 <= j < |xs|
  {
    keep(xs[j]) && forall k :: 0 <= k < j ==> !keep(xs[k])
  }

  /** The result is empty exactly when `keep` accepts nothing, and otherwise
      starts with `f` of the first element `keep` accepts. */
  lemma FilterMapFirst<T, U>(xs: seq<T>, keep: T -> bool, f: T -> U)
    ensures FilterMap(xs, keep, f) == [] <==> forall j :: 0 <= j < |xs| ==> !keep(xs[j])
    ensures FilterMap(xs, keep, f) != [] ==>
      exists j :: 0 <= j < |xs| && IsFirstWith(xs, j, keep) && FilterMap(xs, keep, f)[0] == f(xs[j])
  {
    KeptSpec(xs, keep);
    FilterMapSpec(xs, keep, f);
    var r := Kept(xs, keep);
    if r != [] {
      var j := r[0];
      assert j in r;
      forall k | 0 <= k < j ensures !keep(xs[k]) {
        assert k !in r;
      }
      assert IsFirstWith(xs, j, keep);
    } else {
      forall j | 0 <= j < |xs| ensures !keep(xs[j]) {
        assert j !in r;
      }
    }
  }
}
