/**
 * The name rule. The text is cut at newlines, each piece is stripped and
 * empty pieces are dropped; the first remaining line with no digit, no `@`,
 * no `http` in any case and one to four whitespace-separated tokens is the
 * name, after a leading title is removed with
 * `re.sub(r'^(Mr\.?|Mrs\.?|Ms\.?|Dr\.?|Prof\.?)\s*', '', name, flags=re.IGNORECASE)`
 * and the result stripped. With no such line the name is "".
 */
module Name {
  import opened Text
  import opened Wrappers

  // ---------------------------------------------------------------------
  // Lines

  /** `if line.strip()`: the piece is not blank. */
  predicate NonBlank(piece: string) {
    Strip(piece) != ""
  }

  /** `[line.strip() for line in text.split('\n') if line.strip()]` */
  function Lines(text: string): (r: seq<string>)
    ensures forall line :: line in r ==> line != [] && IsStripped(line)
  {
    LinesAreStripped(SplitNewlines(text));
    FilterMap(SplitNewlines(text), NonBlank, Strip)
  }

  lemma LinesAreStripped(pieces: seq<string>)
    ensures forall line :: line in FilterMap(pieces, NonBlank, Strip) ==> line != [] && IsStripped(line)
  {
    var r := FilterMap(pieces, NonBlank, Strip);
    var idx := Kept(pieces, NonBlank);
    FilterMapSpec(pieces, NonBlank, Strip);
    KeptSpec(pieces, NonBlank);
    forall k | 0 <= k < |r| ensures r[k] != [] && IsStripped(r[k]) {
      assert idx[k] in idx;
      StripSpec(pieces[idx[k]]);
    }
  }

  /** The lines are the stripped newline-separated pieces of the text that
      are not blank, in order: line `k` comes from the `k`-th such piece, and
      every piece that is not blank gives a line. */
  lemma LinesSpec(text: string)
    ensures var pieces, idx := SplitNewlines(text), Kept(SplitNewlines(text), NonBlank);
      && |Lines(text)| == |idx| <= |pieces|
      && (forall k, m :: 0 <= k < m < |idx| ==> idx[k] < idx[m])
      && (forall j :: 0 <= j < |pieces| ==> (j in idx <==> Strip(pieces[j]) != ""))
      && forall k :: 0 <= k < |idx| ==> Lines(text)[k] == Strip(pieces[idx[k]])
  {
    var pieces := SplitNewlines(text);
    KeptSpec(pieces, NonBlank);
    FilterMapSpec(pieces, NonBlank, Strip);
  }

  // ---------------------------------------------------------------------
  // Candidate lines

  /** The filter a line must pass to be taken as a name. */
  predicate IsNameCandidate(line: string) {
    && !HasDigit(line)
    && '@' !in line
    && !Contains(LowerStr(line), "http")
    && 1 <= |SplitWhitespace(line)| <= 4
  }

  /** The filter in terms of the text itself: the token count of
      `line.split()` is the number of positions where a run of
      non-whitespace starts. */
  lemma NameCandidateTokens(line: string)
    ensures IsNameCandidate(line) <==>
      && !HasDigit(line)
      && '@' !in line
      && !Contains(LowerStr(line), "http")
      && 1 <= |TokenStarts(line, 0)| <= 4
  {
    SplitWhitespaceSpec(line);
  }

  /** `potential_names`: the lines that pass the filter, in order. */
  function Candidates(lines: seq<string>): seq<string>
  {
    FilterMap(lines, IsNameCandidate, Same)
  }

  function Same(line: string): string { line }

  /** The candidates are lines that pass the filter; there are none exactly
      when no line passes, and otherwise the first candidate is the first
      line that passes. */
  lemma CandidatesSpec(lines: seq<string>)
    ensures forall x :: x in Candidates(lines) ==> x in lines && IsNameCandidate(x)
    ensures Candidates(lines) == [] <==> forall j :: 0 <= j < |lines| ==> !IsNameCandidate(lines[j])
    ensures Candidates(lines) != [] ==>
      exists j :: 0 <= j < |lines| && IsFirstWith(lines, j, IsNameCandidate) && Candidates(lines)[0] == lines[j]
  {
    FilterMapFirst(lines, IsNameCandidate, Same);
    KeptSpec(lines, IsNameCandidate);
    FilterMapSpec(lines, IsNameCandidate, Same);
  }

  // ---------------------------------------------------------------------
  // Titles

  /** The alternatives of the title pattern, in the order `re` tries them. */
  const Honorifics: seq<string> := ["mr", "mrs", "ms", "dr", "prof"]

  /** The first alternative, from index `h` on, whose letters begin `s` when
      case is ignored. */
  function FirstHonorific(s: string, h: nat): (r: Option<nat>)
    ensures r.Some? ==> h <= r.value < |Honorifics| && LitAt(s, 0, Honorifics[r.value])
    ensures r.None? ==> forall g :: h <= g < |Honorifics| ==> !LitAt(s, 0, Honorifics[g])
    decreases |Honorifics| - h
  {
    if h >= |Honorifics| then None
    else if LitAt(s, 0, Honorifics[h]) then Some(h)
    else FirstHonorific(s, h + 1)
  }

  /** Length of the match of the title pattern at the start of `s` (0 when it
      does not match). The trailing `\.?\s*` can match the empty string, so
      the first alternative whose letters match wins: since `Mr` comes before
      `Mrs`, "Mrs." loses only its first two letters. */
  function HonorificEnd(s: string): (n: nat)
    ensures n <= |s|
  {
    match FirstHonorific(s, 0)
    case None => 0
    case Some(h) =>
      var p := |Honorifics[h]|;
      SkipSpaces(s, if p < |s| && s[p] == '.' then p + 1 else p)
  }

  /** The `re.sub` call: the title match, if any, deleted from the front. */
  function StripHonorific(s: string): string
  {
    s[HonorificEnd(s)..]
  }

  /** `s` starts, in any case, with one of the title alternatives. */
  ghost predicate StartsWithHonorific(s: string) {
    exists h :: 0 <= h < |Honorifics| && LitAt(s, 0, Honorifics[h])
  }

  /** Alternative `h` is the first one that matches at the start of `s`. */
  ghost predicate IsFirstHonorific(s: string, h: int) {
    && 0 <= h < |Honorifics|
    && LitAt(s, 0, Honorifics[h])
    && forall g :: 0 <= g < h ==> !LitAt(s, 0, Honorifics[g])
  }

  /** `r` is what is left of `s` once alternative `h`, an optional `.` and
      the whitespace after them are cut off. */
  ghost predicate RemovesTitle(s: string, h: int, r: string)
    requires 0 <= h < |Honorifics|
  {
    var w := |Honorifics[h]|;
    var p := w + (if w < |s| && s[w] == '.' then 1 else 0);
    && p + |r| <= |s|
    && r == s[|s| - |r|..]
    && (forall k :: p <= k < |s| - |r| ==> IsSpace(s[k]))
    && (r == [] || !IsSpace(r[0]))
  }

  /** The title substitution deletes nothing unless `s` starts with one of
      Mr, Mrs, Ms, Dr, Prof (any case); when it does, it deletes the first of
      them in that order, an optional `.` after it and the whitespace that
      follows, and no more. */
  lemma StripHonorificSpec(s: string)
    ensures !StartsWithHonorific(s) ==> StripHonorific(s) == s
    ensures StartsWithHonorific(s) ==>
      exists h :: IsFirstHonorific(s, h) && RemovesTitle(s, h, StripHonorific(s))
  {
    match FirstHonorific(s, 0)
    case None =>
      assert s[0..] == s;
    case Some(h) =>
      var w := |Honorifics[h]|;
      RunEndSpec(s, if w < |s| && s[w] == '.' then w + 1 else w, IsSpace);
      assert IsFirstHonorific(s, h);
      assert RemovesTitle(s, h, StripHonorific(s));
  }

  /** Removing the title from a stripped line leaves a stripped suffix of
      it, so the final `strip()` of the rule changes nothing. */
  lemma {:induction false} StripHonorificOfStripped(line: string)
    requires IsStripped(line)
    ensures Strip(StripHonorific(line)) == StripHonorific(line)
    ensures IsSuffix(StripHonorific(line), line)
  {
    var n := HonorificEnd(line);
    var r := StripHonorific(line);
    assert r == line[n..];
    assert r == [] || !IsSpace(r[0]) by {
      match FirstHonorific(line, 0)
      case None =>
      case Some(h) =>
        var w := |Honorifics[h]|;
        RunEndSpec(line, if w < |line| && line[w] == '.' then w + 1 else w, IsSpace);
    }
    if r != [] {
      assert r[|r| - 1] == line[|line| - 1];
    }
    StripOfStripped(r);
  }

  ghost predicate IsSuffix(r: string, s: string) {
    |r| <= |s| && r == s[|s| - |r|..]
  }

  // ---------------------------------------------------------------------
  // The rule

  /** The name field of a resume. */
  function NameOf(text: string): string
  {
    var names := Candidates(Lines(text));
    if |names| > 0 then Strip(StripHonorific(names[0])) else ""
  }

  /** The name is "" when no line passes the filter. */
  lemma NameOfNoCandidate(text: string)
    requires forall j :: 0 <= j < |Lines(text)| ==> !IsNameCandidate(Lines(text)[j])
    ensures NameOf(text) == ""
  {
    CandidatesSpec(Lines(text));
  }

  /** Otherwise the name is what the title substitution leaves of the first
      line that passes the filter, and a suffix of that line. */
  lemma NameOfFirstCandidate(text: string, j: nat)
    requires j < |Lines(text)| && IsFirstWith(Lines(text), j, IsNameCandidate)
    ensures NameOf(text) == StripHonorific(Lines(text)[j])
    ensures IsSuffix(NameOf(text), Lines(text)[j])
  {
    var lines := Lines(text);
    CandidatesSpec(lines);
    var i :| 0 <= i < |lines| && IsFirstWith(lines, i, IsNameCandidate) && Candidates(lines)[0] == lines[i];
    assert i == j;
    StripHonorificOfStripped(lines[j]);
  }

  /** A non-empty name never holds a digit, an `@` or `http` in any case,
      because it is a suffix of a line that passed the filter. */
  lemma NameOfIsClean(text: string)
    ensures !HasDigit(NameOf(text))
    ensures '@' !in NameOf(text)
    ensures !Contains(LowerStr(NameOf(text)), "http")
  {
    var lines := Lines(text);
    CandidatesSpec(lines);
    if Candidates(lines) != [] {
      var j :| 0 <= j < |lines| && IsFirstWith(lines, j, IsNameCandidate) && Candidates(lines)[0] == lines[j];
      NameOfFirstCandidate(text, j);
      SuffixKeepsClean(NameOf(text), lines[j]);
    }
  }

  lemma SuffixKeepsClean(r: string, s: string)
    requires IsSuffix(r, s)
    requires !HasDigit(s) && '@' !in s && !Contains(LowerStr(s), "http")
    ensures !HasDigit(r) && '@' !in r && !Contains(LowerStr(r), "http")
  {
    var d := |s| - |r|;
    assert forall k :: 0 <= k < |r| ==> r[k] == s[d + k];
    var lr, ls := LowerStr(r), LowerStr(s);
    LowerStrAt(r);
    LowerStrAt(s);
    assert lr == ls[d..];
    if Contains(lr, "http") {
      var i :| 0 <= i <= |lr| && OccursAt(lr, "http", i);
      assert ls[d + i..d + i + 4] == lr[i..i + 4];
      assert OccursAt(ls, "http", d + i);
    }
  }

  /** The imperative rule as the source writes it: the candidate list is
      built by a loop, and only its first entry is used. */
  method ExtractName(text: string) returns (name: string)
    ensures name == NameOf(text)
  {
    name := "";
    var lines := Lines(text);
    if |lines| > 0 {
      var potentialNames: seq<string> := [];
      for i := 0 to |lines|
        invariant potentialNames == Candidates(lines[..i])
      {
        var line := lines[i];
        assert lines[..i + 1][..i] == lines[..i];
        if IsNameCandidate(line) {
          potentialNames := potentialNames + [line];
        }
      }
      assert lines[..|lines|] == lines;
      if |potentialNames| > 0 {
        name := potentialNames[0];
        name := StripHonorific(name);
        name := Strip(name);
      }
    }
  }

  // ---------------------------------------------------------------------
  // The title substitution on concrete names

  /** "Mrs." loses only its "Mr": the `Mrs` alternative is never reached. */
  lemma HonorificMrs()
    ensures StripHonorific("Mrs. Smith") == "s. Smith"
  {
    assert LitAt("Mrs. Smith", 0, "mr");
    assert RunEnd("Mrs. Smith", 2, IsSpace) == 2;
  }

  /** Nothing requires a word boundary after the title. */
  lemma HonorificInsideWord()
    ensures StripHonorific("Drake Lee") == "ake Lee"
  {
    assert !LitAt("Drake Lee", 0, "mr");
    assert !LitAt("Drake Lee", 0, "mrs");
    assert !LitAt("Drake Lee", 0, "ms");
    assert LitAt("Drake Lee", 0, "dr");
    assert RunEnd("Drake Lee", 2, IsSpace) == 2;
  }

  /** The dot and the spaces after a title go with it. */
  lemma HonorificWithDot()
    ensures StripHonorific("Dr. John Smith") == "John Smith"
  {
    assert !LitAt("Dr. John Smith", 0, "mr");
    assert !LitAt("Dr. John Smith", 0, "mrs");
    assert !LitAt("Dr. John Smith", 0, "ms");
    assert LitAt("Dr. John Smith", 0, "dr");
    assert RunEnd("Dr. John Smith", 4, IsSpace) == 4;
  }

  /** A name that starts with no title is left alone. */
  lemma HonorificAbsent()
    ensures StripHonorific("Anita Rao") == "Anita Rao"
  {
    assert FirstHonorific("Anita Rao", 0) == None;
    assert "Anita Rao"[0..] == "Anita Rao";
  }
}
