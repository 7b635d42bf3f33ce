/**
 * The string clean-up of object columns: trim, collapse whitespace runs,
 * expand country abbreviations (case-insensitive substring replacement),
 * then title case or sentence case. Characters are treated as ASCII.
 */
module TextNormalization {

  /** Python's `str.isspace` on ASCII: space, \t \n \v \f \r and the separators \x1c-\x1f. */
  predicate IsSpace(c: char) {
    c == ' ' || (9 <= c as int <= 13) || (28 <= c as int <= 31)
  }

  predicate IsUpper(c: char) { 'A' <= c <= 'Z' }
  predicate IsLower(c: char) { 'a' <= c <= 'z' }
  predicate IsAlpha(c: char) { IsUpper(c) || IsLower(c) }

  function ToUpper(c: char): (r: char)
    ensures IsAlpha(r) <==> IsAlpha(c)
    ensures IsSpace(r) <==> IsSpace(c)
    ensures !IsLower(r)
  {
    if IsLower(c) then (c as int - 32) as char else c
  }

  function ToLower(c: char): (r: char)
    ensures IsAlpha(r) <==> IsAlpha(c)
    ensures IsSpace(r) <==> IsSpace(c)
    ensures !IsUpper(r)
  {
    if IsUpper(c) then (c as int + 32) as char else c
  }

  function LowerAll(s: string): (r: string)
    ensures |r| == |s| && forall i :: 0 <= i < |s| ==> r[i] == ToLower(s[i])
  {
    seq(|s|, i requires 0 <= i < |s| => ToLower(s[i]))
  }

  /** No whitespace at either end and never two whitespace characters in a row. */
  predicate Tidy(s: string) {
    (s == [] || (!IsSpace(s[0]) && !IsSpace(s[|s| - 1]))) &&
    forall i :: 0 <= i < |s| - 1 ==> !(IsSpace(s[i]) && IsSpace(s[i + 1]))
  }

  /** Drops leading whitespace. */
  function TrimStart(s: string): (r: string)
    ensures |r| <= |s| && r == s[|s| - |r|..]
    ensures forall k :: 0 <= k < |s| - |r| ==> IsSpace(s[k])
    ensures r == [] || !IsSpace(r[0])
    ensures s != [] && IsSpace(s[0]) ==> |r| < |s|
  {
    if s != [] && IsSpace(s[0]) then TrimStart(s[1..]) else s
  }

  /** Drops trailing whitespace. */
  function TrimEnd(s: string): (r: string)
    ensures |r| <= |s| && r == s[..|r|]
    ensures r == [] || !IsSpace(r[|r| - 1])
  {
    if s != [] && IsSpace(s[|s| - 1]) then TrimEnd(s[..|s| - 1]) else s
  }

  /** `str.strip()`. */
  function Strip(s: string): (r: string)
    ensures r == [] || (!IsSpace(r[0]) && !IsSpace(r[|r| - 1]))
  {
    TrimEnd(TrimStart(s))
  }

  /** `re.sub(r'\s+', ' ', s)`: every run of whitespace becomes one space. */
  function CollapseSpaces(s: string): (r: string)
    ensures |r| <= |s|
    ensures s != [] ==> r != [] && (IsSpace(s[0]) ==> r[0] == ' ') && (!IsSpace(s[0]) ==> r[0] == s[0])
    ensures forall i :: 0 <= i < |r| - 1 ==> !(IsSpace(r[i]) && IsSpace(r[i + 1]))
    ensures forall i :: 0 <= i < |r| ==> IsSpace(r[i]) ==> r[i] == ' '
    decreases |s|
  {
    if s == [] then []
    else if IsSpace(s[0]) then [' '] + CollapseSpaces(TrimStart(s))
    else [s[0]] + CollapseSpaces(s[1..])
  }

  /** A non-empty string ending in a non-space keeps that last character. */
  lemma {:induction false} CollapseKeepsLast(s: string)
    requires s != [] && !IsSpace(s[|s| - 1])
    ensures var r := CollapseSpaces(s); r != [] && r[|r| - 1] == s[|s| - 1]
    decreases |s|
  {
    if IsSpace(s[0]) {
      var t := TrimStart(s);
      assert t != [] && t[|t| - 1] == s[|s| - 1];
      CollapseKeepsLast(t);
    } else if |s| > 1 {
      CollapseKeepsLast(s[1..]);
    }
  }

  /** Trimming then collapsing leaves a tidy string. */
  lemma StripThenCollapseIsTidy(s: string)
    ensures Tidy(CollapseSpaces(Strip(s)))
  {
    var t := Strip(s);
    if t != [] {
      CollapseKeepsLast(t);
    }
  }

  /** The lower-case pattern occurs at position `i`, ignoring the case of `s`. */
  predicate MatchesAt(s: string, i: nat, pat: string) {
    i + |pat| <= |s| && forall k :: 0 <= k < |pat| ==> ToLower(s[i + k]) == pat[k]
  }

  /**
   * `Series.str.replace(pat, rep, case=False, regex=False)` from position `i`:
   * scanning left to right, each occurrence is replaced and the scan resumes
   * after it. Any substring matches, not only whole words.
   */
  function ReplaceFrom(s: string, pat: string, rep: string, i: nat): string
    requires |pat| > 0
    decreases |s| - i
  {
    if i >= |s| then []
    else if MatchesAt(s, i, pat) then rep + ReplaceFrom(s, pat, rep, i + |pat|)
    else [s[i]] + ReplaceFrom(s, pat, rep, i + 1)
  }

  function ReplaceIgnoreCase(s: string, pat: string, rep: string): string
    requires |pat| > 0
  {
    ReplaceFrom(s, pat, rep, 0)
  }

  /** Without an occurrence the string is unchanged. */
  lemma {:induction false} NoMatchUnchanged(s: string, pat: string, rep: string, i: nat)
    requires |pat| > 0 && i <= |s|
    requires forall j :: i <= j < |s| ==> !MatchesAt(s, j, pat)
    ensures ReplaceFrom(s, pat, rep, i) == s[i..]
    decreases |s| - i
  {
    if i < |s| {
      NoMatchUnchanged(s, pat, rep, i + 1);
      assert s[i..] == [s[i]] + s[i + 1..];
    }
  }

  /** A replacement text that cannot break tidiness where it is spliced in. */
  predicate TidyReplacement(rep: string) {
    rep != [] && Tidy(rep)
  }

  /**
   * Replacing with a tidy text keeps a tidy string tidy: the replacement
   * starts and ends with a non-space, so no whitespace pair appears at a
   * seam, and the copied characters keep their neighbours or gain the
   * replacement's.
   */
  lemma {:induction false} ReplaceKeepsTidy(s: string, pat: string, rep: string, i: nat)
    requires |pat| > 0 && TidyReplacement(rep) && i <= |s|
    requires forall j :: i <= j < |s| - 1 ==> !(IsSpace(s[j]) && IsSpace(s[j + 1]))
    ensures var r := ReplaceFrom(s, pat, rep, i);
      (r != [] && IsSpace(r[0]) ==> i < |s| && IsSpace(s[i])) &&
      (r != [] && IsSpace(r[|r| - 1]) ==> |s| > 0 && IsSpace(s[|s| - 1])) &&
      (forall j :: 0 <= j < |r| - 1 ==> !(IsSpace(r[j]) && IsSpace(r[j + 1])))
    decreases |s| - i
  {
    if i < |s| {
      var r := ReplaceFrom(s, pat, rep, i);
      if MatchesAt(s, i, pat) {
        var rest := ReplaceFrom(s, pat, rep, i + |pat|);
        if i + |pat| <= |s| {
          ReplaceKeepsTidy(s, pat, rep, i + |pat|);
        }
        assert r == rep + rest;
        forall j | 0 <= j < |r| - 1
          ensures !(IsSpace(r[j]) && IsSpace(r[j + 1]))
        {
          if j < |rep| - 1 {
            assert r[j] == rep[j] && r[j + 1] == rep[j + 1];
          } else if j == |rep| - 1 {
            assert r[j] == rep[|rep| - 1];
          } else {
            assert r[j] == rest[j - |rep|] && r[j + 1] == rest[j + 1 - |rep|];
          }
        }
      } else {
        var rest := ReplaceFrom(s, pat, rep, i + 1);
        ReplaceKeepsTidy(s, pat, rep, i + 1);
        assert r == [s[i]] + rest;
        forall j | 0 <= j < |r| - 1
          ensures !(IsSpace(r[j]) && IsSpace(r[j + 1]))
        {
          if j > 0 {
            assert r[j] == rest[j - 1] && r[j + 1] == rest[j];
          }
        }
      }
    }
  }

  lemma ReplaceIgnoreCaseTidy(s: string, pat: string, rep: string)
    requires |pat| > 0 && TidyReplacement(rep) && Tidy(s)
    ensures Tidy(ReplaceIgnoreCase(s, pat, rep))
  {
    ReplaceKeepsTidy(s, pat, rep, 0);
  }

  /** `_standardize_strings` on one string value. */
  function StandardizeString(s: string): string {
    var t := CollapseSpaces(Strip(s));
    var t1 := ReplaceIgnoreCase(t, "usa", "United States");
    var t2 := ReplaceIgnoreCase(t1, "uk", "United Kingdom");
    var t3 := ReplaceIgnoreCase(t2, "u.s.a.", "United States");
    ReplaceIgnoreCase(t3, "u.k.", "United Kingdom")
  }

  lemma ReplacementsAreTidy()
    ensures TidyReplacement("United States") && TidyReplacement("United Kingdom")
  {
    var a := "United States";
    var b := "United Kingdom";
    assert forall i :: 0 <= i < |a| ==> IsSpace(a[i]) ==> i == 6;
    assert forall i :: 0 <= i < |b| ==> IsSpace(b[i]) ==> i == 6;
  }

  /** A standardized string is tidy: no whitespace at the ends, no whitespace run. */
  lemma StandardizedIsTidy(s: string)
    ensures Tidy(StandardizeString(s))
  {
    var t := CollapseSpaces(Strip(s));
    StripThenCollapseIsTidy(s);
    ReplacementsAreTidy();
    var t1 := ReplaceIgnoreCase(t, "usa", "United States");
    ReplaceIgnoreCaseTidy(t, "usa", "United States");
    var t2 := ReplaceIgnoreCase(t1, "uk", "United Kingdom");
    ReplaceIgnoreCaseTidy(t1, "uk", "United Kingdom");
    var t3 := ReplaceIgnoreCase(t2, "u.s.a.", "United States");
    ReplaceIgnoreCaseTidy(t2, "u.s.a.", "United States");
    ReplaceIgnoreCaseTidy(t3, "u.k.", "United Kingdom");
    assert StandardizeString(s) == ReplaceIgnoreCase(t3, "u.k.", "United Kingdom");
  }

  /** `str.capitalize()`: the first character upper case, every other one lower case. */
  function Capitalize(s: string): (r: string)
    ensures |r| == |s|
    ensures forall i :: 0 <= i < |s| ==> r[i] == (if i == 0 then ToUpper(s[i]) else ToLower(s[i]))
  {
    seq(|s|, i requires 0 <= i < |s| => if i == 0 then ToUpper(s[i]) else ToLower(s[i]))
  }

  /** Position `i` starts a word: it is first or follows a non-letter. */
  predicate StartsWord(s: string, i: nat)
    requires i < |s|
  {
    i == 0 || !IsAlpha(s[i - 1])
  }

  /** `str.title()`: a letter that starts a word upper case, every other letter lower case. */
  function Title(s: string): (r: string)
    ensures |r| == |s|
    ensures forall i :: 0 <= i < |s| ==> r[i] == (if StartsWord(s, i) then ToUpper(s[i]) else ToLower(s[i]))
  {
    seq(|s|, i requires 0 <= i < |s| => if StartsWord(s, i) then ToUpper(s[i]) else ToLower(s[i]))
  }

  lemma UpperLowerFixpoints(c: char)
    ensures ToUpper(ToUpper(c)) == ToUpper(c) && ToLower(ToLower(c)) == ToLower(c)
    ensures ToUpper(ToLower(c)) == ToUpper(c) && ToLower(ToUpper(c)) == ToLower(c)
  {
  }

  /** Title case is idempotent: the word starts of the result are those of the input. */
  lemma TitleIdempotent(s: string)
    ensures Title(Title(s)) == Title(s)
  {
    var t := Title(s);
    forall i | 0 <= i < |s|
      ensures Title(t)[i] == t[i]
    {
      UpperLowerFixpoints(s[i]);
      assert StartsWord(t, i) <==> StartsWord(s, i);
    }
  }

  lemma CapitalizeIdempotent(s: string)
    ensures Capitalize(Capitalize(s)) == Capitalize(s)
  {
    var t := Capitalize(s);
    forall i | 0 <= i < |s|
      ensures Capitalize(t)[i] == t[i]
    {
      UpperLowerFixpoints(s[i]);
    }
  }

  /** Changing case never turns a whitespace character into another, so tidiness survives. */
  lemma CaseKeepsTidy(s: string)
    requires Tidy(s)
    ensures Tidy(Title(s)) && Tidy(Capitalize(s))
  {
  }

  predicate Contains(s: string, w: string) {
    exists i :: 0 <= i <= |s| && w <= s[i..]
  }

  /** `_standardize_case`'s choice: title case when the lower-cased column name mentions name, title or category. */
  predicate UsesTitleCase(columnName: string) {
    var n := LowerAll(columnName);
    columnName != [] && (Contains(n, "name") || Contains(n, "title") || Contains(n, "category"))
  }

  /** `_standardize_case` on one string value of the column `columnName`. */
  function StandardizeCase(columnName: string, s: string): (r: string)
    ensures |r| == |s|
    ensures UsesTitleCase(columnName) ==> r == Title(s)
    ensures !UsesTitleCase(columnName) ==> r == Capitalize(s)
  {
    if UsesTitleCase(columnName) then Title(s) else Capitalize(s)
  }

  /** The full clean-up of one string: tidy, and a fixpoint of the case step. */
  function NormalizeText(columnName: string, s: string): (r: string)
    ensures Tidy(r)
    ensures StandardizeCase(columnName, r) == r
  {
    var t := StandardizeString(s);
    StandardizedIsTidy(s);
    CaseKeepsTidy(t);
    TitleIdempotent(t);
    CapitalizeIdempotent(t);
    StandardizeCase(columnName, t)
  }

  /** No match starts where the lowered character differs from the pattern's first. */
  lemma FirstCharMismatch(s: string, j: nat, pat: string)
    requires j < |s| && |pat| > 0 && ToLower(s[j]) != pat[0]
    ensures !MatchesAt(s, j, pat)
  {
    assert s[j + 0] == s[j];
  }

  /** The substitution is not whole-word: "Ukraine" loses its "Uk". */
  lemma SubstringQuirk()
    ensures ReplaceIgnoreCase("Ukraine", "uk", "United Kingdom") == "United Kingdomraine"
  {
    var s := "Ukraine";
    var rep := "United Kingdom";
    assert MatchesAt(s, 0, "uk");
    assert ReplaceFrom(s, "uk", rep, 0) == rep + ReplaceFrom(s, "uk", rep, 2);
    NoUkInRaine();
    NoMatchUnchanged(s, "uk", rep, 2);
    assert s[2..] == "raine";
  }

  lemma NoUkInRaine()
    ensures forall j :: 2 <= j < |"Ukraine"| ==> !MatchesAt("Ukraine", j, "uk")
  {
    var s := "Ukraine";
    forall j | 2 <= j < |s|
      ensures !MatchesAt(s, j, "uk")
    {
      assert s[j] in "raine" && !IsUpper(s[j]);
      FirstCharMismatch(s, j, "uk");
    }
  }
}
