/**
 * `sanitizeLatex` of the OCR worker: the post-processing applied to the text
 * the recognition model generates. It trims the text, strips one math-mode
 * wrapper and a code fence, then runs a first-match-wins chain of garbage
 * detectors, each of which replaces the text by a fixed advisory message;
 * a very long text is salvaged by its first clause; otherwise trailing
 * white space and one stray trailing backslash are removed.
 * Each regular expression of the source is written out as a predicate
 * over the string.
 */
module Sanitizer {
  import opened Wrappers
  import opened JsString

  // ------------------------------------------------ the advisory messages

  const MsgUnclearStrokes: string := "Recognition unclear." + " Please try drawing with thicker strokes."
  const MsgFailedStrokes: string := "Recognition failed." + " Please redraw with clearer strokes."
  const MsgCouldNotParse: string := "Could not parse handwriting." + " Try drawing larger symbols."
  const MsgFailedClearer: string := "Recognition failed." + " Please try a clearer drawing."
  const MsgUnclearSimplify: string := "Recognition unclear." + " Please simplify your drawing."
  const MsgTooLong: string := "Output too long." + " Please draw smaller equations" + " or simpler symbols."

  const Advisories: seq<string> :=
    [MsgUnclearStrokes, MsgFailedStrokes, MsgCouldNotParse, MsgFailedClearer, MsgUnclearSimplify, MsgTooLong]

  // ------------------------------------------------------ wrapper strip

  /** One layer of math-mode wrapper: `$$..$$`, else `$..$`, else `\(..\)`,
      else `\[..\]`, cut off with `substring` (which swaps its arguments when
      the text is shorter than both delimiters together). */
  function Unwrap(s: string): (r: string)
    ensures IsSlice(r, s)
  {
    if StartsWith(s, "$$") && EndsWith(s, "$$") then Substring(s, 2, |s| - 2)
    else if StartsWith(s, "$") && EndsWith(s, "$") then Substring(s, 1, |s| - 1)
    else if StartsWith(s, "\\(") && EndsWith(s, "\\)") then Substring(s, 2, |s| - 2)
    else if StartsWith(s, "\\[") && EndsWith(s, "\\]") then Substring(s, 2, |s| - 2)
    else SliceOfItself(s); s
  }

  /** `replace(/^```latex/, '')` followed by `replace(/```$/, '')`. */
  function StripFence(s: string): (r: string)
    ensures IsSlice(r, s)
  {
    var t := if StartsWith(s, "```latex") then s[8..] else s;
    var r := if EndsWith(t, "```") then t[..|t| - 3] else t;
    assert r == s[|s| - |t|..|s| - |t| + |r|];
    r
  }

  /** The text the detectors look at: trimmed, unwrapped, unfenced. */
  function Prepare(text: string): (clean: string)
    ensures IsSlice(clean, Trim(text))
  {
    var t := Trim(text);
    var u := Unwrap(t);
    var clean := StripFence(u);
    SliceOfSlice(clean, u, t);
    clean
  }

  // ----------------------------------------------------------- detectors

  /** `n` copies of `u`, back to back. */
  function Repeat(u: string, n: nat): string
  {
    if n == 0 then [] else u + Repeat(u, n - 1)
  }

  predicate NoLineTerminator(u: string) {
    forall j | 0 <= j < |u| :: !IsLineTerminator(u[j])
  }

  /** At `i`, a unit of `k >= 3` characters other than line terminators is
      written four times back to back. */
  predicate RepeatsAt(s: string, i: nat, k: nat) {
    3 <= k && i + 4 * k <= |s|
    && NoLineTerminator(s[i..i + k])
    && s[i..i + 4 * k] == Repeat(s[i..i + k], 4)
  }

  /** `/(.{3,})\1{3,}/.test(s)`. */
  predicate HasRepeatedUnit(s: string) {
    exists i: nat, k: nat | i <= |s| && k <= |s| :: RepeatsAt(s, i, k)
  }

  predicate BackslashRunAt(s: string, i: nat) {
    i + 4 <= |s| && s[i..i + 4] == "\\\\\\\\"
  }

  /** `/\\{4,}/.test(s)`: four backslashes in a row. */
  predicate HasBackslashRun(s: string) {
    exists i: nat | i <= |s| :: BackslashRunAt(s, i)
  }

  /** The class `[{}\\^_]`. */
  predicate IsStructural(c: char) {
    c == '{' || c == '}' || c == '\\' || c == '^' || c == '_'
  }

  /** The class `[a-zA-Z0-9]`. */
  predicate IsAlnum(c: char) {
    ('a' <= c <= 'z') || ('A' <= c <= 'Z') || ('0' <= c <= '9')
  }

  /** The length of the array `match(/[..]/g)` returns for a character class. */
  function CountIf(s: string, p: char -> bool): (n: nat)
    ensures n <= |s|
    ensures n == 0 <==> forall j | 0 <= j < |s| :: !p(s[j])
  {
    if s == [] then 0 else (if p(s[0]) then 1 else 0) + CountIf(s[1..], p)
  }

  /** Lines 60-62: more than twice as many structural characters as letters and digits. */
  predicate TooManyStructural(s: string) {
    CountIf(s, IsStructural) > CountIf(s, IsAlnum) * 2 && |s| > 20
  }

  /** Lines 67-69: a coordinate pair in a long text split into more than three parts by `=`. */
  predicate CoordinateHallucination(s: string) {
    Includes(s, "(x,y)") && |s| > 50 && |Split(s, "=")| > 3
  }

  /** Line 73: more than four parts when split on `\text{`. */
  predicate TextHallucination(s: string) {
    Includes(s, "\\text{") && |Split(s, "\\text{")| > 4
  }

  // -------------------------------------------------------------- salvage

  /** The class `[.,;]`. */
  predicate IsDelimiter(c: char) {
    c == '.' || c == ',' || c == ';'
  }

  /** A match of `/[.,;]|\\\\|\\text/` starts at `i`. */
  predicate BreaksAt(s: string, i: nat) {
    i < |s| && (IsDelimiter(s[i]) || OccursAt(s, "\\\\", i) || OccursAt(s, "\\text", i))
  }

  /** Where the first part of `s.split(/[.,;]|\\\\|\\text/)` ends. */
  function FirstBreak(s: string, from: nat): (r: nat)
    requires from <= |s|
    ensures from <= r <= |s|
    ensures r < |s| ==> BreaksAt(s, r)
    ensures forall i | from <= i < r :: !BreaksAt(s, i)
    decreases |s| - from
  {
    if from == |s| || BreaksAt(s, from) then from else FirstBreak(s, from + 1)
  }

  /** Lines 78-85, for a text over 500 characters: its first clause, trimmed,
      if that has 6 to 199 characters, else the "too long" message. */
  function Salvage(s: string): (r: string)
    ensures r == MsgTooLong || (5 < |r| < 200 && Trimmed(r))
  {
    var first := Trim(s[..FirstBreak(s, 0)]);
    if 5 < |first| < 200 then first else MsgTooLong
  }

  // ------------------------------------------------------ trailing strip

  /** `t` matches `\s*\\?` as a whole. */
  predicate IsTrailingArtifact(t: string) {
    forall j | 0 <= j < |t| :: IsSpace(t[j]) || (j == |t| - 1 && t[j] == '\\')
  }

  /** The leftmost position at which `/\s*\\?$/` matches. */
  function ArtifactStart(s: string, from: nat): (p: nat)
    requires from <= |s|
    ensures from <= p <= |s| && IsTrailingArtifact(s[p..])
    ensures forall q | from <= q < p :: !IsTrailingArtifact(s[q..])
    decreases |s| - from
  {
    if IsTrailingArtifact(s[from..]) then from else ArtifactStart(s, from + 1)
  }

  /** Lines 88 and 90: `replace(/\s*\\?$/g, '')`, then `trim` twice. */
  function StripArtifacts(s: string): (r: string)
    ensures Trimmed(r)
  {
    Trim(Trim(s[..ArtifactStart(s, 0)]))
  }

  // ---------------------------------------------------------- the chain

  /** The garbage detectors of lines 49-75 in their order: the message of the
      first one that fires, or `None` when none does. */
  function Verdict(clean: string): (v: Option<string>)
    ensures v.Some? ==> v.value in Advisories
  {
    if HasRepeatedUnit(clean) then Some(MsgUnclearStrokes)
    else if HasBackslashRun(clean) then Some(MsgFailedStrokes)
    else if TooManyStructural(clean) then Some(MsgCouldNotParse)
    else if CoordinateHallucination(clean) then Some(MsgFailedClearer)
    else if TextHallucination(clean) then Some(MsgUnclearSimplify)
    else None
  }

  /** `sanitizeLatex`. Whatever the branch, nothing it returns starts or
      ends with white space. */
  function SanitizeLatex(text: string): (r: string)
    ensures Trimmed(r)
  {
    AdvisoriesTrimmed();
    var clean := Prepare(text);
    match Verdict(clean)
    case Some(message) => message
    case None => if |clean| > 500 then Salvage(clean) else StripArtifacts(clean)
  }

  // ------------------------------------------------------------ lemmas

  lemma AdvisoriesTrimmed()
    ensures forall m | m in Advisories :: Trimmed(m)
  {
    assert MsgUnclearStrokes[0] == 'R' && MsgUnclearStrokes[|MsgUnclearStrokes| - 1] == '.';
    assert MsgFailedStrokes[0] == 'R' && MsgFailedStrokes[|MsgFailedStrokes| - 1] == '.';
    assert MsgCouldNotParse[0] == 'C' && MsgCouldNotParse[|MsgCouldNotParse| - 1] == '.';
    assert MsgFailedClearer[0] == 'R' && MsgFailedClearer[|MsgFailedClearer| - 1] == '.';
    assert MsgUnclearSimplify[0] == 'R' && MsgUnclearSimplify[|MsgUnclearSimplify| - 1] == '.';
    assert MsgTooLong[0] == 'O' && MsgTooLong[|MsgTooLong| - 1] == '.';
  }

  lemma StripArtifactsShape(s: string)
    ensures IsSlice(StripArtifacts(s), s) && Trimmed(StripArtifacts(s))
  {
    var head := s[..ArtifactStart(s, 0)];
    assert head == s[0..ArtifactStart(s, 0)];
    TrimIsSlice(head);
    TrimIsSlice(Trim(head));
    SliceOfSlice(Trim(head), head, s);
    SliceOfSlice(Trim(Trim(head)), Trim(head), s);
  }

  /** Every result is one of the six advisory messages or a contiguous piece
      of the trimmed model output, and no result begins or ends with white space. */
  lemma SanitizeShape(text: string)
    ensures SanitizeLatex(text) in Advisories || IsSlice(SanitizeLatex(text), Trim(text))
    ensures Trimmed(SanitizeLatex(text))
  {
    var clean := Prepare(text);
    if Verdict(clean).Some? {
      AdvisoryShape(text, clean);
    } else if |clean| > 500 {
      SalvageShape(text, clean);
    } else {
      StripShape(text, clean);
    }
  }

  lemma AdvisoryShape(text: string, clean: string)
    requires clean == Prepare(text) && Verdict(clean).Some?
    ensures SanitizeLatex(text) in Advisories && Trimmed(SanitizeLatex(text))
  {
    AdvisoriesTrimmed();
  }

  lemma SalvageShape(text: string, clean: string)
    requires clean == Prepare(text) && Verdict(clean).None? && |clean| > 500
    ensures SanitizeLatex(text) in Advisories || IsSlice(SanitizeLatex(text), Trim(text))
    ensures Trimmed(SanitizeLatex(text))
  {
    var r := Salvage(clean);
    SanitizeSalvages(text, clean);
    SalvagedClause(clean);
    if r == MsgTooLong {
      AdvisoriesTrimmed();
      assert r == Advisories[5];
    } else {
      SliceOfSlice(r, clean, Trim(text));
    }
  }

  lemma SanitizeSalvages(text: string, clean: string)
    requires clean == Prepare(text) && Verdict(clean).None? && |clean| > 500
    ensures SanitizeLatex(text) == Salvage(clean)
  {
  }

  lemma StripShape(text: string, clean: string)
    requires clean == Prepare(text) && Verdict(clean).None? && |clean| <= 500
    ensures IsSlice(SanitizeLatex(text), Trim(text)) && Trimmed(SanitizeLatex(text))
  {
    var r := StripArtifacts(clean);
    SanitizeStrips(text, clean);
    StripArtifactsShape(clean);
    SliceOfSlice(r, clean, Trim(text));
  }

  lemma SanitizeStrips(text: string, clean: string)
    requires clean == Prepare(text) && Verdict(clean).None? && |clean| <= 500
    ensures SanitizeLatex(text) == StripArtifacts(clean)
  {
  }

  /** `$$..$$` takes priority over `$..$`: a display-math wrapper loses both its dollar pairs. */
  lemma UnwrapDisplayMath(x: string)
    ensures Unwrap("$$" + x + "$$") == x
  {
    var s := "$$" + x + "$$";
    assert s[..2] == "$$" && s[|s| - 2..] == "$$";
    assert s[2..|s| - 2] == x;
  }

  /** A single-dollar wrapper loses one dollar at each end, unless the text
      also reads as a display-math wrapper. */
  lemma UnwrapInlineMath(x: string)
    requires x != [] && !(x[0] == '$' && x[|x| - 1] == '$')
    ensures Unwrap("$" + x + "$") == x
  {
    var s := "$" + x + "$";
    assert s[..1] == "$" && s[|s| - 1..] == "$";
    assert s[1] == x[0] && s[|s| - 2] == x[|x| - 1];
    assert s[1..|s| - 1] == x;
  }

  lemma UnwrapParens(x: string)
    ensures Unwrap("\\(" + x + "\\)") == x
  {
    var s := "\\(" + x + "\\)";
    assert s[0] == '\\';
    assert s[..2] == "\\(" && s[|s| - 2..] == "\\)";
    assert s[2..|s| - 2] == x;
  }

  lemma UnwrapBrackets(x: string)
    ensures Unwrap("\\[" + x + "\\]") == x
  {
    var s := "\\[" + x + "\\]";
    assert s[0] == '\\' && s[1] == '[';
    assert s[..2] == "\\[" && s[|s| - 2..] == "\\]";
    assert s[2..|s| - 2] == x;
  }

  /** `substring` swaps its arguments, so a lone `$` or `$$` is left as it is. */
  lemma UnwrapLoneDollars()
    ensures Unwrap("$") == "$"
    ensures Unwrap("$$") == "$$"
    ensures Unwrap("$$$") == "$"
  {
    assert "$"[..1] == "$";
    assert "$$"[..2] == "$$" && "$$"[0..2] == "$$";
    assert "$$$"[..2] == "$$" && "$$$"[1..] == "$$" && "$$$"[1..2] == "$";
  }

  /** The fence prefix and suffix are each removed once. */
  lemma StripFenceOnce(x: string)
    ensures StripFence("```latex" + x + "```") == x
  {
    var s := "```latex" + x + "```";
    assert s[..8] == "```latex";
    var t := s[8..];
    assert t == x + "```";
    assert t[|t| - 3..] == "```";
    assert t[..|t| - 3] == x;
  }

  lemma {:induction false} RepeatLength(u: string, n: nat)
    ensures |Repeat(u, n)| == n * |u|
  {
    if n > 0 {
      RepeatLength(u, n - 1);
    }
  }

  lemma {:induction false} RepeatAdd(u: string, m: nat, n: nat)
    ensures Repeat(u, m + n) == Repeat(u, m) + Repeat(u, n)
  {
    if m > 0 {
      RepeatAdd(u, m - 1, n);
      assert Repeat(u, m + n) == u + Repeat(u, m - 1 + n);
    }
  }

  /** Any run of four or more copies of a unit of three or more characters
      without line terminators is caught by the repetition detector. */
  lemma RepeatedRunDetected(s: string, i: nat, u: string, n: nat)
    requires |u| >= 3 && n >= 4 && NoLineTerminator(u)
    requires i + n * |u| <= |s| && s[i..i + n * |u|] == Repeat(u, n)
    ensures HasRepeatedUnit(s)
  {
    var k := |u|;
    RepeatLength(u, n);
    RepeatLength(u, 4);
    RepeatLength(u, n - 4);
    RepeatAdd(u, 4, n - 4);
    assert Repeat(u, n)[..4 * k] == Repeat(u, 4);
    assert s[i..i + 4 * k] == s[i..i + n * k][..4 * k];
    assert Repeat(u, 4)[..k] == u;
    assert s[i..i + k] == u;
    assert RepeatsAt(s, i, k);
  }

  /** Lines 66-70: `split('=')` has more than three parts exactly when there are at least three `=`. */
  lemma CoordinateHallucinationIff(s: string)
    ensures CoordinateHallucination(s) <==> Includes(s, "(x,y)") && |s| > 50 && CountChar(s, '=') >= 3
  {
    SplitOnCharCount(s, '=');
  }

  /** `\\text{` cannot overlap itself: its backslash occurs only at the front. */
  lemma TextTagOverlapFree()
    ensures SelfOverlapFree("\\text{")
  {
    var pat := "\\text{";
    forall k | 0 < k < |pat| ensures pat[k..] != pat[..|pat| - k] {
      assert pat[k..][0] == pat[k] && pat[..|pat| - k][0] == '\\';
    }
  }

  /** Line 73: `split('\\text{')` has more than four parts exactly when
      `\\text{` occurs at least four times (and then `includes` holds too). */
  lemma TextHallucinationIff(s: string)
    ensures TextHallucination(s) <==> Occurrences(s, "\\text{") >= 4
  {
    TextTagOverlapFree();
    SplitCount(s, "\\text{");
    IncludesIffOccurs(s, "\\text{");
  }

  predicate NoDelimiter(x: string) {
    forall j | 0 <= j < |x| :: !IsDelimiter(x[j])
  }

  /** No character before the first break is a `.`, `,` or `;` ... */
  lemma HeadHasNoDelimiter(s: string)
    ensures NoDelimiter(s[..FirstBreak(s, 0)])
  {
    var p := FirstBreak(s, 0);
    forall j | 0 <= j < p ensures !IsDelimiter(s[..p][j]) {
      assert !BreaksAt(s, j);
    }
  }

  /** ... and so none of any piece of it either. */
  lemma SliceHasNoDelimiter(r: string, x: string)
    requires IsSlice(r, x) && NoDelimiter(x)
    ensures '.' !in r && ',' !in r && ';' !in r
  {
    var a, b :| 0 <= a <= b <= |x| && r == x[a..b];
    forall j | 0 <= j < |r| ensures !IsDelimiter(r[j]) {
      assert r[j] == x[a + j];
    }
  }

  /** The salvaged clause has 6 to 199 characters, has no white space at
      either end, and holds no `.`, `,` or `;`. */
  lemma SalvagedClause(s: string)
    ensures Salvage(s) == MsgTooLong
      || (6 <= |Salvage(s)| <= 199 && Trimmed(Salvage(s)) && IsSlice(Salvage(s), s)
          && '.' !in Salvage(s) && ',' !in Salvage(s) && ';' !in Salvage(s))
  {
    var r := Trim(s[..FirstBreak(s, 0)]);
    if 5 < |r| < 200 {
      ClauseFacts(s, r);
    }
  }

  lemma ClauseFacts(s: string, r: string)
    requires r == Trim(s[..FirstBreak(s, 0)])
    ensures IsSlice(r, s) && '.' !in r && ',' !in r && ';' !in r
  {
    ClauseIsSlice(s, r);
    HeadHasNoDelimiter(s);
    TrimIsSlice(s[..FirstBreak(s, 0)]);
    SliceHasNoDelimiter(r, s[..FirstBreak(s, 0)]);
  }

  lemma ClauseIsSlice(s: string, r: string)
    requires r == Trim(s[..FirstBreak(s, 0)])
    ensures IsSlice(r, s)
  {
    var head := s[..FirstBreak(s, 0)];
    assert head == s[0..FirstBreak(s, 0)];
    TrimIsSlice(head);
    SliceOfSlice(r, head, s);
  }

  /** A long text whose first delimiter is a comma
      at position p yields the text before it, when that is trimmed and of
      salvageable length. */
  lemma SalvageUpToComma(s: string, p: nat)
    requires p < |s| && s[p] == ','
    requires forall i | 0 <= i < p :: !BreaksAt(s, i)
    requires 5 < p < 200 && Trimmed(s[..p])
    ensures Salvage(s) == s[..p]
  {
    assert BreaksAt(s, p);
    assert FirstBreak(s, 0) == p;
    TrimOfTrimmed(s[..p]);
  }

  /** Trailing white space and one trailing backslash after it are removed. */
  lemma StripTrailingBackslash(x: string, w: string)
    requires x != [] && Trimmed(x)
    requires forall j | 0 <= j < |w| :: IsSpace(w[j])
    ensures StripArtifacts(x + w + "\\") == x
  {
    var s := x + w + "\\";
    forall q | 0 <= q < |x| ensures !IsTrailingArtifact(s[q..]) {
      assert s[q..][|x| - 1 - q] == x[|x| - 1];
    }
    assert s[|x|..] == w + "\\";
    assert IsTrailingArtifact(s[|x|..]);
    assert ArtifactStart(s, 0) == |x|;
    assert s[..|x|] == x;
    TrimOfTrimmed(x);
  }

  /** Trailing white space alone is removed, when the text before it does not end in a backslash. */
  lemma StripTrailingSpace(x: string, w: string)
    requires x != [] && Trimmed(x) && x[|x| - 1] != '\\'
    requires forall j | 0 <= j < |w| :: IsSpace(w[j])
    ensures StripArtifacts(x + w) == x
  {
    var t := x + w;
    forall q | 0 <= q < |x| ensures !IsTrailingArtifact(t[q..]) {
      assert t[q..][|x| - 1 - q] == x[|x| - 1];
    }
    assert t[|x|..] == w;
    assert ArtifactStart(t, 0) == |x|;
    assert t[..|x|] == x;
    TrimOfTrimmed(x);
  }

  /** Only one backslash is removed: a double trailing backslash keeps one. */
  lemma StripKeepsSecondBackslash(x: string)
    requires x != [] && Trimmed(x)
    ensures StripArtifacts(x + "\\\\") == x + "\\"
  {
    var y := x + "\\";
    assert Trimmed(y);
    StripTrailingBackslash(y, []);
    assert y + [] + "\\" == x + "\\\\";
  }

  /** A short text without backslashes passes every detector. */
  lemma ShortPlainPasses(s: string)
    requires |s| < 12 && '\\' !in s
    ensures Verdict(s) == None
  {
    NotIncludesWithoutChar(s, "\\text{", 0);
    forall i: nat | i + 4 <= |s| ensures !BackslashRunAt(s, i) {
      assert s[i..i + 4][0] == s[i] && s[i] in s;
    }
  }

  /** The pipeline, step by step. */
  lemma SanitizeSteps(text: string, t: string, u: string, clean: string)
    requires Trim(text) == t && Unwrap(t) == u && StripFence(u) == clean
    ensures Prepare(text) == clean
    ensures Verdict(clean).Some? ==> SanitizeLatex(text) == Verdict(clean).value
    ensures Verdict(clean).None? && |clean| <= 500 ==> SanitizeLatex(text) == StripArtifacts(clean)
  {
  }

  lemma StripFenceWithoutBacktick(s: string)
    requires '`' !in s
    ensures StripFence(s) == s
  {
    if |s| >= 8 {
      assert s[..8][0] == s[0] && s[0] in s;
    }
    if |s| >= 3 {
      assert s[|s| - 3..][0] == s[|s| - 3] && s[|s| - 3] in s;
    }
  }

  /** A text whose first two characters cannot open a wrapper is not unwrapped. */
  lemma UnwrapWithoutOpener(s: string)
    requires s != [] && s[0] != '$' && (|s| >= 2 ==> s[1] != '(' && s[1] != '[')
    ensures Unwrap(s) == s
  {
    if |s| >= 2 {
      assert s[..2][1] == s[1];
    }
    assert s[..1][0] == s[0];
  }

  /** A short formula without backslashes or backticks, once unwrapped, is the result. */
  lemma ShortFormulaResult(s: string, u: string, x: string)
    requires Trim(s) == s && Unwrap(s) == u && StripFence(u) == x
    requires x != [] && Trimmed(x) && |x| < 12 && '\\' !in x
    ensures SanitizeLatex(s) == x
  {
    SanitizeSteps(s, s, u, x);
    ShortPlainPasses(x);
    assert x[|x| - 1] in x;
    StripTrailingSpace(x, []);
    assert x + [] == x;
  }

  /** A text with nothing to trim, no wrapper and no fence is examined as it is. */
  lemma PreparePlain(s: string)
    requires s != [] && Trimmed(s) && '`' !in s
    requires s[0] != '$' && (|s| >= 2 ==> s[1] != '(' && s[1] != '[')
    ensures Prepare(s) == s
  {
    TrimOfTrimmed(s);
    UnwrapWithoutOpener(s);
    StripFenceWithoutBacktick(s);
  }

  /** A short formula in single dollars comes back without them. */
  lemma InlineFormula(x: string)
    requires x != [] && Trimmed(x) && |x| < 12 && '\\' !in x && '`' !in x
    requires !(x[0] == '$' && x[|x| - 1] == '$')
    ensures SanitizeLatex("$" + x + "$") == x
  {
    var s := "$" + x + "$";
    TrimOfTrimmed(s);
    UnwrapInlineMath(x);
    StripFenceWithoutBacktick(x);
    ShortFormulaResult(s, x, x);
  }

  /** A short formula in `\\[ \\]` comes back without them. */
  lemma BracketFormula(x: string)
    requires x != [] && Trimmed(x) && |x| < 12 && '\\' !in x && '`' !in x
    ensures SanitizeLatex("\\[" + x + "\\]") == x
  {
    var s := "\\[" + x + "\\]";
    assert s[0] == '\\' && s[|s| - 1] == ']';
    TrimOfTrimmed(s);
    UnwrapBrackets(x);
    StripFenceWithoutBacktick(x);
    ShortFormulaResult(s, x, x);
  }

  /** A short formula in a code fence loses the fence but nothing inside it. */
  lemma FencedFormula(x: string)
    requires x != [] && Trimmed(x) && |x| < 12 && '\\' !in x
    ensures SanitizeLatex("```latex" + x + "```") == x
  {
    var s := "```latex" + x + "```";
    assert s[0] == '`' && s[1] == '`' && s[|s| - 1] == '`';
    TrimOfTrimmed(s);
    UnwrapWithoutOpener(s);
    StripFenceOnce(x);
    ShortFormulaResult(s, s, x);
  }

  /** The repetition detector comes first: a text it fires on is reported as
      unclear whatever the later detectors would say. */
  lemma RepetitionComesFirst(text: string)
    requires HasRepeatedUnit(Prepare(text))
    ensures SanitizeLatex(text) == MsgUnclearStrokes
  {
  }

  /** Four backslashes in a row are reported as a failure unless a repetition was found first. */
  lemma BackslashRunFails(text: string, i: nat)
    requires !HasRepeatedUnit(Prepare(text)) && BackslashRunAt(Prepare(text), i)
    ensures SanitizeLatex(text) == MsgFailedStrokes
  {
  }

  /** Two formulas in their usual wrappers: `$x^2$` gives `x^2` and `\\[y=mx+b\\]` gives `y=mx+b`
      (the inputs are written as concatenations of their parts). */
  lemma InlineMathExample()
    ensures SanitizeLatex("$" + "x^2" + "$") == "x^2"
  {
    InlineFormula("x^2");
  }

  lemma DisplayBracketExample()
    ensures SanitizeLatex("\\[" + "y=mx+b" + "\\]") == "y=mx+b"
  {
    BracketFormula("y=mx+b");
  }

  /** A lone dollar sign survives the whole pipeline. */
  lemma LoneDollarExample()
    ensures SanitizeLatex("$") == "$"
  {
    TrimOfTrimmed("$");
    UnwrapLoneDollars();
    StripFenceWithoutBacktick("$");
    ShortFormulaResult("$", "$", "$");
  }

  /** The wrapper is stripped before the fence, so a fenced formula keeps its dollars. */
  lemma FencedFormulaKeepsDollars()
    ensures SanitizeLatex("```latex" + "$x$" + "```") == "$x$"
  {
    FencedFormula("$x$");
  }

  /** Garbage of the kind the repetition detector is there for: a
      five-character unit written five times. */
  const FiveTimesAbcde: string := "abcde" + "abcde" + "abcde" + "abcde" + "abcde"

  lemma FiveTimesAbcdePrepared()
    ensures Prepare(FiveTimesAbcde) == FiveTimesAbcde
  {
    assert forall j | 0 <= j < |FiveTimesAbcde| :: FiveTimesAbcde[j] in "abcde";
    assert FiveTimesAbcde[0] == 'a' && FiveTimesAbcde[1] == 'b' && FiveTimesAbcde[24] == 'e';
    PreparePlain(FiveTimesAbcde);
  }

  lemma FiveTimesAbcdeRepeats()
    ensures HasRepeatedUnit(FiveTimesAbcde)
  {
    assert FiveTimesAbcde[0..25] == Repeat("abcde", 5);
    RepeatedRunDetected(FiveTimesAbcde, 0, "abcde", 5);
  }

  /** It is reported as unclear, not passed through. */
  lemma RepeatedUnitExample()
    ensures SanitizeLatex(FiveTimesAbcde) == MsgUnclearStrokes
  {
    FiveTimesAbcdePrepared();
    FiveTimesAbcdeRepeats();
    RepetitionComesFirst(FiveTimesAbcde);
  }

  const Glyphs: string := "{}^_+-"

  /** Twenty-two characters, 16 of the class `[{}\\^_]` and 6 plus and minus signs, with no letter or digit. */
  const GlyphRun: string := Glyphs + Glyphs + Glyphs + "{}^_"

  lemma GlyphRunAt()
    ensures |GlyphRun| == 22 && forall j | 0 <= j < 22 :: GlyphRun[j] == Glyphs[j % 6]
  {
  }

  lemma GlyphRunMismatch(i: nat, k: nat)
    requires 3 <= k <= 5 && i + k < 22
    ensures GlyphRun[i] != GlyphRun[i + k]
  {
    GlyphRunAt();
    assert (i + k) % 6 != i % 6;
  }

  /** A repetition at `i` with unit length `k` repeats its first character `k` later. */
  lemma RepeatsAtShift(s: string, i: nat, k: nat)
    ensures RepeatsAt(s, i, k) ==> s[i] == s[i + k]
  {
    if RepeatsAt(s, i, k) {
      var u := s[i..i + k];
      assert Repeat(u, 4) == u + (u + Repeat(u, 2));
      assert s[i..i + 4 * k][k] == Repeat(u, 4)[k];
    }
  }

  lemma GlyphNoRepeat()
    ensures !HasRepeatedUnit(GlyphRun)
  {
    GlyphRunAt();
    forall i: nat, k: nat | i <= |GlyphRun| && k <= |GlyphRun| ensures !RepeatsAt(GlyphRun, i, k) {
      RepeatsAtShift(GlyphRun, i, k);
      if 3 <= k && i + 4 * k <= |GlyphRun| {
        GlyphRunMismatch(i, k);
      }
    }
  }

  lemma GlyphRunChars()
    ensures forall j | 0 <= j < |GlyphRun| :: GlyphRun[j] in Glyphs
  {
    GlyphRunAt();
  }

  lemma GlyphRunPrepared()
    ensures Prepare(GlyphRun) == GlyphRun
  {
    GlyphRunChars();
    assert forall j | 0 <= j < |GlyphRun| :: GlyphRun[j] != '`';
    assert GlyphRun[0] == '{' && GlyphRun[1] == '}' && GlyphRun[21] == '_';
    PreparePlain(GlyphRun);
  }

  lemma GlyphRunNoBackslashRun()
    ensures !HasBackslashRun(GlyphRun)
  {
    GlyphRunChars();
    forall i: nat | i <= |GlyphRun| ensures !BackslashRunAt(GlyphRun, i) {
      if i + 4 <= |GlyphRun| {
        assert GlyphRun[i..i + 4][0] == GlyphRun[i];
      }
    }
  }

  lemma GlyphRunStructural()
    ensures TooManyStructural(GlyphRun)
  {
    GlyphRunChars();
    assert forall j | 0 <= j < |GlyphRun| :: !IsAlnum(GlyphRun[j]);
    assert IsStructural(GlyphRun[0]);
  }

  lemma GlyphRunVerdict()
    ensures Verdict(GlyphRun) == Some(MsgCouldNotParse)
  {
    GlyphNoRepeat();
    GlyphRunNoBackslashRun();
    GlyphRunStructural();
  }

  /** A model output of 22 characters, braces, carets, underscores, plus and
      minus, with no letter or digit, is reported as unparseable. */
  lemma ParseAdvisoryExample()
    ensures SanitizeLatex(GlyphRun) == MsgCouldNotParse
  {
    GlyphRunPrepared();
    GlyphRunVerdict();
  }

  /** Four backslashes are reported as a failure. */
  lemma BackslashRunExample()
    ensures SanitizeLatex("\\\\\\\\") == MsgFailedStrokes
  {
    var four := "\\\\\\\\";
    PreparePlain(four);
    assert BackslashRunAt(four, 0);
    assert !HasRepeatedUnit(four) by {
      forall i: nat, k: nat | i <= |four| && k <= |four| ensures !RepeatsAt(four, i, k) {
      }
    }
    BackslashRunFails(four, 0);
  }
}
