/**
 * The text handed to KaTeX for the live preview (components/FormulaTool.tsx:68):
 * one leading math delimiter and one trailing one are removed from the LaTeX,
 * then the result is trimmed.
 *
 * The leading pattern tries its alternatives `$`, `\[`, `\(`, `$$` in that
 * order at the start of the string, so `$$` is never chosen: a single `$`
 * already matches. The trailing pattern is anchored at the end, and the
 * leftmost match wins, so ` $$` (three characters, with the space) beats
 * `\]` and `\)`, which beat `$`. The delimiters are recognised character by
 * character below; each test is `startsWith`/`endsWith` of the token.
 */
module Preview {
  import opened JsString

  predicate StartsWithDollar(s: string) {
    |s| >= 1 && s[0] == '$'
  }

  /** `\[` or `\(`. */
  predicate StartsWithOpenBracket(s: string) {
    |s| >= 2 && s[0] == '\\' && (s[1] == '[' || s[1] == '(')
  }

  predicate EndsWithDollar(s: string) {
    |s| >= 1 && s[|s| - 1] == '$'
  }

  /** `\]` or `\)`. */
  predicate EndsWithCloseBracket(s: string) {
    |s| >= 2 && s[|s| - 2] == '\\' && (s[|s| - 1] == ']' || s[|s| - 1] == ')')
  }

  predicate EndsWithSpaceDollar(s: string) {
    |s| >= 2 && s[|s| - 2] == ' ' && s[|s| - 1] == '$'
  }

  /** ` $$`, with the space. */
  predicate EndsWithSpaceDoubleDollar(s: string) {
    |s| >= 3 && s[|s| - 3] == ' ' && s[|s| - 2] == '$' && s[|s| - 1] == '$'
  }

  /** The delimiter removed at the start of the text, as written: a suffix of
      the text, shorter by the length of the token that was found. */
  function StripLeading(s: string): (r: string)
    ensures |r| <= |s| && r == s[|s| - |r|..]
    ensures |s| - |r| == if StartsWithDollar(s) then 1 else if StartsWithOpenBracket(s) then 2 else 0
  {
    if StartsWithDollar(s) then s[1..]
    else if StartsWithOpenBracket(s) then s[2..]
    else s
  }

  /** The delimiter removed at the end of the text, as written: a prefix of
      the text, shorter by the length of the token that was found. */
  function StripTrailing(s: string): (r: string)
    ensures |r| <= |s| && r == s[..|r|]
    ensures |s| - |r| ==
      if EndsWithSpaceDoubleDollar(s) then 3
      else if EndsWithCloseBracket(s) then 2
      else if EndsWithDollar(s) then 1
      else 0
  {
    if EndsWithSpaceDoubleDollar(s) then s[..|s| - 3]
    else if EndsWithCloseBracket(s) then s[..|s| - 2]
    else if EndsWithDollar(s) then s[..|s| - 1]
    else s
  }

  /** Both delimiters removed, before trimming. */
  function Stripped(latex: string): (r: string)
    ensures |r| <= |latex|
  {
    StripTrailing(StripLeading(latex))
  }

  /** Line 68 as written: the text handed to KaTeX. */
  function PreviewText(latex: string): (r: string)
    ensures IsSlice(r, latex) && Trimmed(r)
  {
    StrippedIsSlice(latex);
    TrimIsSlice(Stripped(latex));
    SliceOfSlice(Trim(Stripped(latex)), Stripped(latex), latex);
    Trim(Stripped(latex))
  }

  // ------------------------------------------------------------ lemmas

  /** At most two characters go at the front and three at the back, before
      trimming: one token at each end and nothing from the middle. */
  lemma StrippedIsSlice(latex: string)
    ensures exists a, b | 0 <= a <= 2 && a <= b && |latex| - 3 <= b <= |latex| :: Stripped(latex) == latex[a..b]
    ensures IsSlice(Stripped(latex), latex)
  {
    var u := StripLeading(latex);
    var v := StripTrailing(u);
    var a := |latex| - |u|;
    var b := a + |v|;
    assert v == latex[a..b];
  }

  lemma LeadDollar(x: string)
    ensures StripLeading("$" + x) == x
  {
    var s := "$" + x;
    assert s[0] == '$' && s[1..] == x;
  }

  lemma LeadBracket(x: string, open: string)
    requires open == "\\[" || open == "\\("
    ensures StripLeading(open + x) == x
  {
    var s := open + x;
    assert s[0] == '\\' && s[1] == open[1] && s[2..] == x;
  }

  lemma TrailBracket(x: string, close: string)
    requires close == "\\]" || close == "\\)"
    ensures StripTrailing(x + close) == x
  {
    var s := x + close;
    assert s[|s| - 2] == '\\' && s[|s| - 1] == close[1] && s[..|x|] == x;
  }

  lemma TrailDollar(x: string)
    requires !EndsWithSpaceDollar(x)
    ensures StripTrailing(x + "$") == x
  {
    var s := x + "$";
    assert s[|s| - 1] == '$' && s[..|x|] == x;
    if |x| >= 2 {
      assert s[|s| - 3] == x[|x| - 2] && s[|s| - 2] == x[|x| - 1];
    }
  }

  /** `\[ … \]` and `\( … \)` are unwrapped. */
  lemma DisplayBracketsUnwrapped(x: string)
    ensures PreviewText("\\[" + x + "\\]") == Trim(x)
    ensures PreviewText("\\(" + x + "\\)") == Trim(x)
  {
    LeadBracket(x + "\\]", "\\[");
    LeadBracket(x + "\\)", "\\(");
    assert "\\[" + x + "\\]" == "\\[" + (x + "\\]");
    assert "\\(" + x + "\\)" == "\\(" + (x + "\\)");
    TrailBracket(x, "\\]");
    TrailBracket(x, "\\)");
  }

  /** `$ … $` is unwrapped unless the formula ends with a space and a dollar. */
  lemma InlineDollarsUnwrapped(x: string)
    requires !EndsWithSpaceDollar(x)
    ensures PreviewText("$" + x + "$") == Trim(x)
  {
    LeadDollar(x + "$");
    assert "$" + x + "$" == "$" + (x + "$");
    TrailDollar(x);
  }

  /** As written, a `$$ … $$` formula keeps one dollar on each side: the
      leading `$$` alternative is shadowed by `$`, and the trailing ` $$`
      needs a space in front. */
  lemma DoubleDollarsAsWritten(x: string)
    requires x == [] || x[|x| - 1] != ' '
    ensures Stripped("$$" + x + "$$") == "$" + x + "$"
    ensures PreviewText("$$" + x + "$$") == "$" + x + "$"
  {
    var y := "$" + x + "$";
    LeadDollar(y + "$");
    assert "$$" + x + "$$" == "$" + (y + "$");
    DollarWrapped(x);
    TrailDollar(y);
    TrimOfTrimmed(y);
  }

  lemma DollarWrapped(x: string)
    requires x == [] || x[|x| - 1] != ' '
    ensures var y := "$" + x + "$"; !EndsWithSpaceDollar(y) && Trimmed(y)
  {
    var y := "$" + x + "$";
    assert y[|y| - 2] == if x == [] then '$' else x[|x| - 1];
    assert y[0] == '$' && y[|y| - 1] == '$';
  }

  /** The concrete case: the preview of `$$x$$` is handed `$x$`. */
  lemma DoubleDollarsExample()
    ensures PreviewText("$$" + "x" + "$$") == "$" + "x" + "$"
  {
    DoubleDollarsAsWritten("x");
  }

  // ------------------------------------------------------------ intended

  predicate StartsWithDoubleDollar(s: string) {
    |s| >= 2 && s[0] == '$' && s[1] == '$'
  }

  predicate EndsWithDoubleDollar(s: string) {
    |s| >= 2 && s[|s| - 2] == '$' && s[|s| - 1] == '$'
  }

  /** The leading strip with `$$` tried before `$`. */
  function StripLeadingIntended(s: string): (r: string)
    ensures |r| <= |s| && r == s[|s| - |r|..]
    ensures |s| - |r| ==
      if StartsWithDoubleDollar(s) || StartsWithOpenBracket(s) then 2
      else if StartsWithDollar(s) then 1
      else 0
  {
    if StartsWithDoubleDollar(s) then s[2..]
    else if StartsWithDollar(s) then s[1..]
    else if StartsWithOpenBracket(s) then s[2..]
    else s
  }

  /** The trailing strip with `$$` matched whether or not a space precedes it. */
  function StripTrailingIntended(s: string): (r: string)
    ensures |r| <= |s| && r == s[..|r|]
    ensures |s| - |r| ==
      if EndsWithDoubleDollar(s) || EndsWithCloseBracket(s) then 2
      else if EndsWithDollar(s) then 1
      else 0
  {
    if EndsWithDoubleDollar(s) then s[..|s| - 2]
    else if EndsWithDollar(s) then s[..|s| - 1]
    else if EndsWithCloseBracket(s) then s[..|s| - 2]
    else s
  }

  function StrippedIntended(latex: string): (r: string)
    ensures |r| <= |latex|
  {
    StripTrailingIntended(StripLeadingIntended(latex))
  }

  function PreviewTextIntended(latex: string): (r: string)
    ensures Trimmed(r)
  {
    Trim(StrippedIntended(latex))
  }

  lemma LeadDoubleDollar(x: string)
    ensures StripLeadingIntended("$$" + x) == x
  {
    var s := "$$" + x;
    assert s[0] == '$' && s[1] == '$' && s[2..] == x;
  }

  lemma TrailDoubleDollar(x: string)
    ensures StripTrailingIntended(x + "$$") == x
  {
    var s := x + "$$";
    assert s[|s| - 2] == '$' && s[|s| - 1] == '$' && s[..|x|] == x;
  }

  /** With the intended order every `$$ … $$` formula is unwrapped. */
  lemma DoubleDollarsIntended(x: string)
    ensures StrippedIntended("$$" + x + "$$") == x
    ensures PreviewTextIntended("$$" + x + "$$") == Trim(x)
  {
    LeadDoubleDollar(x + "$$");
    assert "$$" + x + "$$" == "$$" + (x + "$$");
    TrailDoubleDollar(x);
  }

  /** ... and so is every `$ … $` formula that has no dollar of its own at either end. */
  lemma InlineDollarsIntended(x: string)
    requires x != [] && x[0] != '$' && x[|x| - 1] != '$'
    ensures StrippedIntended("$" + x + "$") == x
    ensures PreviewTextIntended("$" + x + "$") == Trim(x)
  {
    var s := "$" + x + "$";
    var u := x + "$";
    assert s[0] == '$' && s[1] == x[0] && s[1..] == u;
    assert u[|u| - 1] == '$' && u[|u| - 2] == x[|x| - 1] && u[..|x|] == x;
  }
}
