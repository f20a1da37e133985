/**
 * The pieces of JavaScript's String semantics that the sanitizer and the
 * component rely on: `trim`, `substring`, `startsWith`/`endsWith`,
 * `indexOf`/`includes` and `split` with a string separator.
 * A `string` stands for a JavaScript string, one `char` per character; for
 * text within the Basic Multilingual Plane that is one per UTF-16 code unit.
 */
module JsString {
  import opened Wrappers

  /** The WhiteSpace and LineTerminator code points of ECMAScript:
      what `trim` removes and what `\s` matches in a regular expression. */
  predicate IsSpace(c: char) {
    c == '\t' || c == '\n' || c == '\U{000B}' || c == '\U{000C}' || c == '\r' || c == ' '
    || c == '\U{00A0}' || c == '\U{1680}' || ('\U{2000}' <= c <= '\U{200A}')
    || c == '\U{2028}' || c == '\U{2029}' || c == '\U{202F}' || c == '\U{205F}'
    || c == '\U{3000}' || c == '\U{FEFF}'
  }

  /** The characters that `.` in a regular expression does not match. */
  predicate IsLineTerminator(c: char) {
    c == '\n' || c == '\r' || c == '\U{2028}' || c == '\U{2029}'
  }

  /** `t` is a contiguous piece of `s`. */
  ghost predicate IsSlice(t: string, s: string) {
    exists a, b | 0 <= a <= b <= |s| :: t == s[a..b]
  }

  lemma {:induction false} SliceOfSlice(t: string, u: string, s: string)
    requires IsSlice(t, u) && IsSlice(u, s)
    ensures IsSlice(t, s)
  {
    var a, b :| 0 <= a <= b <= |u| && t == u[a..b];
    var c, d :| 0 <= c <= d <= |s| && u == s[c..d];
    assert |u| == d - c;
    forall k | 0 <= k < b - a
      ensures u[a..b][k] == s[c + a..c + b][k]
    {
      assert u[a + k] == s[c + a + k];
    }
    assert u[a..b] == s[c + a..c + b];
  }

  lemma SliceOfItself(s: string)
    ensures IsSlice(s, s)
  {
    assert s == s[0..|s|];
  }

  predicate StartsWith(s: string, p: string) {
    |p| <= |s| && s[..|p|] == p
  }

  predicate EndsWith(s: string, p: string) {
    |p| <= |s| && s[|s| - |p|..] == p
  }

  // ---------------------------------------------------------------- trim

  function TrimStart(s: string): (r: string)
    ensures |r| <= |s| && r == s[|s| - |r|..]
    ensures forall j | 0 <= j < |s| - |r| :: IsSpace(s[j])
    ensures r == [] || !IsSpace(r[0])
  {
    if |s| > 0 && IsSpace(s[0]) then TrimStart(s[1..]) else s
  }

  function TrimEnd(s: string): (r: string)
    ensures |r| <= |s| && r == s[..|r|]
    ensures forall j | |r| <= j < |s| :: IsSpace(s[j])
    ensures r == [] || !IsSpace(r[|r| - 1])
  {
    if |s| > 0 && IsSpace(s[|s| - 1]) then TrimEnd(s[..|s| - 1]) else s
  }

  /** `r` is `s` with its leading and trailing white space removed and nothing else. */
  ghost predicate IsTrimOf(r: string, s: string) {
    exists a, b | 0 <= a <= b <= |s| ::
      r == s[a..b]
      && (forall j | 0 <= j < a :: IsSpace(s[j]))
      && (forall j | b <= j < |s| :: IsSpace(s[j]))
  }

  predicate Trimmed(s: string) {
    s == [] || (!IsSpace(s[0]) && !IsSpace(s[|s| - 1]))
  }

  /** `String.prototype.trim`. */
  lemma TrimWitness(s: string, t: string, r: string)
    requires |t| <= |s| && t == s[|s| - |t|..] && (forall j | 0 <= j < |s| - |t| :: IsSpace(s[j]))
    requires |r| <= |t| && r == t[..|r|] && (forall j | |r| <= j < |t| :: IsSpace(t[j]))
    ensures IsTrimOf(r, s)
  {
    var a, b := |s| - |t|, |s| - |t| + |r|;
    assert r == s[a..b];
    forall j | b <= j < |s| ensures IsSpace(s[j]) {
      assert s[j] == t[j - a];
    }
  }

  /** `String.prototype.trim`. */
  function Trim(s: string): (r: string)
    ensures IsTrimOf(r, s) && Trimmed(r)
  {
    var t := TrimStart(s);
    var r := TrimEnd(t);
    TrimWitness(s, t, r);
    r
  }

  lemma TrimIsSlice(s: string)
    ensures IsSlice(Trim(s), s)
  {
    var r := Trim(s);
    var a, b :| 0 <= a <= b <= |s| && r == s[a..b];
  }

  /** Trimming a string that has no white space at either end gives it back. */
  lemma TrimOfTrimmed(s: string)
    requires Trimmed(s)
    ensures Trim(s) == s
  {
  }

  lemma TrimIdempotent(s: string)
    ensures Trim(Trim(s)) == Trim(s)
  {
    TrimOfTrimmed(Trim(s));
  }

  // ----------------------------------------------------------- substring

  function Clamp(i: int, n: nat): (r: nat)
    ensures r <= n
    ensures 0 <= i <= n ==> r == i
  {
    if i < 0 then 0 else if i > n then n else i
  }

  /** `String.prototype.substring(start, end)`: both arguments are clamped to
      the string, and swapped when `start` is greater than `end`. */
  function Substring(s: string, start: int, end: int): (r: string)
    ensures 0 <= start <= end <= |s| ==> r == s[start..end]
    ensures 0 <= end <= start <= |s| ==> r == s[end..start]
    ensures IsSlice(r, s)
  {
    var a, b := Clamp(start, |s|), Clamp(end, |s|);
    if a <= b then s[a..b] else s[b..a]
  }

  // ----------------------------------------------------- indexOf, includes

  predicate OccursAt(s: string, pat: string, i: nat) {
    i + |pat| <= |s| && s[i..i + |pat|] == pat
  }

  /** `s.indexOf(pat, from)`, with `None` for the source's `-1`. */
  function IndexOf(s: string, pat: string, from: nat): (r: Option<nat>)
    requires from <= |s|
    ensures r.Some? ==> from <= r.value && OccursAt(s, pat, r.value)
    ensures r.Some? ==> forall i | from <= i < r.value :: !OccursAt(s, pat, i)
    ensures r.None? ==> forall i | from <= i <= |s| :: !OccursAt(s, pat, i)
    decreases |s| - from
  {
    if from + |pat| > |s| then None
    else if s[from..from + |pat|] == pat then Some(from)
    else IndexOf(s, pat, from + 1)
  }

  /** `s.includes(pat)`. */
  predicate Includes(s: string, pat: string) {
    IndexOf(s, pat, 0).Some?
  }

  lemma IncludesIff(s: string, pat: string)
    ensures Includes(s, pat) <==> exists i | 0 <= i <= |s| :: OccursAt(s, pat, i)
  {
  }

  /** A string in which some character of `pat` does not occur does not include `pat`. */
  lemma NotIncludesWithoutChar(s: string, pat: string, j: nat)
    requires j < |pat| && pat[j] !in s
    ensures !Includes(s, pat)
  {
    forall i | 0 <= i <= |s| ensures !OccursAt(s, pat, i) {
      if i + |pat| <= |s| {
        assert s[i..i + |pat|][j] == s[i + j];
      }
    }
  }

  // --------------------------------------------------------------- split

  /** The inverse of `split`: the parts glued back together with `sep`. */
  function Join(parts: seq<string>, sep: string): string
    requires |parts| >= 1
  {
    if |parts| == 1 then parts[0] else parts[0] + sep + Join(parts[1..], sep)
  }

  /** `s.split(sep)` for a non-empty string separator: cuts at each leftmost
      occurrence of `sep`, so that no part contains `sep` and joining the parts
      with `sep` gives `s` back. */
  function Split(s: string, sep: string): (parts: seq<string>)
    requires |sep| > 0
    ensures |parts| >= 1
    ensures Join(parts, sep) == s
    ensures forall k | 0 <= k < |parts| :: !Includes(parts[k], sep)
    ensures |parts| == 1 <==> IndexOf(s, sep, 0) == None
    ensures |parts| > 1 ==> IndexOf(s, sep, 0) == Some(|parts[0]|)
    decreases |s|
  {
    match IndexOf(s, sep, 0)
    case None => [s]
    case Some(i) =>
      var head, rest := s[..i], s[i + |sep|..];
      assert s == head + sep + rest by {
        assert s[i..i + |sep|] == sep;
      }
      assert !Includes(head, sep) by {
        forall j | 0 <= j <= |head| ensures !OccursAt(head, sep, j) {
          if OccursAt(head, sep, j) {
            assert head[j..j + |sep|] == s[j..j + |sep|];
            assert OccursAt(s, sep, j);
            assert false;
          }
        }
      }
      var parts := [head] + Split(rest, sep);
      assert parts[1..] == Split(rest, sep);
      parts
  }

  function CountChar(s: string, c: char): (n: nat)
    ensures n <= |s|
    ensures n == 0 <==> c !in s
  {
    if s == [] then 0 else (if s[0] == c then 1 else 0) + CountChar(s[1..], c)
  }

  lemma {:induction false} CountCharConcat(a: string, b: string, c: char)
    ensures CountChar(a + b, c) == CountChar(a, c) + CountChar(b, c)
  {
    if a != [] {
      assert (a + b)[1..] == a[1..] + b;
      CountCharConcat(a[1..], b, c);
    } else {
      assert a + b == b;
    }
  }

  /** Splitting on a one-character separator gives one more part than the
      separator has occurrences. */
  lemma {:induction false} SplitOnCharCount(s: string, c: char)
    ensures |Split(s, [c])| == CountChar(s, c) + 1
    decreases |s|
  {
    match IndexOf(s, [c], 0)
    case None =>
      forall j | 0 <= j < |s| ensures s[j] != c {
        assert !OccursAt(s, [c], j);
        assert s[j..j + 1][0] == s[j];
      }
    case Some(i) =>
      var head, rest := s[..i], s[i + 1..];
      assert s == head + [c] + rest by {
        assert s[i..i + 1] == [c];
      }
      forall j | 0 <= j < |head| ensures head[j] != c {
        assert !OccursAt(s, [c], j);
        assert s[j..j + 1][0] == s[j];
      }
      CountCharConcat(head + [c], rest, c);
      CountCharConcat(head, [c], c);
      SplitOnCharCount(rest, c);
  }

  /** Each cut of `split` is at the leftmost occurrence of the separator in
      what is left of the text: joining the parts from `k` on gives a text
      whose first occurrence ends part `k`. */
  lemma {:induction false} SplitCutsLeftmost(s: string, sep: string, k: nat)
    requires |sep| > 0 && k + 1 < |Split(s, sep)|
    ensures var parts := Split(s, sep); IndexOf(Join(parts[k..], sep), sep, 0) == Some(|parts[k]|)
    decreases k
  {
    var parts := Split(s, sep);
    if k == 0 {
      assert parts[0..] == parts;
    } else {
      var i := IndexOf(s, sep, 0).value;
      var rest := s[i + |sep|..];
      assert parts[1..] == Split(rest, sep);
      SplitCutsLeftmost(rest, sep, k - 1);
      assert parts[k..] == Split(rest, sep)[k - 1..];
    }
  }

  // --------------------------------------------------------- occurrences

  /** The number of positions at or after `from` where `pat` occurs. */
  function OccurrencesFrom(s: string, pat: string, from: nat): nat
    decreases |s| + 1 - from
  {
    if from > |s| then 0
    else (if OccursAt(s, pat, from) then 1 else 0) + OccurrencesFrom(s, pat, from + 1)
  }

  /** The number of positions where `pat` occurs. */
  function Occurrences(s: string, pat: string): nat {
    OccurrencesFrom(s, pat, 0)
  }

  /** `pat` cannot overlap itself: no proper suffix of it is also a prefix of it. */
  predicate SelfOverlapFree(pat: string) {
    forall k | 0 < k < |pat| :: pat[k..] != pat[..|pat| - k]
  }

  lemma {:induction false} OccurrencesSkip(s: string, pat: string, a: nat, b: nat)
    requires a <= b <= |s| + 1
    requires forall i | a <= i < b :: !OccursAt(s, pat, i)
    ensures OccurrencesFrom(s, pat, a) == OccurrencesFrom(s, pat, b)
    decreases b - a
  {
    if a < b {
      OccurrencesSkip(s, pat, a + 1, b);
    }
  }

  lemma {:induction false} OccurrencesShift(s: string, pat: string, k: nat, j: nat)
    requires k <= |s|
    ensures OccurrencesFrom(s, pat, k + j) == OccurrencesFrom(s[k..], pat, j)
    decreases |s| + 1 - (k + j)
  {
    if k + j <= |s| {
      if k + j + |pat| <= |s| {
        assert s[k..][j..j + |pat|] == s[k + j..k + j + |pat|];
      }
      assert OccursAt(s, pat, k + j) == OccursAt(s[k..], pat, j);
      OccurrencesShift(s, pat, k, j + 1);
    }
  }

  /** Two overlapping occurrences of `pat` make a proper suffix of it a prefix of it. */
  lemma OverlapIsBorder(s: string, pat: string, i: nat, j: nat)
    requires OccursAt(s, pat, i) && i < j < i + |pat|
    ensures OccursAt(s, pat, j) ==> pat[j - i..] == pat[..|pat| - (j - i)]
  {
    if OccursAt(s, pat, j) {
      var k := j - i;
      forall m | 0 <= m < |pat| - k ensures pat[k..][m] == pat[..|pat| - k][m] {
        assert s[i..i + |pat|][k + m] == s[j..j + |pat|][m];
      }
    }
  }

  /** The occurrences of a self-overlap-free pattern: the first one, then
      those in what follows it. */
  lemma OccurrencesAfterFirst(s: string, pat: string, i: nat)
    requires |pat| > 0 && SelfOverlapFree(pat) && IndexOf(s, pat, 0) == Some(i)
    ensures Occurrences(s, pat) == 1 + Occurrences(s[i + |pat|..], pat)
  {
    OccurrencesSkip(s, pat, 0, i);
    forall j | i + 1 <= j < i + |pat| ensures !OccursAt(s, pat, j) {
      OverlapIsBorder(s, pat, i, j);
    }
    OccurrencesSkip(s, pat, i + 1, i + |pat|);
    OccurrencesShift(s, pat, i + |pat|, 0);
  }

  /** `s.includes(pat)` holds exactly when `pat` occurs somewhere. */
  lemma IncludesIffOccurs(s: string, pat: string)
    ensures Includes(s, pat) <==> Occurrences(s, pat) > 0
  {
    match IndexOf(s, pat, 0)
    case None =>
      OccurrencesSkip(s, pat, 0, |s| + 1);
    case Some(i) =>
      OccurrencesSkip(s, pat, 0, i);
  }

  /** `split` on a separator that cannot overlap itself yields one more part
      than the separator has occurrences. */
  lemma {:induction false} SplitCount(s: string, sep: string)
    requires |sep| > 0 && SelfOverlapFree(sep)
    ensures |Split(s, sep)| == Occurrences(s, sep) + 1
    decreases |s|
  {
    match IndexOf(s, sep, 0)
    case None =>
      OccurrencesSkip(s, sep, 0, |s| + 1);
    case Some(i) =>
      var rest := s[i + |sep|..];
      assert |Split(s, sep)| == 1 + |Split(rest, sep)|;
      OccurrencesAfterFirst(s, sep, i);
      SplitCount(rest, sep);
  }
}
