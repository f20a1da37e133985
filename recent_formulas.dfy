/**
 * The list of recent conversions kept beside the drawing canvas
 * (components/FormulaTool.tsx:21, 282-289, 303-305, 321-328, 605): newest
 * first, at most 20 entries, results that read as failures left out, and
 * entries removed one by one or all at once.
 */
module RecentFormulas {
  import opened Wrappers
  import opened JsString
  import Sanitizer

  /** `HistoryItem` of types.ts. The id and the timestamp come from
      `Math.random` and `Date.now`; here they are given by the caller. */
  datatype HistoryItem = HistoryItem(id: string, latex: string, timestamp: int, image: Option<string>)

  const Capacity: nat := 20

  /** `[...].slice(0, n)`: the first `n` elements, or all of them when there are fewer. */
  function Take<T>(s: seq<T>, n: nat): (r: seq<T>)
    ensures |r| == Min(|s|, n) && r == s[..|r|]
  {
    if |s| <= n then s else s[..n]
  }

  /** Lines 282 and 321: a result is saved when it is not empty and mentions
      neither "failed" nor "unclear". */
  predicate Recordable(result: string) {
    result != [] && !Includes(result, "failed") && !Includes(result, "unclear")
  }

  /** Lines 282-289 and 321-328: a conversion that ends with `result` is put
      in front of the list, which is then cut to 20 entries. */
  function Record(items: seq<HistoryItem>, result: string, id: string, timestamp: int, image: string): (r: seq<HistoryItem>)
    ensures !Recordable(result) ==> r == items
    ensures Recordable(result) ==>
      |r| == Min(|items| + 1, Capacity)
      && r[0] == HistoryItem(id, result, timestamp, Some(image))
      && r[1..] == items[..|r| - 1]
  {
    if Recordable(result) then Take([HistoryItem(id, result, timestamp, Some(image))] + items, Capacity)
    else items
  }

  /** Line 304: every entry with the given id is dropped, the rest keep their order. */
  function Remove(items: seq<HistoryItem>, id: string): (r: seq<HistoryItem>)
    ensures |r| <= |items|
  {
    if items == [] then []
    else (if items[0].id != id then [items[0]] else []) + Remove(items[1..], id)
  }

  /** What stays is exactly the entries with another id. */
  lemma {:induction false} RemoveMembers(items: seq<HistoryItem>, id: string)
    ensures forall x :: x in Remove(items, id) <==> x in items && x.id != id
  {
    if items != [] {
      RemoveMembers(items[1..], id);
      assert forall x :: x in items <==> x == items[0] || x in items[1..];
    }
  }

  // ------------------------------------------------------------ lemmas

  /** The list never grows past 20 entries. */
  lemma RecordBounded(items: seq<HistoryItem>, result: string, id: string, timestamp: int, image: string)
    requires |items| <= Capacity
    ensures |Record(items, result, id, timestamp, image)| <= Capacity
  {
  }

  /** Removing distributes over concatenation, so it keeps the order of what stays. */
  lemma {:induction false} RemoveAppend(a: seq<HistoryItem>, b: seq<HistoryItem>, id: string)
    ensures Remove(a + b, id) == Remove(a, id) + Remove(b, id)
  {
    if a == [] {
      assert a + b == b;
    } else {
      assert (a + b)[0] == a[0] && (a + b)[1..] == a[1..] + b;
      RemoveAppend(a[1..], b, id);
    }
  }

  /** Removing an id that is not there changes nothing. */
  lemma {:induction false} RemoveAbsent(items: seq<HistoryItem>, id: string)
    requires forall x | x in items :: x.id != id
    ensures Remove(items, id) == items
  {
    if items != [] {
      assert forall x | x in items[1..] :: x in items;
      RemoveAbsent(items[1..], id);
    }
  }

  /** Removing twice is removing once. */
  lemma RemoveIdempotent(items: seq<HistoryItem>, id: string)
    ensures Remove(Remove(items, id), id) == Remove(items, id)
  {
    RemoveMembers(items, id);
    RemoveAbsent(Remove(items, id), id);
  }

  /** A conversion as the list sees it. */
  datatype Conversion = Conversion(result: string, id: string, timestamp: int, image: string)

  function Entry(c: Conversion): HistoryItem {
    HistoryItem(c.id, c.result, c.timestamp, Some(c.image))
  }

  /** The list after the conversions `cs`, oldest first. */
  function RecordAll(items: seq<HistoryItem>, cs: seq<Conversion>): seq<HistoryItem>
    decreases |cs|
  {
    if cs == [] then items
    else
      var c := cs[|cs| - 1];
      Record(RecordAll(items, cs[..|cs| - 1]), c.result, c.id, c.timestamp, c.image)
  }

  /** The entries of `cs`, newest first. */
  function NewestFirst(cs: seq<Conversion>): (r: seq<HistoryItem>)
    ensures |r| == |cs|
    ensures forall j | 0 <= j < |cs| :: r[j] == Entry(cs[|cs| - 1 - j])
    decreases |cs|
  {
    if cs == [] then [] else [Entry(cs[|cs| - 1])] + NewestFirst(cs[..|cs| - 1])
  }

  /** After a run of successful conversions the list holds the newest 20 of
      them and of the old entries, newest first. */
  lemma {:induction false} RecordAllSuccessful(items: seq<HistoryItem>, cs: seq<Conversion>)
    requires forall c | c in cs :: Recordable(c.result)
    ensures RecordAll(items, cs) == if cs == [] then items else Take(NewestFirst(cs) + items, Capacity)
    decreases |cs|
  {
    if cs != [] {
      var init, c := cs[..|cs| - 1], cs[|cs| - 1];
      assert c in cs;
      assert forall d | d in init :: d in cs;
      RecordAllSuccessful(items, init);
      var all := NewestFirst(init) + items;
      assert NewestFirst(cs) == [Entry(c)] + NewestFirst(init);
      assert NewestFirst(cs) + items == [Entry(c)] + all;
      RecordOne(RecordAll(items, init), c);
      if init != [] {
        TakeCons(Entry(c), all);
      } else {
        assert all == items;
      }
    }
  }

  lemma RecordOne(items: seq<HistoryItem>, c: Conversion)
    requires Recordable(c.result)
    ensures Record(items, c.result, c.id, c.timestamp, c.image) == Take([Entry(c)] + items, Capacity)
  {
  }

  /** Putting one element in front and cutting to 20 twice is cutting once. */
  lemma TakeCons(x: HistoryItem, s: seq<HistoryItem>)
    ensures Take([x] + Take(s, Capacity), Capacity) == Take([x] + s, Capacity)
  {
    if |s| > Capacity {
      assert ([x] + s)[..Capacity] == [x] + s[..Capacity - 1];
      assert ([x] + s[..Capacity])[..Capacity] == [x] + s[..Capacity - 1];
    }
  }

  /** Twenty-one successful conversions into an empty list leave the twenty
      newest, newest first; the first one is gone. */
  lemma TwentyOneConversions(cs: seq<Conversion>)
    requires |cs| == 21 && forall c | c in cs :: Recordable(c.result)
    ensures |RecordAll([], cs)| == 20
    ensures forall j | 0 <= j < 20 :: RecordAll([], cs)[j] == Entry(cs[20 - j])
  {
    RecordAllSuccessful([], cs);
    assert NewestFirst(cs) + [] == NewestFirst(cs);
  }

  /** What can happen to the list: a conversion finishes (lines 282-289 and
      321-328), an entry's delete button is pressed (line 304), or Clear All
      is pressed (line 605). */
  datatype Event = Converted(c: Conversion) | Removed(id: string) | ClearedAll

  /** One event, with conversions going through the filter as written. */
  function Apply(items: seq<HistoryItem>, e: Event): seq<HistoryItem> {
    match e
    case Converted(c) => Record(items, c.result, c.id, c.timestamp, c.image)
    case Removed(id) => Remove(items, id)
    case ClearedAll => []
  }

  function Replay(items: seq<HistoryItem>, es: seq<Event>): seq<HistoryItem>
    decreases |es|
  {
    if es == [] then items else Replay(Apply(items, es[0]), es[1..])
  }

  /** What the code as written keeps: at most 20 entries, each recorded from
      a result that passed the filter. */
  predicate Wellformed(items: seq<HistoryItem>) {
    |items| <= Capacity && forall x | x in items :: Recordable(x.latex)
  }

  lemma ApplyWellformed(items: seq<HistoryItem>, e: Event)
    requires Wellformed(items)
    ensures Wellformed(Apply(items, e))
  {
    match e
    case Converted(c) =>
      var r := Apply(items, e);
      if Recordable(c.result) {
        forall x | x in r ensures Recordable(x.latex) {
          if x != r[0] {
            assert x in r[1..];
          }
        }
      }
    case Removed(id) =>
      RemoveMembers(items, id);
    case ClearedAll =>
  }

  lemma {:induction false} ReplayWellformed(items: seq<HistoryItem>, es: seq<Event>)
    requires Wellformed(items)
    ensures Wellformed(Replay(items, es))
    decreases |es|
  {
    if es != [] {
      ApplyWellformed(items, es[0]);
      ReplayWellformed(Apply(items, es[0]), es[1..]);
    }
  }

  /** Clear All empties the list whatever came before it. */
  lemma {:induction false} ReplayClearAll(items: seq<HistoryItem>, es: seq<Event>)
    ensures Replay(items, es + [ClearedAll]) == []
    decreases |es|
  {
    if es == [] {
      assert es + [ClearedAll] == [ClearedAll];
    } else {
      assert (es + [ClearedAll])[0] == es[0] && (es + [ClearedAll])[1..] == es[1..] + [ClearedAll];
      ReplayClearAll(Apply(items, es[0]), es[1..]);
    }
  }

  // ----------------------------------------------------------- findings

  /** As written the filter lets two of the sanitizer's six advisories into
      the list, because neither mentions "failed" or "unclear" ... */
  lemma AdvisoriesRecordedAsWritten()
    ensures Recordable(Sanitizer.MsgCouldNotParse) && Recordable(Sanitizer.MsgTooLong)
  {
    CouldNotParseRecordable();
    TooLongRecordable();
  }

  lemma CouldNotParseRecordable()
    ensures Recordable(Sanitizer.MsgCouldNotParse)
  {
    CouldNotParseLacksFC();
    NotIncludesWithoutChar(Sanitizer.MsgCouldNotParse, "failed", 0);
    NotIncludesWithoutChar(Sanitizer.MsgCouldNotParse, "unclear", 2);
  }

  lemma CouldNotParseLacksFC()
    ensures 'f' !in Sanitizer.MsgCouldNotParse && 'c' !in Sanitizer.MsgCouldNotParse
  {
    LacksFC1();
    LacksFC2();
  }

  lemma LacksFC1() ensures 'f' !in "Could not parse handwriting." && 'c' !in "Could not parse handwriting." {}
  lemma LacksFC2() ensures 'f' !in " Try drawing larger symbols." && 'c' !in " Try drawing larger symbols." {}

  lemma TooLongRecordable()
    ensures Recordable(Sanitizer.MsgTooLong)
  {
    TooLongLacksFC();
    NotIncludesWithoutChar(Sanitizer.MsgTooLong, "failed", 0);
    NotIncludesWithoutChar(Sanitizer.MsgTooLong, "unclear", 2);
  }

  lemma TooLongLacksFC()
    ensures 'f' !in Sanitizer.MsgTooLong && 'c' !in Sanitizer.MsgTooLong
  {
    LacksFC3();
    LacksFC4();
    LacksFC5();
  }

  lemma LacksFC3() ensures 'f' !in "Output too long." && 'c' !in "Output too long." {}
  lemma LacksFC4() ensures 'f' !in " Please draw smaller equations" && 'c' !in " Please draw smaller equations" {}
  lemma LacksFC5() ensures 'f' !in " or simpler symbols." && 'c' !in " or simpler symbols." {}

  /** ... while the other four are kept out. */
  lemma AdvisoriesRejectedAsWritten()
    ensures !Recordable(Sanitizer.MsgUnclearStrokes) && !Recordable(Sanitizer.MsgFailedStrokes)
    ensures !Recordable(Sanitizer.MsgFailedClearer) && !Recordable(Sanitizer.MsgUnclearSimplify)
  {
    IncludesAt(Sanitizer.MsgUnclearStrokes, "unclear", 12);
    IncludesAt(Sanitizer.MsgFailedStrokes, "failed", 12);
    IncludesAt(Sanitizer.MsgFailedClearer, "failed", 12);
    IncludesAt(Sanitizer.MsgUnclearSimplify, "unclear", 12);
  }

  lemma IncludesAt(s: string, pat: string, i: nat)
    requires i + |pat| <= |s| && s[i..i + |pat|] == pat
    ensures Includes(s, pat)
  {
    assert OccursAt(s, pat, i);
  }

  /** So a drawing whose recognised text the sanitizer reports as unparseable ends up in the list. */
  lemma ParseAdvisoryRecorded(items: seq<HistoryItem>, id: string, timestamp: int, image: string)
    ensures Sanitizer.SanitizeLatex(Sanitizer.GlyphRun) == Sanitizer.MsgCouldNotParse
    ensures Recordable(Sanitizer.MsgCouldNotParse)
    ensures Record(items, Sanitizer.MsgCouldNotParse, id, timestamp, image)[0].latex == Sanitizer.MsgCouldNotParse
  {
    Sanitizer.ParseAdvisoryExample();
    AdvisoriesRecordedAsWritten();
  }

  /** The corrected filter: the comment of line 320, "save to history if
      it's a valid result", with no advisory ever counted as one. */
  predicate RecordableIntended(result: string) {
    Recordable(result) && result !in Sanitizer.Advisories
  }

  function RecordIntended(items: seq<HistoryItem>, result: string, id: string, timestamp: int, image: string): (r: seq<HistoryItem>)
    ensures !RecordableIntended(result) ==> r == items
    ensures RecordableIntended(result) ==>
      |r| == Min(|items| + 1, Capacity)
      && r[0] == HistoryItem(id, result, timestamp, Some(image))
      && r[1..] == items[..|r| - 1]
  {
    if RecordableIntended(result) then Take([HistoryItem(id, result, timestamp, Some(image))] + items, Capacity)
    else items
  }

  /** The corrected filter differs from the one as written only on the advisories. */
  lemma RecordIntendedAgrees(items: seq<HistoryItem>, result: string, id: string, timestamp: int, image: string)
    ensures result !in Sanitizer.Advisories ==>
      RecordIntended(items, result, id, timestamp, image) == Record(items, result, id, timestamp, image)
    ensures result in Sanitizer.Advisories ==> RecordIntended(items, result, id, timestamp, image) == items
  {
  }

  /** With the intended filter, every saved text is a piece of what the
      model produced, never an advisory. */
  lemma IntendedRecordsOnlyOutput(items: seq<HistoryItem>, text: string, id: string, timestamp: int, image: string)
    ensures var r := RecordIntended(items, Sanitizer.SanitizeLatex(text), id, timestamp, image);
      r == items || (r[0].latex !in Sanitizer.Advisories && IsSlice(r[0].latex, Trim(text)))
  {
    Sanitizer.SanitizeShape(text);
  }

  /** One event, with conversions going through the corrected filter. */
  function ApplyIntended(items: seq<HistoryItem>, e: Event): seq<HistoryItem> {
    match e
    case Converted(c) => RecordIntended(items, c.result, c.id, c.timestamp, c.image)
    case Removed(id) => Remove(items, id)
    case ClearedAll => []
  }

  function ReplayIntended(items: seq<HistoryItem>, es: seq<Event>): seq<HistoryItem>
    decreases |es|
  {
    if es == [] then items else ReplayIntended(ApplyIntended(items, es[0]), es[1..])
  }

  /** What the corrected code keeps: at most 20 entries, none of them an advisory. */
  predicate WellformedIntended(items: seq<HistoryItem>) {
    |items| <= Capacity && forall x | x in items :: RecordableIntended(x.latex)
  }

  lemma ApplyIntendedWellformed(items: seq<HistoryItem>, e: Event)
    requires WellformedIntended(items)
    ensures WellformedIntended(ApplyIntended(items, e))
  {
    match e
    case Converted(c) =>
      var r := ApplyIntended(items, e);
      if RecordableIntended(c.result) {
        forall x | x in r ensures RecordableIntended(x.latex) {
          if x != r[0] {
            assert x in r[1..];
          }
        }
      }
    case Removed(id) =>
      RemoveMembers(items, id);
    case ClearedAll =>
  }

  lemma {:induction false} ReplayIntendedWellformed(items: seq<HistoryItem>, es: seq<Event>)
    requires WellformedIntended(items)
    ensures WellformedIntended(ReplayIntended(items, es))
    decreases |es|
  {
    if es != [] {
      ApplyIntendedWellformed(items, es[0]);
      ReplayIntendedWellformed(ApplyIntended(items, es[0]), es[1..]);
    }
  }
}
