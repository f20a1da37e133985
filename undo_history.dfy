/**
 * The undo engine of the drawing canvas (components/FormulaTool.tsx): a
 * list of canvas snapshots and an index into it. Saving truncates the
 * snapshots after the index and appends the current canvas; undo and redo
 * move the index and paint the snapshot it lands on.
 *
 * A snapshot is an abstract value `S` (the source's `ImageData`). The pure
 * `Timeline` functions are the specification; `Board` is the component's
 * state, updated in place by methods that are proved against them.
 */
module UndoHistory {

  /** The history list and its index, as the component holds them. */
  datatype Timeline<S> = Timeline(snapshots: seq<S>, index: int)

  /** Before the first save the list is empty and the index is -1 (lines 16-17);
      from then on the index points into the list. */
  predicate Valid<S>(t: Timeline<S>) {
    (t.snapshots == [] && t.index == -1) || (0 <= t.index < |t.snapshots|)
  }

  function Initial<S>(): (t: Timeline<S>)
    ensures Valid(t) && |t.snapshots| == 0
  {
    Timeline([], -1)
  }

  /** Line 424: the undo button is enabled when the index is above 0. */
  predicate CanUndo<S>(t: Timeline<S>) {
    t.index > 0
  }

  /** Line 434: the redo button is enabled when the index is below the last position. */
  predicate CanRedo<S>(t: Timeline<S>) {
    t.index < |t.snapshots| - 1
  }

  /** `saveHistory` (lines 89-93): keep the snapshots up to and including the
      index, append the one taken now, and point at it. */
  function Save<S>(t: Timeline<S>, snap: S): (r: Timeline<S>)
    requires Valid(t)
    ensures Valid(r) && r.snapshots != []
    ensures r.snapshots == t.snapshots[..t.index + 1] + [snap]
    ensures r.index == t.index + 1
    ensures !CanRedo(r) && r.snapshots[r.index] == snap
  {
    var kept := t.snapshots[..t.index + 1];
    Timeline(kept + [snap], |kept + [snap]| - 1)
  }

  /** `undo` (lines 97-107): step back when possible; otherwise nothing changes. */
  function UndoStep<S>(t: Timeline<S>): (r: Timeline<S>)
    requires Valid(t)
    ensures Valid(r) && r.snapshots == t.snapshots
    ensures CanUndo(t) ==> r.index == t.index - 1 && CanRedo(r)
    ensures !CanUndo(t) ==> r == t
  {
    if t.index > 0 then Timeline(t.snapshots, t.index - 1) else t
  }

  /** `redo` (lines 109-119): step forward when possible; otherwise nothing changes. */
  function RedoStep<S>(t: Timeline<S>): (r: Timeline<S>)
    requires Valid(t)
    ensures Valid(r) && r.snapshots == t.snapshots
    ensures CanRedo(t) ==> r.index == t.index + 1 && CanUndo(r)
    ensures !CanRedo(t) ==> r == t
  {
    if t.index < |t.snapshots| - 1 then Timeline(t.snapshots, t.index + 1) else t
  }

  /** The snapshot the index points at: what undo and redo paint on the canvas. */
  function Current<S>(t: Timeline<S>): S
    requires Valid(t) && t.snapshots != []
  {
    t.snapshots[t.index]
  }

  // ------------------------------------------------------------ lemmas

  /** Redo undoes an undo ... */
  lemma UndoThenRedo<S>(t: Timeline<S>)
    requires Valid(t) && CanUndo(t)
    ensures RedoStep(UndoStep(t)) == t
  {
  }

  /** ... and undo undoes a redo. */
  lemma RedoThenUndo<S>(t: Timeline<S>)
    requires Valid(t) && CanRedo(t)
    ensures UndoStep(RedoStep(t)) == t
  {
  }

  /** Undo restores the snapshot before the current one; redo the one after. */
  lemma UndoRestoresPrevious<S>(t: Timeline<S>)
    requires Valid(t) && CanUndo(t)
    ensures Current(UndoStep(t)) == t.snapshots[t.index - 1]
    ensures RedoStep(UndoStep(t)).snapshots[t.index] == Current(t)
  {
  }

  /** Saving after an undo drops the snapshot that was undone: the timeline
      forks and the old future cannot be redone. */
  lemma SaveAfterUndoForgetsFuture<S>(t: Timeline<S>, snap: S)
    requires Valid(t) && CanUndo(t)
    ensures Save(UndoStep(t), snap).snapshots == t.snapshots[..t.index] + [snap]
    ensures |Save(UndoStep(t), snap).snapshots| == t.index + 1
    ensures !CanRedo(Save(UndoStep(t), snap))
  {
  }

  /** `k` presses of the undo button. */
  function UndoTimes<S>(t: Timeline<S>, k: nat): (r: Timeline<S>)
    requires Valid(t)
    ensures Valid(r) && r.snapshots == t.snapshots
  {
    if k == 0 then t else UndoStep(UndoTimes(t, k - 1))
  }

  /** `k` presses of undo step back `k` snapshots, stopping at the first one. */
  lemma {:induction false} UndoTimesIndex<S>(t: Timeline<S>, k: nat)
    requires Valid(t) && t.snapshots != []
    ensures UndoTimes(t, k).index == if k <= t.index then t.index - k else 0
  {
    if k > 0 {
      UndoTimesIndex(t, k - 1);
    }
  }

  /** The component's history after the canvas is seeded with `blank`
      (lines 59-61) and each stroke in `strokes` is saved in turn. */
  function SaveAll<S>(t: Timeline<S>, strokes: seq<S>): (r: Timeline<S>)
    requires Valid(t)
    ensures Valid(r)
    decreases |strokes|
  {
    if strokes == [] then t else SaveAll(Save(t, strokes[0]), strokes[1..])
  }

  /** Saving on top of the last snapshot only appends. */
  lemma {:induction false} SaveAllAppends<S>(t: Timeline<S>, strokes: seq<S>)
    requires Valid(t) && t.snapshots != [] && !CanRedo(t)
    ensures SaveAll(t, strokes).snapshots == t.snapshots + strokes
    ensures SaveAll(t, strokes).index == t.index + |strokes|
    decreases |strokes|
  {
    if strokes != [] {
      var u := Save(t, strokes[0]);
      assert t.snapshots[..t.index + 1] == t.snapshots;
      SaveAllAppends(u, strokes[1..]);
      assert t.snapshots + [strokes[0]] + strokes[1..] == t.snapshots + strokes;
    }
  }

  /** Seeding puts the blank canvas at index 0, so after any number of
      strokes, as many undos bring the blank canvas back and undo is then
      disabled. */
  lemma SeededUndoReachesBlank<S>(blank: S, strokes: seq<S>)
    ensures Save(Initial(), blank) == Timeline([blank], 0)
    ensures SaveAll(Save(Initial(), blank), strokes) == Timeline([blank] + strokes, |strokes|)
    ensures Current(UndoTimes(SaveAll(Save(Initial(), blank), strokes), |strokes|)) == blank
    ensures !CanUndo(UndoTimes(SaveAll(Save(Initial(), blank), strokes), |strokes|))
  {
    var seeded := Save(Initial(), blank);
    assert seeded.snapshots == [blank];
    SaveAllAppends(seeded, strokes);
    var t := SaveAll(seeded, strokes);
    UndoTimesIndex(t, |strokes|);
  }

  // ----------------------------------------------------- the component

  /** The drawing state of the component: the pixels on the canvas, the
      history and its index, the `isDrawing` flag and the LaTeX shown. */
  class Board<S> {
    var surface: S
    var history: seq<S>
    var index: int
    var drawing: bool
    var latex: string

    function Model(): Timeline<S>
      reads this
    {
      Timeline(history, index)
    }

    predicate Inv()
      reads this
    {
      Valid(Model())
    }

    /** The component starts with an empty history (lines 16-17). */
    constructor (blank: S)
      ensures Inv() && history == [] && index == -1
      ensures surface == blank && !drawing && latex == ""
    {
      surface := blank;
      history := [];
      index := -1;
      drawing := false;
      latex := "";
    }

    /** `saveHistory`: the current canvas is captured and becomes the last snapshot. */
    method SaveHistory()
      requires Inv()
      modifies this
      ensures Inv() && Model() == Save(old(Model()), old(surface))
      ensures surface == old(surface) && drawing == old(drawing) && latex == old(latex)
    {
      var kept := history[..index + 1];
      history := kept + [surface];
      index := |history| - 1;
    }

    /** Entering drawing mode mounts a blank canvas; the effect of lines 47-63
        seeds the history with it only when the history is empty. */
    method EnterDrawing(blank: S)
      requires Inv()
      modifies this
      ensures Inv() && surface == blank && drawing == old(drawing) && latex == old(latex)
      ensures old(history) == [] ==> Model() == Save(old(Model()), blank) && history == [blank] && index == 0
      ensures old(history) != [] ==> Model() == old(Model())
    {
      surface := blank;
      if |history| == 0 {
        SaveHistory();
      }
    }

    /** `startDrawing` (lines 121-131): a stroke begins; no pixel changes yet. */
    method StartDrawing()
      modifies this
      ensures drawing
      ensures surface == old(surface) && Model() == old(Model()) && latex == old(latex)
    {
      drawing := true;
    }

    /** `draw` (lines 133-139): while a stroke is in progress the canvas shows
        `stroked`, the surface with the new segment painted; otherwise nothing. */
    method Draw(stroked: S)
      modifies this
      ensures surface == if old(drawing) then stroked else old(surface)
      ensures drawing == old(drawing) && Model() == old(Model()) && latex == old(latex)
    {
      if drawing {
        surface := stroked;
      }
    }

    /** `endDrawing` (lines 141-146): a finished stroke is saved. */
    method EndDrawing()
      requires Inv()
      modifies this
      ensures Inv() && !drawing && surface == old(surface) && latex == old(latex)
      ensures Model() == if old(drawing) then Save(old(Model()), old(surface)) else old(Model())
    {
      if drawing {
        drawing := false;
        SaveHistory();
      }
    }

    /** `undo`: the index steps back and the canvas shows that snapshot. */
    method Undo()
      requires Inv()
      modifies this
      ensures Inv() && Model() == UndoStep(old(Model()))
      ensures surface == if CanUndo(old(Model())) then Current(Model()) else old(surface)
      ensures drawing == old(drawing) && latex == old(latex)
    {
      if index > 0 {
        var newIndex := index - 1;
        surface := history[newIndex];
        index := newIndex;
      }
    }

    /** `redo`: the index steps forward and the canvas shows that snapshot. */
    method Redo()
      requires Inv()
      modifies this
      ensures Inv() && Model() == RedoStep(old(Model()))
      ensures surface == if CanRedo(old(Model())) then Current(Model()) else old(surface)
      ensures drawing == old(drawing) && latex == old(latex)
    {
      if index < |history| - 1 {
        var newIndex := index + 1;
        surface := history[newIndex];
        index := newIndex;
      }
    }

    /** `clearCanvas` (lines 163-171): the canvas is wiped, the wiped canvas is
        saved as a new snapshot, and the LaTeX is cleared. */
    method ClearCanvas(blank: S)
      requires Inv()
      modifies this
      ensures Inv() && surface == blank && drawing == old(drawing) && latex == ""
      ensures Model() == Save(old(Model()), blank)
    {
      surface := blank;
      SaveHistory();
      latex := "";
    }
  }
}
