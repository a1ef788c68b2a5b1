/**
  The stroke model of the signature pad: a signature is the ordered sequence of
  strokes the user drew, each stroke the ordered sequence of points captured
  between pointer-down and pointer-up.
 */
module Strokes {

  /** A canvas-local position (client coordinates minus the canvas origin). */
  datatype Point = Point(x: real, y: real)

  type Stroke = seq<Point>

  /** A stroke leaves a mark only when it has at least one segment. */
  predicate Visible(s: Stroke) {
    |s| > 1
  }

  predicate AllVisible(ss: seq<Stroke>) {
    forall i :: 0 <= i < |ss| ==> Visible(ss[i])
  }

  /** The strokes of `ss` that leave a mark, in drawing order. */
  function VisibleStrokes(ss: seq<Stroke>): (r: seq<Stroke>)
    ensures |r| <= |ss|
    ensures AllVisible(r)
    ensures AllVisible(ss) ==> r == ss
  {
    if ss == [] then []
    else
      var init, last := ss[..|ss| - 1], ss[|ss| - 1];
      assert ss == init + [last];
      VisibleStrokes(init) + (if Visible(last) then [last] else [])
  }

  /** The strokes drawn are exactly the strokes of the signature that have more than one point. */
  lemma {:induction false} VisibleStrokesAre(ss: seq<Stroke>)
    ensures forall s :: s in VisibleStrokes(ss) <==> s in ss && Visible(s)
    decreases |ss|
  {
    if ss != [] {
      var init, last := ss[..|ss| - 1], ss[|ss| - 1];
      assert ss == init + [last];
      VisibleStrokesAre(init);
    }
  }

  /** Pointer-up: the in-progress stroke is kept only when it has more than one point. */
  function Commit(ss: seq<Stroke>, s: Stroke): seq<Stroke> {
    if Visible(s) then ss + [s] else ss
  }

  /** Undo: drop the most recent stroke, if there is one. */
  function Undo(ss: seq<Stroke>): (r: seq<Stroke>)
    ensures ss == [] ==> r == []
    ensures ss != [] ==> |r| == |ss| - 1 && ss == r + [ss[|ss| - 1]]
  {
    if |ss| > 0 then ss[..|ss| - 1] else ss
  }

  /** A one-point stroke (a tap) is discarded: committing it changes nothing. */
  lemma CommitInvisible(ss: seq<Stroke>, s: Stroke)
    requires !Visible(s)
    ensures Commit(ss, s) == ss
  {
  }

  /** Undo is the exact inverse of a successful commit. */
  lemma UndoAfterCommit(ss: seq<Stroke>, s: Stroke)
    requires Visible(s)
    ensures Undo(Commit(ss, s)) == ss
  {
  }

  /** Commit and undo keep every stroke of the signature visible. */
  lemma CommitUndoKeepVisible(ss: seq<Stroke>, s: Stroke)
    requires AllVisible(ss)
    ensures AllVisible(Commit(ss, s)) && AllVisible(Undo(ss))
  {
  }

  /** Taking the visible strokes distributes over concatenation. */
  lemma {:induction false} VisibleStrokesAppend(a: seq<Stroke>, b: seq<Stroke>)
    ensures VisibleStrokes(a + b) == VisibleStrokes(a) + VisibleStrokes(b)
    decreases |b|
  {
    if b == [] {
      assert a + b == a;
    } else {
      var init, last := b[..|b| - 1], b[|b| - 1];
      assert a + b == (a + init) + [last];
      assert (a + b)[..|a + b| - 1] == a + init;
      VisibleStrokesAppend(a, init);
    }
  }

  /**
    Discarding a one-point stroke on commit is invisible: the strokes that
    leave a mark are the same as if every in-progress stroke had been kept.
   */
  lemma CommitKeepsTheVisibleStrokes(ss: seq<Stroke>, s: Stroke)
    ensures VisibleStrokes(Commit(ss, s)) == VisibleStrokes(ss + [s])
  {
  }
}
