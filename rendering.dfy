/**
  Rendering of a signature as the list of 2D-context commands the pad issues:
  the on-screen redraw, the PNG export raster and the PDF export raster. A small
  reference interpreter (`Run` over a `Surface`) gives the commands a meaning,
  so that what each render draws can be stated independently of how it is built.
 */
module Rendering {
  import opened Strokes

  /** A CSS colour as the pad stores it; "transparent" is the one sentinel it tests for. */
  type Colour = string

  const Transparent: Colour := "transparent"
  const White: Colour := "#FFFFFF"

  /** The context calls the renders make (stroke style is fixed: black, width 2, round caps and joins). */
  datatype Command =
    | Clear               // clearRect over the whole surface
    | Fill(colour: Colour) // fillRect over the whole surface
    | BeginPath
    | MoveTo(p: Point)
    | LineTo(p: Point)
    | StrokePath

  /** One `lineTo` per point, in order. */
  function LineTos(pts: seq<Point>): seq<Command> {
    if pts == [] then [] else LineTos(pts[..|pts| - 1]) + [LineTo(pts[|pts| - 1])]
  }

  /** The i-th `lineTo` goes to the i-th point, and there is one per point. */
  lemma {:induction false} LineTosAt(pts: seq<Point>)
    ensures |LineTos(pts)| == |pts|
    ensures forall i :: 0 <= i < |pts| ==> LineTos(pts)[i] == LineTo(pts[i])
    decreases |pts|
  {
    if pts != [] {
      LineTosAt(pts[..|pts| - 1]);
    }
  }

  /** The path of one stroke; a stroke of fewer than two points draws nothing. */
  function StrokeCommands(s: Stroke): seq<Command> {
    if Visible(s) then [BeginPath, MoveTo(s[0])] + LineTos(s[1..]) + [StrokePath] else []
  }

  /** The strokes, in drawing order. */
  function Paint(ss: seq<Stroke>): seq<Command> {
    if ss == [] then [] else Paint(ss[..|ss| - 1]) + StrokeCommands(ss[|ss| - 1])
  }

  /** The background step: a full-surface fill unless the background is transparent. */
  function Backdrop(bg: Colour): seq<Command> {
    if bg != Transparent then [Fill(bg)] else []
  }

  /** The on-screen redraw: clear, background, strokes. */
  function ScreenRender(ss: seq<Stroke>, bg: Colour): seq<Command> {
    [Clear] + Backdrop(bg) + Paint(ss)
  }

  /** The PNG export raster: a fill, or a clear when the background is transparent, then the strokes. */
  function PngRender(ss: seq<Stroke>, bg: Colour): seq<Command> {
    (if bg != Transparent then [Fill(bg)] else [Clear]) + Paint(ss)
  }

  /** The PDF export never keeps a transparent background: it becomes white. */
  function PdfBackground(bg: Colour): (c: Colour)
    ensures c != Transparent
    ensures bg != Transparent ==> c == bg
    ensures bg == Transparent ==> c == White
  {
    if bg == Transparent then White else bg
  }

  /** The PDF export raster: an opaque fill, then the strokes. */
  function PdfRender(ss: seq<Stroke>, bg: Colour): seq<Command> {
    [Fill(PdfBackground(bg))] + Paint(ss)
  }

  // ---------------------------------------------------------------------------
  // Structure of the command lists

  lemma {:induction false} LineTosAppend(pts: seq<Point>, p: Point)
    ensures LineTos(pts + [p]) == LineTos(pts) + [LineTo(p)]
  {
  }

  /** Adding a stroke at the end adds its path at the end. */
  lemma PaintSnoc(ss: seq<Stroke>, s: Stroke)
    ensures Paint(ss + [s]) == Paint(ss) + StrokeCommands(s)
  {
  }

  /** The commands of two signatures drawn one after the other are the two command lists joined. */
  lemma {:induction false} PaintAppend(a: seq<Stroke>, b: seq<Stroke>)
    ensures Paint(a + b) == Paint(a) + Paint(b)
    decreases |b|
  {
    if b == [] {
      assert a + b == a;
    } else {
      var init, last := b[..|b| - 1], b[|b| - 1];
      assert b == init + [last];
      assert a + b == (a + init) + [last];
      PaintAppend(a, init);
      PaintSnoc(a + init, last);
      PaintSnoc(init, last);
      ConcatAssoc(Paint(a), Paint(init), StrokeCommands(last));
    }
  }

  lemma ConcatAssoc<T>(x: seq<T>, y: seq<T>, z: seq<T>)
    ensures (x + y) + z == x + (y + z)
  {
  }

  /** Strokes shorter than two points contribute nothing to any render. */
  lemma {:induction false} PaintOnlyVisible(ss: seq<Stroke>)
    ensures Paint(ss) == Paint(VisibleStrokes(ss))
    decreases |ss|
  {
    if ss != [] {
      var init, last := ss[..|ss| - 1], ss[|ss| - 1];
      PaintOnlyVisible(init);
      var vs := VisibleStrokes(init);
      assert ss == init + [last];
      if Visible(last) {
        assert VisibleStrokes(ss) == vs + [last];
        PaintSnoc(vs, last);
      } else {
        assert VisibleStrokes(ss) == vs + [];
        assert vs + [] == vs;
      }
    }
  }

  /** Painting strokes never fills or clears the surface. */
  lemma {:induction false} PaintNeverFills(ss: seq<Stroke>)
    ensures Clear !in Paint(ss)
    ensures forall c :: Fill(c) !in Paint(ss)
    decreases |ss|
  {
    if ss != [] {
      PaintNeverFills(ss[..|ss| - 1]);
      var last := ss[|ss| - 1];
      if Visible(last) {
        var lines := LineTos(last[1..]);
        LineTosAt(last[1..]);
        assert forall c :: c in lines ==> c.LineTo?;
      }
    }
  }

  /**
    The on-screen redraw starts with a clear and fills the surface exactly when
    the background is not transparent, and then only with that background.
   */
  lemma ScreenRenderBackground(ss: seq<Stroke>, bg: Colour, c: Colour)
    ensures ScreenRender(ss, bg)[0] == Clear
    ensures Fill(c) in ScreenRender(ss, bg) <==> c == bg && bg != Transparent
  {
    PaintNeverFills(ss);
    var r := ScreenRender(ss, bg);
    assert r == [Clear] + (Backdrop(bg) + Paint(ss));
  }

  /** The PDF raster fills once, first, never with "transparent", and never again. */
  lemma PdfRenderIsOpaque(ss: seq<Stroke>, bg: Colour, c: Colour)
    ensures PdfRender(ss, bg)[0] == Fill(PdfBackground(bg))
    ensures Fill(c) in PdfRender(ss, bg) <==> c == PdfBackground(bg)
    ensures Fill(Transparent) !in PdfRender(ss, bg)
    ensures forall i :: 0 < i < |PdfRender(ss, bg)| ==> !PdfRender(ss, bg)[i].Fill?
  {
    PaintNeverFills(ss);
    var r := PdfRender(ss, bg);
    forall i | 0 < i < |r|
      ensures !r[i].Fill?
    {
      assert r[i] == Paint(ss)[i - 1];
      assert r[i] in Paint(ss);
    }
  }

  // ---------------------------------------------------------------------------
  // A reference meaning for the commands

  /**
    What a surface shows: the ground colour (Transparent when cleared), the
    polylines inked on it, in order, and the path being built.
   */
  datatype Surface = Surface(ground: Colour, ink: seq<Stroke>, path: seq<Point>)

  /** A freshly created canvas. */
  const Blank := Surface(Transparent, [], [])

  /** Every colour but "transparent" is treated as opaque: a fill covers what was drawn. */
  function Step(s: Surface, c: Command): Surface {
    match c
    case Clear => Surface(Transparent, [], s.path)
    case Fill(col) => if col == Transparent then s else Surface(col, [], s.path)
    case BeginPath => s.(path := [])
    case MoveTo(p) => s.(path := [p])
    case LineTo(p) => s.(path := s.path + [p])
    case StrokePath => s.(ink := s.ink + [s.path])
  }

  function Run(s: Surface, cmds: seq<Command>): Surface
    decreases |cmds|
  {
    if cmds == [] then s else Run(Step(s, cmds[0]), cmds[1..])
  }

  lemma {:induction false} RunAppend(s: Surface, a: seq<Command>, b: seq<Command>)
    ensures Run(s, a + b) == Run(Run(s, a), b)
    decreases |a|
  {
    if a == [] {
      assert a + b == b;
    } else {
      assert (a + b)[0] == a[0];
      assert (a + b)[1..] == a[1..] + b;
      RunAppend(Step(s, a[0]), a[1..], b);
    }
  }

  lemma RunOne(s: Surface, c: Command)
    ensures Run(s, [c]) == Step(s, c)
  {
  }

  /** A run of `lineTo`s extends the current path by those points, in order. */
  lemma {:induction false} RunLineTos(s: Surface, pts: seq<Point>)
    ensures Run(s, LineTos(pts)) == s.(path := s.path + pts)
    decreases |pts|
  {
    if pts == [] {
      assert s.path + pts == s.path;
    } else {
      var init, last := pts[..|pts| - 1], pts[|pts| - 1];
      RunAppend(s, LineTos(init), [LineTo(last)]);
      RunLineTos(s, init);
      RunOne(s.(path := s.path + init), LineTo(last));
      assert s.path + init + [last] == s.path + pts;
    }
  }

  /** A visible stroke is inked exactly as captured; an invisible one leaves the surface alone. */
  lemma RunStroke(s: Surface, st: Stroke)
    ensures Visible(st) ==> Run(s, StrokeCommands(st)) == Surface(s.ground, s.ink + [st], st)
    ensures !Visible(st) ==> Run(s, StrokeCommands(st)) == s
  {
    if Visible(st) {
      var head := [BeginPath, MoveTo(st[0])];
      var s1 := s.(path := [st[0]]);
      RunAppend(s, head, LineTos(st[1..]));
      RunAppend(s, head + LineTos(st[1..]), [StrokePath]);
      assert Run(s, head) == s1 by {
        assert head[1..] == [MoveTo(st[0])];
        RunOne(s.(path := []), MoveTo(st[0]));
      }
      RunLineTos(s1, st[1..]);
      assert [st[0]] + st[1..] == st;
      RunOne(s1.(path := st), StrokePath);
    }
  }

  /** Painting inks exactly the visible strokes, in order, and keeps the ground. */
  lemma {:induction false} RunPaint(s: Surface, ss: seq<Stroke>)
    ensures Run(s, Paint(ss)).ground == s.ground
    ensures Run(s, Paint(ss)).ink == s.ink + VisibleStrokes(ss)
    decreases |ss|
  {
    if ss == [] {
      assert s.ink + [] == s.ink;
    } else {
      var init, last := ss[..|ss| - 1], ss[|ss| - 1];
      assert ss == init + [last];
      PaintSnoc(init, last);
      RunAppend(s, Paint(init), StrokeCommands(last));
      RunPaint(s, init);
      RunStroke(Run(s, Paint(init)), last);
      assert VisibleStrokes(ss) == VisibleStrokes(init) + (if Visible(last) then [last] else []);
    }
  }

  /** Whatever the canvas showed before, the redraw shows the background and the visible strokes. */
  lemma ScreenRenderShows(s: Surface, ss: seq<Stroke>, bg: Colour)
    ensures Run(s, ScreenRender(ss, bg)).ground == bg
    ensures Run(s, ScreenRender(ss, bg)).ink == VisibleStrokes(ss)
  {
    var pre := [Clear] + Backdrop(bg);
    RunAppend(s, pre, Paint(ss));
    RunAppend(s, [Clear], Backdrop(bg));
    RunOne(s, Clear);
    var cleared := Step(s, Clear);
    if bg != Transparent {
      RunOne(cleared, Fill(bg));
    }
    assert Run(s, pre).ink == [];
    RunPaint(Run(s, pre), ss);
  }

  /** The PNG export shows exactly what the redraw shows on screen, transparency included. */
  lemma PngRenderMatchesScreen(s: Surface, live: Surface, ss: seq<Stroke>, bg: Colour)
    ensures Run(s, PngRender(ss, bg)).ground == Run(live, ScreenRender(ss, bg)).ground == bg
    ensures Run(s, PngRender(ss, bg)).ink == Run(live, ScreenRender(ss, bg)).ink == VisibleStrokes(ss)
  {
    ScreenRenderShows(live, ss, bg);
    var pre := if bg != Transparent then [Fill(bg)] else [Clear];
    RunAppend(s, pre, Paint(ss));
    RunOne(s, pre[0]);
    RunPaint(Run(s, pre), ss);
  }

  /** The PDF raster shows the same strokes on an opaque ground: the background, or white. */
  lemma PdfRenderShows(s: Surface, ss: seq<Stroke>, bg: Colour)
    ensures Run(s, PdfRender(ss, bg)).ground == PdfBackground(bg) != Transparent
    ensures Run(s, PdfRender(ss, bg)).ink == VisibleStrokes(ss)
  {
    var pre := [Fill(PdfBackground(bg))];
    RunAppend(s, pre, Paint(ss));
    RunOne(s, pre[0]);
    RunPaint(Run(s, pre), ss);
  }

  // ---------------------------------------------------------------------------
  // The stroke loop every render shares

  /** The path of one stroke: `moveTo` its first point, `lineTo` each later one, `stroke`. */
  method PaintStroke(stroke: Stroke) returns (cmds: seq<Command>)
    ensures cmds == StrokeCommands(stroke)
  {
    cmds := [];
    if |stroke| > 1 {
      var head := [BeginPath, MoveTo(stroke[0])];
      cmds := head;
      var i := 1;
      while i < |stroke|
        invariant 1 <= i <= |stroke|
        invariant cmds == head + LineTos(stroke[1..i])
      {
        LineTosAppend(stroke[1..i], stroke[i]);
        assert stroke[1..i + 1] == stroke[1..i] + [stroke[i]];
        cmds := cmds + [LineTo(stroke[i])];
        i := i + 1;
      }
      assert stroke[1..i] == stroke[1..];
      cmds := cmds + [StrokePath];
    }
  }

  /** The `forEach` over the strokes, in drawing order. */
  method PaintStrokes(ss: seq<Stroke>) returns (cmds: seq<Command>)
    ensures cmds == Paint(ss)
  {
    cmds := [];
    var k := 0;
    while k < |ss|
      invariant 0 <= k <= |ss|
      invariant cmds == Paint(ss[..k])
    {
      var path := PaintStroke(ss[k]);
      assert ss[..k + 1] == ss[..k] + [ss[k]];
      PaintSnoc(ss[..k], ss[k]);
      cmds := cmds + path;
      k := k + 1;
    }
    assert ss[..k] == ss;
  }
}
