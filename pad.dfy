/**
  The signature pad component: the committed strokes, the in-progress stroke,
  the Idle/Drawing state, the `signature-strokes` storage entry, the pointer
  handlers, undo and clear, the on-screen redraw and the three downloads.
 */
module Pad {
  import opened Optional
  import opened Strokes
  import opened Rendering
  import opened Export

  datatype ClientPoint = ClientPoint(x: real, y: real)

  /** A mouse event carries its client position; a touch event that of its first touch. */
  datatype PointerEvent = Mouse(at: ClientPoint) | Touch(at: ClientPoint)

  /** The mounted canvas element: its on-screen origin and its backing size. */
  datatype Canvas = Canvas(left: real, top: real, width: nat, height: nat)

  /** Canvas-local position of an event: client position minus the canvas origin; (0, 0) with no canvas. */
  function EventPos(e: PointerEvent, canvas: Option<Canvas>): (p: Point)
    ensures canvas.None? ==> p == Point(0.0, 0.0)
    ensures canvas.Some? ==> p.x + canvas.value.left == e.at.x && p.y + canvas.value.top == e.at.y
  {
    match canvas
    case None => Point(0.0, 0.0)
    case Some(c) => Point(e.at.x - c.left, e.at.y - c.top)
  }

  /** Scrolling moves the pointer and the canvas together and leaves the captured point unchanged. */
  lemma EventPosIgnoresScroll(e: PointerEvent, c: Canvas, dx: real, dy: real)
    ensures EventPos(e.(at := ClientPoint(e.at.x + dx, e.at.y + dy)),
                     Some(c.(left := c.left + dx, top := c.top + dy)))
         == EventPos(e, Some(c))
  {
  }

  /** How an export image is encoded. */
  datatype Encoding = Png | Jpeg(quality: real)

  /** What a download handler does. */
  datatype Outcome =
    | Ignored                 // returned at once: no canvas or no signature
    | Failed(title: string)   // an error message, no file
    | Silent                  // no file and no message
    | Saved(fileName: string, encoding: Encoding, picture: seq<Command>, placement: Option<Placement>)

  datatype Format = PngFile | PdfFile

  /** The compression dialog's choices. */
  datatype CompressionRequest = CompressionRequest(format: Format, value: real, unit: SizeUnit)

  const PdfQuality: real := 0.9

  class SignaturePad {
    var strokes: seq<Stroke>
    var currentStroke: Stroke
    var isDrawing: bool
    var hasSignature: bool
    var background: Colour
    var canvas: Option<Canvas>
    /** The `signature-strokes` storage entry; None when the key is absent. */
    var stored: Option<seq<Stroke>>

    /**
      `hasSignature` tells whether there are strokes, storage mirrors the
      strokes (or is absent while there are none), and the in-progress stroke
      is empty when not drawing.
     */
    ghost predicate Valid()
      reads this
    {
      && hasSignature == (|strokes| > 0)
      && (stored == Some(strokes) || (stored == None && strokes == []))
      && (!isDrawing ==> currentStroke == [])
      && (canvas.Some? ==> canvas.value.width > 0)
    }

    /** Mounting, which finds the canvas element: empty state on a white background, then the saved strokes are loaded. */
    constructor (canvas: Option<Canvas>, stored: Option<seq<Stroke>>)
      requires canvas.Some? && canvas.value.width > 0
      ensures Valid()
      ensures this.canvas == canvas && this.stored == stored
      ensures strokes == (if stored.Some? then stored.value else [])
      ensures currentStroke == [] && !isDrawing && background == White
    {
      this.strokes := [];
      this.currentStroke := [];
      this.isDrawing := false;
      this.hasSignature := false;
      this.background := White;
      this.canvas := canvas;
      this.stored := stored;
      new;
      LoadSaved();
    }

    /** Loading: a present storage entry replaces the strokes and sets `hasSignature` from them. */
    method LoadSaved()
      modifies this
      ensures strokes == (if old(stored).Some? then old(stored).value else old(strokes))
      ensures hasSignature == (if old(stored).Some? then |strokes| > 0 else old(hasSignature))
      ensures stored == old(stored) && currentStroke == old(currentStroke) && isDrawing == old(isDrawing)
      ensures background == old(background) && canvas == old(canvas)
      ensures old(Valid()) ==> Valid() && strokes == old(strokes)
    {
      if stored.Some? {
        strokes := stored.value;
        hasSignature := |stored.value| > 0;
      }
    }

    /** Pointer-down: start drawing a stroke seeded with the event position. */
    method StartDrawing(e: PointerEvent)
      requires Valid()
      modifies this
      ensures Valid()
      ensures isDrawing && currentStroke == [EventPos(e, canvas)]
      ensures strokes == old(strokes) && hasSignature == old(hasSignature) && stored == old(stored)
      ensures background == old(background) && canvas == old(canvas)
    {
      isDrawing := true;
      currentStroke := [EventPos(e, canvas)];
    }

    /**
      Pointer-move: while drawing, append the event position and draw only the
      new segment on the live canvas; otherwise nothing happens.
     */
    method Draw(e: PointerEvent) returns (segment: seq<Command>)
      requires Valid()
      modifies this
      ensures Valid()
      ensures !old(isDrawing) ==> currentStroke == old(currentStroke) && segment == []
      ensures old(isDrawing) ==> currentStroke == old(currentStroke) + [EventPos(e, canvas)]
      ensures segment != [] <==> old(isDrawing) && canvas.Some? && |currentStroke| > 1
      ensures segment != [] ==>
        segment == StrokeCommands(currentStroke[|currentStroke| - 2..])
      ensures isDrawing == old(isDrawing) && strokes == old(strokes) && hasSignature == old(hasSignature)
      ensures stored == old(stored) && background == old(background) && canvas == old(canvas)
    {
      segment := [];
      if !isDrawing {
        return;
      }
      var pos := EventPos(e, canvas);
      var newStroke := currentStroke + [pos];
      currentStroke := newStroke;
      if canvas.None? {
        return;
      }
      if |newStroke| > 1 {
        var prev := newStroke[|newStroke| - 2];
        segment := [BeginPath, MoveTo(prev), LineTo(pos), StrokePath];
        assert newStroke[|newStroke| - 2..] == [prev, pos];
        assert LineTos([pos]) == [LineTo(pos)];
      }
    }

    /**
      Pointer-up or leave: while drawing, commit the in-progress stroke when it
      has more than one point (storing the new strokes), then go idle with an
      empty in-progress stroke. Otherwise nothing happens.
     */
    method StopDrawing()
      requires Valid()
      modifies this
      ensures Valid()
      ensures strokes == (if old(isDrawing) then Commit(old(strokes), old(currentStroke)) else old(strokes))
      ensures !isDrawing && currentStroke == []
      ensures old(isDrawing) && |old(currentStroke)| > 1 ==> stored == Some(strokes) && hasSignature
      ensures !(old(isDrawing) && |old(currentStroke)| > 1) ==> stored == old(stored)
      ensures background == old(background) && canvas == old(canvas)
    {
      if !isDrawing {
        return;
      }
      isDrawing := false;
      if |currentStroke| > 1 {
        var newStrokes := strokes + [currentStroke];
        strokes := newStrokes;
        hasSignature := true;
        stored := Some(newStrokes);
      }
      currentStroke := [];
    }

    /**
      Clear: no strokes, no in-progress stroke, no signature, the storage key
      removed; the live canvas is cleared and refilled with the background.
     */
    method ClearSignature() returns (cmds: seq<Command>)
      requires Valid()
      modifies this
      ensures Valid()
      ensures strokes == [] && currentStroke == [] && !hasSignature && stored == None
      ensures cmds == (if canvas.Some? then ScreenRender([], background) else [])
      ensures isDrawing == old(isDrawing) && background == old(background) && canvas == old(canvas)
    {
      strokes := [];
      currentStroke := [];
      hasSignature := false;
      stored := None;
      cmds := [];
      if canvas.Some? {
        cmds := [Clear];
        if background != Transparent {
          cmds := cmds + [Fill(background)];
        }
        assert Paint([]) == [];
      }
    }

    /** Undo: with strokes, drop the last one and store the rest; with none, nothing happens. */
    method UndoLastStroke()
      requires Valid()
      modifies this
      ensures Valid()
      ensures strokes == Undo(old(strokes))
      ensures old(strokes) != [] ==> stored == Some(strokes)
      ensures old(strokes) == [] ==> stored == old(stored)
      ensures currentStroke == old(currentStroke) && isDrawing == old(isDrawing)
      ensures background == old(background) && canvas == old(canvas)
    {
      if |strokes| > 0 {
        var newStrokes := strokes[..|strokes| - 1];
        strokes := newStrokes;
        hasSignature := |newStrokes| > 0;
        stored := Some(newStrokes);
      }
    }

    /**
      Picking a background: the mount effect runs again (the saved strokes are
      reloaded, which the storage mirror makes a no-op) and the canvas is redrawn.
     */
    method SetBackground(colour: Colour) returns (cmds: seq<Command>)
      requires Valid()
      modifies this
      ensures Valid()
      ensures background == colour
      ensures strokes == old(strokes) && currentStroke == old(currentStroke) && isDrawing == old(isDrawing)
      ensures stored == old(stored) && canvas == old(canvas)
      ensures cmds == (if canvas.Some? then ScreenRender(strokes, colour) else [])
    {
      background := colour;
      LoadSaved();
      cmds := RedrawStrokes();
    }

    /** The full redraw of the live canvas from the strokes and background. */
    method RedrawStrokes() returns (cmds: seq<Command>)
      ensures cmds == (if canvas.Some? then ScreenRender(strokes, background) else [])
    {
      if canvas.None? {
        return [];
      }
      cmds := [Clear];
      if background != Transparent {
        cmds := cmds + [Fill(background)];
      }
      var paint := PaintStrokes(strokes);
      cmds := cmds + paint;
    }

    /**
      Download PNG: with a signature, rasterise onto a fresh canvas (transparent
      stays transparent) and save `signature.png`; `encoded` says whether the
      encoder produced a file.
     */
    method DownloadSignature(encoded: bool) returns (out: Outcome)
      ensures canvas.None? || !hasSignature ==> out == Ignored
      ensures canvas.Some? && hasSignature && !encoded ==> out == Failed("Download Failed")
      ensures canvas.Some? && hasSignature && encoded ==>
        out == Saved("signature.png", Png, PngRender(strokes, background), None)
    {
      if canvas.None? || !hasSignature {
        return Ignored;
      }
      var cmds := if background != Transparent then [Fill(background)] else [Clear];
      var paint := PaintStrokes(strokes);
      cmds := cmds + paint;
      if encoded {
        out := Saved("signature.png", Png, cmds, None);
      } else {
        out := Failed("Download Failed");
      }
    }

    /**
      Download PDF: with a signature, rasterise onto a fresh canvas with an
      opaque background and place it on the page at 80% width, centred; `built`
      says whether the PDF library completed without an exception.
     */
    method DownloadPdf(page: Size, built: bool) returns (out: Outcome)
      requires Valid()
      ensures canvas.None? || !hasSignature ==> out == Ignored
      ensures canvas.Some? && hasSignature && !built ==> out == Failed("PDF Generation Failed")
      ensures canvas.Some? && hasSignature && built ==>
        out == Saved("signature.pdf", Png, PdfRender(strokes, background),
                     Some(PdfPlacement(page, canvas.value.width, canvas.value.height)))
    {
      if canvas.None? || !hasSignature {
        return Ignored;
      }
      var cmds := [Fill(PdfBackground(background))];
      var paint := PaintStrokes(strokes);
      cmds := cmds + paint;
      if built {
        var c := canvas.value;
        out := Saved("signature.pdf", Png, cmds, Some(PdfPlacement(page, c.width, c.height)));
      } else {
        out := Failed("PDF Generation Failed");
      }
    }

    /**
      Compressed download. PNG: run the quality search against the target in
      bytes, then save the live canvas as a lossless PNG (silently nothing when
      the encoder fails). PDF: embed the live canvas as a JPEG at quality 0.9
      with the PDF placement; the target is not used.
     */
    method CompressAndDownload(request: CompressionRequest, page: Size, probe: real -> nat, encoded: bool)
      returns (out: Outcome, search: Option<Search>)
      requires Valid()
      ensures canvas.None? || !hasSignature ==> out == Ignored && search == None
      ensures canvas.Some? && hasSignature && request.format == PngFile ==>
        && search == Some(SearchFrom(Start, TargetBytes(request.value, request.unit), probe))
        && Bracketed(search.value) && search.value.attempts <= MaxAttempts
        && (search.value.attempts < MaxAttempts ==>
              CloseEnough(EstimatedBytes(probe(search.value.quality)), TargetBytes(request.value, request.unit)))
        && out == (if encoded then Saved("signature-compressed.png", Png, ScreenRender(strokes, background), None)
                   else Silent)
      ensures canvas.Some? && hasSignature && request.format == PdfFile ==>
        && search == None
        && out == Saved("signature-compressed.pdf", Jpeg(PdfQuality), ScreenRender(strokes, background),
                        Some(PdfPlacement(page, canvas.value.width, canvas.value.height)))
    {
      if canvas.None? || !hasSignature {
        return Ignored, None;
      }
      var target := TargetBytes(request.value, request.unit);
      var live := ScreenRender(strokes, background);
      if request.format == PngFile {
        var s, size := FindOptimalQuality(target, probe);
        search := Some(s);
        out := if encoded then Saved("signature-compressed.png", Png, live, None) else Silent;
      } else {
        var c := canvas.value;
        search := None;
        out := Saved("signature-compressed.pdf", Jpeg(PdfQuality), live, Some(PdfPlacement(page, c.width, c.height)));
      }
    }
  }
}

/** Scenarios that follow from the handlers' contracts alone. */
module PadScenarios {
  import opened Optional
  import opened Strokes
  import opened Rendering
  import opened Export
  import opened Pad

  /** Pointer-down, one move, pointer-up, then undo: the strokes are as before and storage then holds them. */
  method DrawThenUndo(pad: SignaturePad, down: PointerEvent, move: PointerEvent)
    requires pad.Valid() && !pad.isDrawing
    modifies pad
    ensures pad.Valid() && !pad.isDrawing
    ensures pad.strokes == old(pad.strokes) && pad.hasSignature == old(pad.hasSignature)
    ensures pad.stored == Some(old(pad.strokes))
    ensures pad.background == old(pad.background) && pad.canvas == old(pad.canvas)
  {
    pad.StartDrawing(down);
    var _ := pad.Draw(move);
    ghost var drawn := pad.currentStroke;
    assert Visible(drawn);
    pad.StopDrawing();
    UndoAfterCommit(old(pad.strokes), drawn);
    pad.UndoLastStroke();
  }

  /** A tap (pointer-down then pointer-up) leaves the signature and its storage untouched. */
  method TapLeavesNoStroke(pad: SignaturePad, down: PointerEvent)
    requires pad.Valid() && !pad.isDrawing
    modifies pad
    ensures pad.Valid() && !pad.isDrawing
    ensures pad.strokes == old(pad.strokes) && pad.stored == old(pad.stored)
    ensures pad.hasSignature == old(pad.hasSignature)
    ensures pad.background == old(pad.background) && pad.canvas == old(pad.canvas)
  {
    pad.StartDrawing(down);
    pad.StopDrawing();
  }

  /** Clearing a cleared pad changes nothing: clear is idempotent. */
  method ClearAgain(pad: SignaturePad) returns (first: seq<Command>, second: seq<Command>)
    requires pad.Valid()
    modifies pad
    ensures pad.Valid() && pad.strokes == [] && !pad.hasSignature && pad.stored == None
    ensures pad.currentStroke == [] && pad.isDrawing == old(pad.isDrawing)
    ensures pad.background == old(pad.background) && pad.canvas == old(pad.canvas)
    ensures second == first
  {
    first := pad.ClearSignature();
    second := pad.ClearSignature();
  }

  /** Clear, then undo: the undo finds nothing to restore. */
  method UndoAfterClear(pad: SignaturePad)
    requires pad.Valid()
    modifies pad
    ensures pad.Valid() && pad.strokes == [] && !pad.hasSignature && pad.stored == None
    ensures pad.background == old(pad.background) && pad.canvas == old(pad.canvas)
  {
    var _ := pad.ClearSignature();
    pad.UndoLastStroke();
  }

  /** With no strokes, none of the three downloads does anything. */
  method EmptyPadExportsNothing(pad: SignaturePad, page: Size, request: CompressionRequest,
                                probe: real -> nat, encoded: bool)
    returns (png: Outcome, pdf: Outcome, compressed: Outcome)
    requires pad.Valid() && pad.strokes == []
    ensures png == Ignored && pdf == Ignored && compressed == Ignored
  {
    png := pad.DownloadSignature(encoded);
    pdf := pad.DownloadPdf(page, encoded);
    var search;
    compressed, search := pad.CompressAndDownload(request, page, probe, encoded);
  }
}
