# Signature pad, feedback wall and FAQ accordion — a Dafny model

This project models the logic of a marketing site's signature-drawing widget.
The user draws strokes with mouse or touch. The pad keeps them in memory and in
local storage under `signature-strokes`, with undo and clear. It redraws the
canvas from the strokes and a chosen background. It downloads the signature as
PNG, as PDF, or "compressed" after a bounded bisection over encoder quality.
Two small widgets of the same site are modelled too: the feedback wall, which
prepends trimmed messages, and the FAQ accordion, which keeps one answer open.

Modules:

- `Strokes` (strokes.dfy): points, strokes, the commit rule and undo as
  functions on sequences.
- `Rendering` (rendering.dfy): the canvas calls as a `Command` list.
  - `ScreenRender` is the live redraw, `PngRender` the PNG export raster and
    `PdfRender` the PDF raster.
  - `PaintStrokes` and `PaintStroke` are the shared stroke loops (the `forEach`
    and the inner `for`).
  - `Run` over a `Surface` is a reference meaning for the commands. It gives the
    ground colour and the polylines inked, in order, so each render can be
    stated by what it draws.
- `Export` (export.dfy): the PDF placement, the target-size conversion, the
  data-URL size estimate, `SearchFrom` (the quality search as a recursive
  reference) and `FindOptimalQuality`, the bisection loop proved equal to it.
- `Pad` (pad.dfy): the `SignaturePad` class. Its fields are `strokes`,
  `currentStroke`, `isDrawing`, `hasSignature`, `background`, `canvas` and the
  storage entry `stored`. It holds the pointer handlers, undo, clear, the redraw
  and the three downloads. `Valid()` keeps `hasSignature == (|strokes| > 0)` and
  keeps storage mirroring the strokes.
- `PadScenarios` (pad.dfy): call sequences whose outcome follows from the
  handlers' contracts: draw then undo, a tap, clearing twice, undo after clear,
  and downloads of an empty pad.
- `Feedback` (feedback.dfy): JavaScript `trim`, the submission rule, the wall,
  and the `FeedbackSystem` class.
- `Faq` (faq.dfy): the toggle rule and the `FaqAccordion` class.

Foreign calls become parameters:

- the PNG encoder's success is `encoded`;
- the PDF library finishing without an exception is `built`;
- the JPEG probe is `probe: real -> nat`, the data-URL length at a quality;
- the PDF page size is `page`;
- the clock is `now`.

Behaviour of the code worth noting:

- Undo of the only stroke writes `[]` under `signature-strokes`
  (SignaturePad.tsx:192) rather than removing the key, so a stroke drawn on a
  pad with no saved entry and then undone leaves the key holding the empty
  list. `PadScenarios.DrawThenUndo` states this.
- The compression search probes the encoder up to 11 times
  (SignaturePad.tsx:331-363): it makes at most 10 adjustments and probes once
  more after the last one before it stops.
- The compressed PNG is the live canvas encoded losslessly
  (SignaturePad.tsx:337-350); the quality the search found is passed to the PNG
  encoder, which has no quality setting.
- The compressed PDF embeds the live canvas as a JPEG at quality 0.9
  (SignaturePad.tsx:370-381) and does not use the target size.
- When the compressed PNG's encoder yields nothing, there is no file and no
  message (SignaturePad.tsx:337-349, `Outcome.Silent`); the plain PNG download
  reports "Download Failed" (line 249).

## Model

| member | source | states |
|---|---|---|
| `Strokes.VisibleStrokes` | src/components/SignaturePad.tsx:102-103 | the strokes drawn are no more than the strokes, all have more than one point, and they are all the strokes when every stroke has more than one point |
| `Strokes.VisibleStrokesAre` | src/components/SignaturePad.tsx:102-103 | a stroke is drawn iff it is a stroke of the signature with more than one point |
| `Strokes.Undo` | src/components/SignaturePad.tsx:187-194 | undo on an empty list gives the empty list; otherwise the result is one shorter and the old list is the result plus the removed last stroke (the others keep their order) |
| `Strokes.CommitInvisible` | src/components/SignaturePad.tsx:160-165 | committing a stroke of fewer than two points leaves the strokes unchanged |
| `Strokes.UndoAfterCommit` | src/components/SignaturePad.tsx:187-194 | undo after a successful commit gives back exactly the previous strokes |
| `Strokes.CommitUndoKeepVisible` | src/components/SignaturePad.tsx:160-161 | commit and undo keep a signature made only of strokes with more than one point |
| `Strokes.VisibleStrokesAppend` | src/components/SignaturePad.tsx:102-111 | the visible strokes of a concatenation are the concatenation of the visible strokes |
| `Strokes.CommitKeepsTheVisibleStrokes` | src/components/SignaturePad.tsx:156-167 | dropping one-point strokes at commit changes nothing that is drawn: the visible strokes equal those of keeping every stroke |
| `Rendering.LineTosAt` | src/components/SignaturePad.tsx:106-108 | one `lineTo` per point, the i-th for the i-th point |
| `Rendering.PdfBackground` | src/components/SignaturePad.tsx:272-274 | the PDF fill is never "transparent": transparent becomes #FFFFFF, any other colour passes through |
| `Rendering.PaintAppend` | src/components/SignaturePad.tsx:102-111 | the stroke commands of a concatenation of signatures are the concatenation of their commands |
| `Rendering.PaintOnlyVisible` | src/components/SignaturePad.tsx:103 | strokes shorter than two points emit nothing: painting equals painting the visible strokes only |
| `Rendering.PaintNeverFills` | src/components/SignaturePad.tsx:102-111 | the stroke loop never clears or fills the surface |
| `Rendering.ScreenRenderBackground` | src/components/SignaturePad.tsx:89-95 | the redraw starts with a clear and contains a fill with colour c iff c is the background and the background is not "transparent" |
| `Rendering.PdfRenderIsOpaque` | src/components/SignaturePad.tsx:271-274 | the PDF raster starts with a fill of the substituted background, has no fill at any later position, so it fills exactly once, and never fills with "transparent" |
| `Rendering.RunLineTos` | src/components/SignaturePad.tsx:106-108 | the `lineTo`s extend the current path by the points in order |
| `Rendering.RunStroke` | src/components/SignaturePad.tsx:103-110 | a stroke of two or more points is inked exactly as captured; a shorter one leaves the surface as it was |
| `Rendering.RunPaint` | src/components/SignaturePad.tsx:102-111 | painting inks exactly the visible strokes, in drawing order, and keeps the ground colour |
| `Rendering.ScreenRenderShows` | src/components/SignaturePad.tsx:89-111 | from any earlier canvas content, the redraw shows the background as ground and exactly the visible strokes |
| `Rendering.PngRenderMatchesScreen` | src/components/SignaturePad.tsx:211-234 | the PNG export raster shows the same ground (transparency included) and the same strokes as the on-screen redraw |
| `Rendering.PdfRenderShows` | src/components/SignaturePad.tsx:271-291 | the PDF raster shows the visible strokes on the substituted background, which is never the sentinel `transparent` |
| `Rendering.PaintStroke` | src/components/SignaturePad.tsx:103-110 | the inner loop emits `beginPath`, `moveTo(first)`, a `lineTo` per later point in order, and `stroke`; nothing for a short stroke |
| `Rendering.PaintStrokes` | src/components/SignaturePad.tsx:102-111 | the loop over strokes emits exactly the specified stroke commands (the same loop appears at lines 225-234 and 282-291) |
| `Export.PdfPlacement` | src/components/SignaturePad.tsx:295-302 | the image is 80% of the page width, keeps the canvas aspect ratio, has equal left and right margins and equal top and bottom margins, and lies within the page width |
| `Export.PlacementFitsVertically` | src/components/SignaturePad.tsx:299-302 | the image's top edge is on the page iff its scaled height is at most the page height |
| `Export.TargetBytes` | src/components/SignaturePad.tsx:321 | the target is value × 1024 bytes for KB and value × 1024 × 1024 for MB |
| `Export.EstimatedBytesIsRounded` | src/components/SignaturePad.tsx:333 | the integer estimate equals Math.round((URL length − length of the JPEG data-URL header) × 3/4) for every length |
| `Export.Padding` | src/components/SignaturePad.tsx:333 | the count is at most two and at most the payload's length, the last `n` characters are '=', a final '=' gives at least 1 and two final '=' give exactly 2 |
| `Export.EstimateOfBase64Payload` | src/components/SignaturePad.tsx:333 | a payload of 4k characters is estimated at 3k bytes, which exceeds its decoded length (3 bytes per group less one per padding character) by at most 2 bytes |
| `Export.Span` | src/components/SignaturePad.tsx:354-361 | the bound on the bracket width after `n` + 1 adjustments is 0.8 halved `n` times, so it stays within (0, 0.8] |
| `Export.Adjust` | src/components/SignaturePad.tsx:354-361 | an oversize probe lowers the upper bound to the trial quality and does not raise the quality; otherwise the lower bound rises to it and the quality does not fall; the bracket is kept and never widens |
| `Export.SearchFromBounds` | src/components/SignaturePad.tsx:325-363 | the search from the start ends bracketed within [0.1, 1.0] after at most 10 adjustments, stops early only on a probe within 10% of the target, and after adjusting sits at the middle of a bracket halved each time |
| `Export.FindOptimalQuality` | src/components/SignaturePad.tsx:324-366 | the loop ends in exactly the state the search reaches by probing, adjusting on each oversize or undersize probe and stopping at the first probe within 10% or after 10 adjustments; that state is bracketed within [0.1, 1.0] and its estimate is the one returned |
| `Pad.EventPos` | src/components/SignaturePad.tsx:114-126 | the point is the client position minus the canvas origin, or (0, 0) without a canvas |
| `Pad.EventPosIgnoresScroll` | src/components/SignaturePad.tsx:118-125 | moving the pointer and the canvas by the same offset gives the same canvas-local point |
| `Pad.SignaturePad.constructor` | src/components/SignaturePad.tsx:69-75 | mounting with the canvas element present loads the saved strokes if the key is present; `hasSignature` is true iff there are strokes |
| `Pad.SignaturePad.LoadSaved` | src/components/SignaturePad.tsx:70-75 | a present entry replaces the strokes and sets `hasSignature`; while storage mirrors the strokes, loading changes nothing |
| `Pad.SignaturePad.StartDrawing` | src/components/SignaturePad.tsx:128-133 | drawing starts with an in-progress stroke of exactly one point, the event position |
| `Pad.SignaturePad.Draw` | src/components/SignaturePad.tsx:135-154 | when not drawing nothing changes; otherwise exactly the event position is appended, and the one new segment is drawn iff there is a canvas and the stroke has two or more points |
| `Pad.SignaturePad.StopDrawing` | src/components/SignaturePad.tsx:156-167 | when not drawing nothing changes; otherwise the stroke is committed iff it has more than one point, storage then holds the new strokes, and the pad goes idle with an empty in-progress stroke |
| `Pad.SignaturePad.ClearSignature` | src/components/SignaturePad.tsx:169-185 | no strokes, no in-progress stroke, no signature, the storage key removed; the canvas is cleared and refilled with the background |
| `Pad.SignaturePad.UndoLastStroke` | src/components/SignaturePad.tsx:187-194 | the last stroke is removed and storage holds the rest; with no strokes nothing changes |
| `Pad.SignaturePad.SetBackground` | src/components/SignaturePad.tsx:56-78 | the background changes; re-running the load effect leaves the strokes as they were; the canvas is redrawn |
| `Pad.SignaturePad.RedrawStrokes` | src/components/SignaturePad.tsx:84-112 | the redraw issues exactly the screen render of the strokes on the background, or nothing without a canvas |
| `Pad.SignaturePad.DownloadSignature` | src/components/SignaturePad.tsx:196-253 | does nothing without a signature; otherwise saves `signature.png` with the PNG raster, or fails with "Download Failed" |
| `Pad.SignaturePad.DownloadPdf` | src/components/SignaturePad.tsx:255-312 | does nothing without a signature; otherwise saves `signature.pdf` with the raster on the substituted background (never the sentinel `transparent`) at the centred 80%-width placement, or fails with "PDF Generation Failed" |
| `Pad.SignaturePad.CompressAndDownload` | src/components/SignaturePad.tsx:314-388 | does nothing without a signature; PNG runs the quality search against the target in bytes, ending in the state `Export.SearchFrom` determines from the probes, and saves the live canvas losslessly (silently nothing if encoding fails); PDF saves a JPEG at 0.9 with the same placement |
| `PadScenarios.DrawThenUndo` | src/components/SignaturePad.tsx:156-194 | a stroke drawn and then undone leaves the strokes and `hasSignature` as they were, and the background and canvas unchanged; storage then holds those strokes |
| `PadScenarios.TapLeavesNoStroke` | src/components/SignaturePad.tsx:128-167 | pointer-down then pointer-up without a move changes neither the strokes, `hasSignature`, storage, the background nor the canvas |
| `PadScenarios.ClearAgain` | src/components/SignaturePad.tsx:169-185 | clearing twice leaves no strokes, no signature and no key, keeps the background and canvas, and the second clear issues exactly the first clear's commands |
| `PadScenarios.UndoAfterClear` | src/components/SignaturePad.tsx:169-194 | undo after clear finds nothing to restore: no strokes and the key absent, background and canvas unchanged |
| `PadScenarios.EmptyPadExportsNothing` | src/components/SignaturePad.tsx:196-316 | with no strokes, the PNG, PDF and compressed downloads all do nothing |
| `Feedback.TrimStart` | src/components/FeedbackSystem.tsx:32 | the result is a suffix of the input, only white space was dropped, and it does not start with white space |
| `Feedback.TrimEnd` | src/components/FeedbackSystem.tsx:32 | the result is a prefix of the input, only white space was dropped, and it does not end with white space |
| `Feedback.TrimIsSlice` | src/components/FeedbackSystem.tsx:36 | the trimmed message is a slice of the message with only white space cut on either side, and it neither starts nor ends with white space |
| `Feedback.TrimEmptyIffBlank` | src/components/FeedbackSystem.tsx:32 | the trim is empty iff the message is white space only |
| `Feedback.TrimIdempotent` | src/components/FeedbackSystem.tsx:36 | trimming twice equals trimming once |
| `Feedback.Post` | src/components/FeedbackSystem.tsx:31-41 | a blank message is refused; otherwise the list grows by one, the new entry with the trimmed non-empty message is first, and the old entries follow in order |
| `Feedback.Wall` | src/components/FeedbackSystem.tsx:122-135 | the wall is hidden iff there are no entries; otherwise it shows the first min(6, n) entries |
| `Feedback.WallAfterPost` | src/components/FeedbackSystem.tsx:135 | after a submission the wall leads with the new entry, followed by what it showed before, less its oldest entry when it was full |
| `Feedback.FeedbackSystem.constructor` | src/components/FeedbackSystem.tsx:19-29 | the dialog is closed, the message empty, and the saved entries are loaded |
| `Feedback.FeedbackSystem.Open` | src/components/FeedbackSystem.tsx:69 | the dialog opens and nothing else changes |
| `Feedback.FeedbackSystem.Close` | src/components/FeedbackSystem.tsx:95 | the dialog closes and nothing else changes |
| `Feedback.FeedbackSystem.Edit` | src/components/FeedbackSystem.tsx:104 | the message becomes the typed text and nothing else changes |
| `Feedback.FeedbackSystem.Submit` | src/components/FeedbackSystem.tsx:31-54 | a blank message changes nothing; otherwise the trimmed entry is prepended, storage equals the list, the message is emptied, the dialog closes and the thank-you note shows |
| `Feedback.FeedbackSystem.HideThankYou` | src/components/FeedbackSystem.tsx:53 | the thank-you note is hidden and nothing else changes |
| `Faq.Toggled` | src/components/FAQ.tsx:34-36 | toggling the open index closes it; toggling any other opens exactly that index |
| `Faq.AtMostOneShown` | src/components/FAQ.tsx:63-76 | two shown answers are the same answer |
| `Faq.ToggleShows` | src/components/FAQ.tsx:34-36 | after a toggle of i, answer j shows iff j is i and i was closed |
| `Faq.ToggleTwiceCloses` | src/components/FAQ.tsx:34-36 | toggling a closed index twice leaves every answer closed |
| `Faq.FaqAccordion.constructor` | src/components/FAQ.tsx:5 | initially no answer is open |
| `Faq.FaqAccordion.Toggle` | src/components/FAQ.tsx:34-36 | the open index becomes the toggle of the old one |

## Left out

- Pixels: `getContext` rendering, `fillStyle`/`strokeStyle`, the fixed stroke style (black, width 2, round caps and joins), `ctx.scale` by the device pixel ratio, canvas sizing and the resize listener (SignaturePad.tsx:39-67). Drawing is the `Command` list. The device pixel ratio is not modelled, and it is applied to the live canvas only, not to the export canvases.
- A missing 2D context on an existing canvas (SignaturePad.tsx:36, 87, 145, 177, 206, 266) is not modelled; only a missing canvas element is. On a missing context the mount effect returns at line 36 before loading the saved strokes, which the model does not capture.
- Pad.SignaturePad.constructor: requires the canvas element; the component always renders it (SignaturePad.tsx:486), so it exists whenever the mount effect runs. Without it the effect would return at lines 32-33 before loading the saved strokes; that path is not modelled. The handlers still treat a missing canvas as the source does.
- The content of the live canvas is taken to be the full redraw of the current strokes, `ScreenRender(strokes, background)`, and the compressed downloads encode that. Segments drawn during a stroke are not tracked there. The resize listener redraws with the strokes captured when the mount effect last ran (SignaturePad.tsx:63, 78: it depends only on the background), so after a window resize the live canvas, and both compressed downloads, can miss strokes drawn since. A JPEG of a transparent live canvas (line 372) loses its alpha; encodings are not modelled.
- `Colour` is assumed to be the sentinel "transparent" or a valid opaque CSS colour. The background comes from a free-text input (SignaturePad.tsx:473-478) and the code compares only the exact string "transparent" (lines 92, 212, 272). Other transparent spellings ("Transparent", "rgba(0,0,0,0)", "#FFF0") pass unchanged and render transparent, even in the PDF; an invalid string leaves the fill at its default black on the fresh export canvases (lines 213, 273). `Step` treats every string but "transparent" as an opaque fill, so "never transparent" in the rendering lemmas means "never the sentinel".
- Encoders and file saving (`toBlob`, `toDataURL`, jsPDF `addImage`/`save`, the anchor click) are oracles (`encoded`, `built`, `probe`). A download is an `Outcome.Saved` value with file name, encoding, picture and placement.
- An exception from jsPDF on the compressed PDF path is not caught by the source and is not modelled; that path always saves.
- Local storage and JSON: each storage entry is an `Option` field holding the sequence itself. Malformed or differently shaped saved data is not modelled.
- Asynchrony: the `setTimeout` between search steps, the missing guard against a second concurrent compression, and the 3-second thank-you timer. The search is a plain loop and the timer is the method `HideThankYou`.
- React batching: each handler is modelled as seeing the state left by the previous handler. Move events between two renders that would read a stale `currentStroke` are not modelled.
- Numbers are Dafny reals rather than IEEE doubles. `parseFloat` of the target text is not modelled (the target value is a real), so a non-numeric target (NaN) is not covered. `Math.round` of the size estimate is modelled exactly.
- A canvas whose backing width is 0 is excluded by `SignaturePad.Valid()`, because the PDF placement divides by it.
- `isProcessing`, success toasts, the compression dialog's visibility, the colour picker UI, `trackEvent` analytics and `formatDate` are not modelled. Only the failure titles remain, in `Outcome.Failed`.
- A feedback entry's `id` is the clock value as a number, not its decimal string. Its timestamp is the same `now`, although the source reads the clock twice.
- The rest of the site (App.tsx theme glue, CookieBanner.tsx, ScrollToTop.tsx, Analytics.tsx, and the static sections Hero.tsx, Footer.tsx, Features.tsx, UseCases.tsx, HowItWorks.tsx) is not part of this model.
