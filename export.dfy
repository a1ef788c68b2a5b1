/**
  The export arithmetic of the signature pad: where the image goes on a PDF
  page, how a target size becomes bytes, how the size of an encoded probe is
  estimated from its data URL, and the bounded bisection over encoder quality
  that the compressed PNG download runs.
 */
module Export {

  /** A PDF page, in the page units of the PDF library. */
  datatype Size = Size(width: real, height: real)

  /** Where the image is drawn on the page. */
  datatype Placement = Placement(x: real, y: real, width: real, height: real)

  /** 80% of the page width, the canvas's aspect ratio, centred both ways. */
  function PdfPlacement(page: Size, canvasWidth: nat, canvasHeight: nat): (r: Placement)
    requires canvasWidth > 0
    ensures r.width == 0.8 * page.width
    ensures r.height * canvasWidth as real == r.width * canvasHeight as real
    ensures r.x == page.width - (r.x + r.width)
    ensures r.y == page.height - (r.y + r.height)
    ensures page.width >= 0.0 ==> 0.0 <= r.x && r.x + r.width <= page.width
  {
    var w := page.width * 0.8;
    var h := (canvasHeight as real / canvasWidth as real) * w;
    Placement((page.width - w) / 2.0, (page.height - h) / 2.0, w, h)
  }

  /** The image fits on the page vertically exactly when its scaled height does. */
  lemma PlacementFitsVertically(page: Size, canvasWidth: nat, canvasHeight: nat)
    requires canvasWidth > 0
    ensures var r := PdfPlacement(page, canvasWidth, canvasHeight);
      0.0 <= r.y <==> r.height <= page.height
  {
  }

  datatype SizeUnit = KB | MB

  /** The target in bytes: value × 1024 for KB, value × 1024² for MB. */
  function TargetBytes(value: real, unit: SizeUnit): (r: real)
    ensures unit == KB ==> r == value * 1024.0
    ensures unit == MB ==> r == value * 1048576.0
  {
    value * (if unit == KB then 1024.0 else 1024.0 * 1024.0)
  }

  /** The data-URL header (RFC 2397) of a base64 JPEG probe, stripped before counting. */
  const JpegPrefix: string := "data:image/jpeg;base64,"

  /** JavaScript's Math.round: the nearest integer, halves rounded up. */
  function Round(x: real): int {
    (x + 0.5).Floor
  }

  /**
    The probe's estimated size in bytes: the payload length × 3/4, rounded,
    written in integers (exact, since Dafny's division by 4 rounds down).
   */
  function EstimatedBytes(urlLength: int): int {
    (3 * (urlLength - |JpegPrefix|) + 2) / 4
  }

  /** The integer form agrees with Math.round((length − |prefix|) × 3/4) on every length. */
  lemma EstimatedBytesIsRounded(urlLength: int)
    ensures EstimatedBytes(urlLength) == Round((urlLength - |JpegPrefix|) as real * 3.0 / 4.0)
  {
  }

  /** The '=' characters that end a base64 payload (section 4 of RFC 4648 allows at most two). */
  function Padding(payload: string): (n: nat)
    ensures n <= 2 && n <= |payload|
    ensures forall i :: |payload| - n <= i < |payload| ==> payload[i] == '='
    ensures |payload| >= 1 && payload[|payload| - 1] == '=' ==> n >= 1
    ensures |payload| >= 2 && payload[|payload| - 2] == '=' && payload[|payload| - 1] == '=' ==> n == 2
  {
    if |payload| >= 2 && payload[|payload| - 1] == '=' && payload[|payload| - 2] == '=' then 2
    else if |payload| >= 1 && payload[|payload| - 1] == '=' then 1
    else 0
  }

  /**
    The bytes a base64 payload decodes to (section 4 of RFC 4648): 3 per group
    of 4 characters, less one per padding character.
   */
  function DecodedLength(payload: string): int {
    |payload| / 4 * 3 - Padding(payload)
  }

  /**
    For a payload of whole 4-character groups the estimate is exactly 3 bytes
    per group, so it exceeds the decoded size by the padding only, at most 2 bytes.
   */
  lemma EstimateOfBase64Payload(payload: string)
    requires |payload| % 4 == 0
    ensures EstimatedBytes(|JpegPrefix| + |payload|) == |payload| / 4 * 3
    ensures 0 <= EstimatedBytes(|JpegPrefix| + |payload|) - DecodedLength(payload) <= 2
  {
    var k := |payload| / 4;
    assert |payload| == 4 * k;
    assert 3 * (4 * k) + 2 == 4 * (3 * k) + 2;
  }

  // ---------------------------------------------------------------------------
  // The quality bisection

  const StartQuality: real := 0.9
  const LowestQuality: real := 0.1
  const HighestQuality: real := 1.0
  const MaxAttempts: nat := 10

  /** The search state: the trial quality, its bracket and the adjustments made so far. */
  datatype Search = Search(quality: real, minQuality: real, maxQuality: real, attempts: nat)

  const Start := Search(StartQuality, LowestQuality, HighestQuality, 0)

  /** The bracket invariant: 0.1 ≤ min ≤ quality ≤ max ≤ 1.0. */
  predicate Bracketed(s: Search) {
    LowestQuality <= s.minQuality <= s.quality <= s.maxQuality <= HighestQuality
  }

  function Abs(x: real): real {
    if x < 0.0 then -x else x
  }

  /** Within 10% of the target. */
  predicate CloseEnough(size: int, target: real) {
    Abs(size as real - target) < target * 0.1
  }

  function Pow2(n: nat): nat {
    if n == 0 then 1 else 2 * Pow2(n - 1)
  }

  /** An upper bound on the bracket width after `n` + 1 adjustments: 0.8 halved `n` times. */
  function Span(n: nat): (w: real)
    ensures 0.0 < w <= 0.8
    ensures w * Pow2(n) as real == 0.8
  {
    if n == 0 then 0.8 else Span(n - 1) / 2.0
  }

  /**
    One adjustment: an oversize probe lowers the upper bound to the trial
    quality and moves down to the middle of the lower half; otherwise the lower
    bound rises to the trial quality and the search moves to the middle of the
    upper half.
   */
  function Adjust(s: Search, oversize: bool): (r: Search)
    ensures r.attempts == s.attempts + 1
    ensures oversize ==> r.minQuality == s.minQuality && r.maxQuality == s.quality
    ensures !oversize ==> r.minQuality == s.quality && r.maxQuality == s.maxQuality
    ensures Bracketed(s) ==> Bracketed(r)
    ensures Bracketed(s) && oversize ==> r.quality <= s.quality
    ensures Bracketed(s) && !oversize ==> s.quality <= r.quality
    ensures Bracketed(s) ==> r.maxQuality - r.minQuality <= s.maxQuality - s.minQuality
  {
    if oversize then
      Search((s.minQuality + s.quality) / 2.0, s.minQuality, s.quality, s.attempts + 1)
    else
      Search((s.quality + s.maxQuality) / 2.0, s.quality, s.maxQuality, s.attempts + 1)
  }

  /**
    The search as the source runs it, from state `s`: probe at the trial
    quality; stop once 10 adjustments have been made or the estimate is within
    10% of the target; otherwise adjust on whether the probe was oversize.
   */
  function SearchFrom(s: Search, target: real, probe: real -> nat): Search
    decreases MaxAttempts - s.attempts
  {
    var size := EstimatedBytes(probe(s.quality));
    if s.attempts >= MaxAttempts || CloseEnough(size, target) then s
    else SearchFrom(Adjust(s, size as real > target), target, probe)
  }

  /**
    From the start, the search ends bracketed within [0.1, 1.0] after at most
    10 adjustments, stopping early only on a probe within 10% of the target;
    after any adjustment the quality is the middle of a bracket that has halved
    each time.
   */
  lemma {:induction false} SearchFromBounds(s: Search, target: real, probe: real -> nat)
    requires Bracketed(s) && s.attempts <= MaxAttempts
    requires s.attempts == 0 ==> s == Start
    requires s.attempts > 0 ==> s.quality == (s.minQuality + s.maxQuality) / 2.0
    requires s.attempts > 0 ==> s.maxQuality - s.minQuality <= Span(s.attempts - 1)
    ensures var r := SearchFrom(s, target, probe);
      && Bracketed(r) && s.attempts <= r.attempts <= MaxAttempts
      && (r.attempts < MaxAttempts ==> CloseEnough(EstimatedBytes(probe(r.quality)), target))
      && (r.attempts == 0 ==> r == Start)
      && (r.attempts > 0 ==> r.quality == (r.minQuality + r.maxQuality) / 2.0)
      && (r.attempts > 0 ==> r.maxQuality - r.minQuality <= Span(r.attempts - 1))
    decreases MaxAttempts - s.attempts
  {
    var size := EstimatedBytes(probe(s.quality));
    if !(s.attempts >= MaxAttempts || CloseEnough(size, target)) {
      SearchFromBounds(Adjust(s, size as real > target), target, probe);
    }
  }

  /**
    The compressed-PNG search. `probe` stands for the JPEG encoder: the length of
    the data URL it yields at a given quality. The loop probes, stops once 10
    adjustments have been made or the estimate is within 10% of the target, and
    otherwise adjusts.
   */
  method FindOptimalQuality(target: real, probe: real -> nat) returns (s: Search, size: int)
    ensures s == SearchFrom(Start, target, probe)
    ensures Bracketed(s) && s.attempts <= MaxAttempts
    ensures size == EstimatedBytes(probe(s.quality))
    ensures s.attempts < MaxAttempts ==> CloseEnough(size, target)
    ensures s.attempts == 0 ==> s == Start
    ensures s.attempts > 0 ==> s.quality == (s.minQuality + s.maxQuality) / 2.0
    ensures s.attempts > 0 ==> s.maxQuality - s.minQuality <= Span(s.attempts - 1)
  {
    s := Start;
    size := EstimatedBytes(probe(s.quality));
    while !(s.attempts >= MaxAttempts || CloseEnough(size, target))
      invariant SearchFrom(s, target, probe) == SearchFrom(Start, target, probe)
      invariant Bracketed(s) && s.attempts <= MaxAttempts
      invariant size == EstimatedBytes(probe(s.quality))
      invariant s.attempts == 0 ==> s == Start
      invariant s.attempts > 0 ==> s.quality == (s.minQuality + s.maxQuality) / 2.0
      invariant s.attempts > 0 ==> s.maxQuality - s.minQuality <= Span(s.attempts - 1)
      decreases MaxAttempts - s.attempts
    {
      s := Adjust(s, size as real > target);
      size := EstimatedBytes(probe(s.quality));
    }
  }
}
