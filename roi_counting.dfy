/**
 * The counting side of smartTrafficManagement/multi_video_processing.py:
 * which detected boxes count for a camera's region of interest, the counts
 * the main loop keeps per camera and refreshes every `NthFrame` frames, and
 * the line it writes to the count file.
 *
 * Detection itself (the network, confidence filtering and non-maximum
 * suppression) is not modelled: each camera's detector hands over the
 * integer boxes that survive suppression, in the order it kept them.
 */
module RoiCounting {
  import opened Wrappers
  import opened Text

  /** A detected box `[x, y, w, h]`: top-left corner, width and height. */
  datatype Box = Box(x: int, y: int, w: int, h: int)

  /** A region of interest: its top-left and bottom-right corners. */
  datatype Roi = Roi(x1: int, y1: int, x2: int, y2: int)

  function Max(a: int, b: int): int { if a >= b then a else b }

  function Min(a: int, b: int): int { if a <= b then a else b }

  /** The overlap test: the intersection of the box and the region has
      positive width and positive height. */
  predicate Overlaps(b: Box, roi: Roi)
    ensures Overlaps(b, roi) ==> b.w > 0 && b.h > 0 && roi.x1 < roi.x2 && roi.y1 < roi.y2
  {
    Min(roi.x2, b.x + b.w) > Max(roi.x1, b.x) && Min(roi.y2, b.y + b.h) > Max(roi.y1, b.y)
  }

  /** The pixel `(px, py)` lies in the half-open rectangle from `(x1, y1)`
      up to but excluding `(x2, y2)`. */
  predicate Covers(x1: int, y1: int, x2: int, y2: int, px: int, py: int) {
    x1 <= px < x2 && y1 <= py < y2
  }

  /** A pixel the box and the region both cover. */
  predicate SharedPixel(b: Box, roi: Roi, px: int, py: int) {
    Covers(b.x, b.y, b.x + b.w, b.y + b.h, px, py) && Covers(roi.x1, roi.y1, roi.x2, roi.y2, px, py)
  }

  /** A box counts exactly when it and the region share a pixel. */
  lemma OverlapsIffSharedPixel(b: Box, roi: Roi)
    ensures Overlaps(b, roi) <==> exists px, py :: SharedPixel(b, roi, px, py)
  {
    if Overlaps(b, roi) {
      assert SharedPixel(b, roi, Max(roi.x1, b.x), Max(roi.y1, b.y));
    }
    if exists px, py :: SharedPixel(b, roi, px, py) {
      var px, py :| SharedPixel(b, roi, px, py);
      assert Max(roi.x1, b.x) <= px < Min(roi.x2, b.x + b.w);
      assert Max(roi.y1, b.y) <= py < Min(roi.y2, b.y + b.h);
    }
  }

  /** A box counts exactly when, on each axis, each of the two intervals
      starts strictly before the other one ends and neither is empty. */
  lemma OverlapsIffIntervalsCross(b: Box, roi: Roi)
    ensures Overlaps(b, roi) <==>
      b.w > 0 && roi.x1 < roi.x2 && b.x < roi.x2 && roi.x1 < b.x + b.w &&
      b.h > 0 && roi.y1 < roi.y2 && b.y < roi.y2 && roi.y1 < b.y + b.h
  {
  }

  /** A box whose edge only touches the region's edge does not count. */
  lemma TouchingBoxNotCounted(b: Box, roi: Roi)
    requires b.x + b.w == roi.x1 || b.x == roi.x2 || b.y + b.h == roi.y1 || b.y == roi.y2
    ensures !Overlaps(b, roi)
  {
  }

  /** A box without positive width and height never counts. */
  lemma FlatBoxNotCounted(b: Box, roi: Roi)
    requires b.w <= 0 || b.h <= 0
    ensures !Overlaps(b, roi)
  {
  }

  /** How many of `boxes` overlap `roi`. */
  function NumOverlapping(boxes: seq<Box>, roi: Roi): (n: nat)
    ensures n <= |boxes|
  {
    if boxes == [] then 0
    else NumOverlapping(boxes[..|boxes| - 1], roi) + (if Overlaps(boxes[|boxes| - 1], roi) then 1 else 0)
  }

  /** The count is the number of boxes that overlap: none when no box
      overlaps, all of them exactly when every box does. */
  lemma {:induction false} NumOverlappingBounds(boxes: seq<Box>, roi: Roi)
    ensures NumOverlapping(boxes, roi) == 0 <==> forall i :: 0 <= i < |boxes| ==> !Overlaps(boxes[i], roi)
    ensures NumOverlapping(boxes, roi) == |boxes| <==> forall i :: 0 <= i < |boxes| ==> Overlaps(boxes[i], roi)
  {
    if boxes != [] {
      var front := boxes[..|boxes| - 1];
      NumOverlappingBounds(front, roi);
      assert forall i :: 0 <= i < |front| ==> front[i] == boxes[i];
    }
  }

  /** The count of a region does not depend on the order of the boxes:
      moving the last box to the front leaves it unchanged. */
  lemma {:induction false} NumOverlappingRotate(boxes: seq<Box>, b: Box, roi: Roi)
    ensures NumOverlapping([b] + boxes, roi) == NumOverlapping(boxes + [b], roi)
    decreases |boxes|
  {
    if boxes != [] {
      var front := boxes[..|boxes| - 1];
      var last := boxes[|boxes| - 1];
      assert ([b] + boxes)[..|boxes|] == [b] + front;
      assert (boxes + [b])[..|boxes|] == boxes;
      NumOverlappingRotate(front, b, roi);
      assert (front + [b])[..|front|] == front;
    }
  }

  /** The loop of `detect_vehicles_in_roi` over the boxes kept after
      suppression: count those whose overlap with the region has positive
      width and height. */
  method CountInRoi(kept: seq<Box>, roi: Roi) returns (roiCount: nat)
    ensures roiCount == NumOverlapping(kept, roi)
  {
    roiCount := 0;
    if |kept| > 0 {
      for i := 0 to |kept|
        invariant roiCount == NumOverlapping(kept[..i], roi)
      {
        var b := kept[i];
        var overlapX1 := Max(roi.x1, b.x);
        var overlapY1 := Max(roi.y1, b.y);
        var overlapX2 := Min(roi.x2, b.x + b.w);
        var overlapY2 := Min(roi.y2, b.y + b.h);
        assert kept[..i + 1][..i] == kept[..i];
        if overlapX2 > overlapX1 && overlapY2 > overlapY1 {
          roiCount := roiCount + 1;
        }
      }
      assert kept[..|kept|] == kept;
    }
  }

  /** The four cameras' regions, in camera order. */
  const CameraRois: seq<Roi> :=
    [Roi(200, 100, 500, 600), Roi(100, 100, 580, 680), Roi(50, 100, 300, 400), Roi(50, 100, 300, 400)]

  /** Detection runs on every `NthFrame`-th frame. */
  const NthFrame: nat := 15

  /** The counts a detection frame produces: for each camera, the number
      of its kept boxes that overlap its region. */
  function RoiCounts(kept: seq<seq<Box>>): (counts: seq<nat>)
    requires |kept| == 4
    ensures |counts| == 4
    ensures forall i :: 0 <= i < 4 ==> counts[i] <= |kept[i]|
  {
    seq(4, i requires 0 <= i < 4 => NumOverlapping(kept[i], CameraRois[i]))
  }

  /** The count-file line: the four counts in camera order, separated by
      single spaces, with no newline. */
  function CountLine(counts: seq<nat>): string
    requires |counts| == 4
  {
    ShowInt(counts[0]) + " " + ShowInt(counts[1]) + " " + ShowInt(counts[2]) + " " + ShowInt(counts[3])
  }

  /** The numerals of the count line, one per camera. */
  function Numerals(counts: seq<nat>): (ws: seq<string>)
    requires |counts| == 4
    ensures |ws| == 4
  {
    [ShowInt(counts[0]), ShowInt(counts[1]), ShowInt(counts[2]), ShowInt(counts[3])]
  }

  /** Each numeral of the count line is a word. */
  lemma NumeralsAreWords(counts: seq<nat>)
    requires |counts| == 4
    ensures AllWords(Numerals(counts))
  {
    var ws := Numerals(counts);
    assert ws[3..][1..] == [] && AllWords(ws[3..]);
    assert ws[2..][1..] == ws[3..] && AllWords(ws[2..]);
    assert ws[1..][1..] == ws[2..] && AllWords(ws[1..]);
  }

  /** The count line is its numerals joined by single spaces. */
  lemma CountLineIsJoin(counts: seq<nat>)
    requires |counts| == 4
    ensures CountLine(counts) == Join(Numerals(counts))
  {
    var ws := Numerals(counts);
    assert Join(ws[3..]) == ws[3];
    assert Join(ws[2..]) == ws[2] + " " + ws[3];
    assert Join(ws[1..]) == ws[1] + " " + (ws[2] + " " + ws[3]);
  }

  /** The count line splits back into the four numerals, which parse back
      into the four counts; it ends in a digit, not a newline. */
  lemma CountLineRoundTrip(counts: seq<nat>)
    requires |counts| == 4
    ensures Split(CountLine(counts)) == Numerals(counts)
    ensures ParseAll(Split(CountLine(counts))) == Some(counts)
    ensures var line := CountLine(counts); |line| > 0 && IsDigit(line[|line| - 1])
  {
    var ws := Numerals(counts);
    NumeralsAreWords(counts);
    CountLineIsJoin(counts);
    SplitJoin(ws);
    forall i | 0 <= i < 4
      ensures ParseInt(ws[i]) == Some(counts[i] as int)
    {
      ParseShowInt(counts[i]);
    }
    assert ParseAll(ws).value == counts;
    var line := CountLine(counts);
    assert line[|line| - 1] == ws[3][|ws[3]| - 1];
  }

  /** The count line holds only decimal digits and single spaces, starts
      and ends with a digit, and has no newline. */
  lemma CountLineCharacters(counts: seq<nat>)
    requires |counts| == 4
    ensures var line := CountLine(counts);
      |line| > 0 && IsDigit(line[0]) && IsDigit(line[|line| - 1]) &&
      forall i :: 0 <= i < |line| ==> IsDigit(line[i]) || (line[i] == ' ' && 0 < i < |line| - 1 && IsDigit(line[i - 1]))
  {
    var a, b, c, d := ShowNat(counts[0]), ShowNat(counts[1]), ShowNat(counts[2]), ShowNat(counts[3]);
    var line := CountLine(counts);
    assert line == a + " " + b + " " + c + " " + d;
    forall i | 0 <= i < |line|
      ensures IsDigit(line[i]) || (line[i] == ' ' && 0 < i < |line| - 1 && IsDigit(line[i - 1]))
    {
      if i < |a| {
        assert line[i] == a[i];
      } else if i == |a| {
        assert line[i - 1] == a[|a| - 1];
      } else if i < |a| + 1 + |b| {
        assert line[i] == b[i - |a| - 1];
      } else if i == |a| + 1 + |b| {
        assert line[i - 1] == b[|b| - 1];
      } else if i < |a| + 2 + |b| + |c| {
        assert line[i] == c[i - |a| - |b| - 2];
      } else if i == |a| + 2 + |b| + |c| {
        assert line[i - 1] == c[|c| - 1];
      } else {
        assert line[i] == d[i - |a| - |b| - |c| - 3];
      }
    }
    assert line[0] == a[0];
    assert line[|line| - 1] == d[|d| - 1];
  }

  /** The state the main loop keeps: the frame counter, the last counts
      per camera, and what the count file holds (`None` before the first
      write). */
  class FrameCounter {
    var frameCount: int
    var lastRoiCounts: seq<nat>
    var countFile: Option<string>

    /** Four counts, and a count file, once written, that holds their line. */
    predicate Valid()
      reads this
    {
      |lastRoiCounts| == 4 && (countFile.Some? ==> countFile.value == CountLine(lastRoiCounts))
    }

    /** The module-level start: no frame read, all counts 0. */
    constructor ()
      ensures frameCount == 0 && lastRoiCounts == [0, 0, 0, 0] && countFile == None
      ensures Valid()
    {
      frameCount := 0;
      lastRoiCounts := [0, 0, 0, 0];
      countFile := None;
    }

    /** After the frame counter has been advanced: on every `NthFrame`-th
        frame, recount each camera from its kept boxes and rewrite the
        count file; on every other frame keep the counts and the file. */
    method Refresh(kept: seq<seq<Box>>)
      requires Valid() && |kept| == 4
      modifies this
      ensures frameCount == old(frameCount) && Valid()
      ensures frameCount % NthFrame == 0 ==>
        lastRoiCounts == RoiCounts(kept) && countFile == Some(CountLine(RoiCounts(kept)))
      ensures frameCount % NthFrame != 0 ==>
        lastRoiCounts == old(lastRoiCounts) && countFile == old(countFile)
    {
      if frameCount % NthFrame == 0 {
        var c := CountInRoi(kept[0], CameraRois[0]);
        lastRoiCounts := lastRoiCounts[0 := c];
        c := CountInRoi(kept[1], CameraRois[1]);
        lastRoiCounts := lastRoiCounts[1 := c];
        c := CountInRoi(kept[2], CameraRois[2]);
        lastRoiCounts := lastRoiCounts[2 := c];
        c := CountInRoi(kept[3], CameraRois[3]);
        lastRoiCounts := lastRoiCounts[3 := c];
        assert lastRoiCounts == RoiCounts(kept);
        countFile := Some(CountLine(lastRoiCounts));
      }
    }

    /** The `while True` loop over frames, given each frame's kept boxes
        per camera until a capture runs out. The counter advances before
        the end of the captures is noticed, so it ends one past the number
        of frames processed. */
    method Run(frames: seq<seq<seq<Box>>>)
      requires Valid() && forall i :: 0 <= i < |frames| ==> |frames[i]| == 4
      modifies this
      ensures Valid()
      ensures frameCount == old(frameCount) + |frames| + 1
      ensures lastRoiCounts == LastCounts(old(lastRoiCounts), old(frameCount), frames)
      ensures Rewrites(old(frameCount), |frames|) ==> countFile == Some(CountLine(lastRoiCounts))
      ensures QuietAfter(old(frameCount), -1, |frames|) ==> countFile == old(countFile)
    {
      ghost var target := LastCounts(lastRoiCounts, frameCount, frames);
      var done := 0;
      while true
        invariant Valid() && 0 <= done <= |frames|
        invariant frameCount == old(frameCount) + done
        invariant target == LastCounts(lastRoiCounts, frameCount, frames[done..])
        invariant Rewrites(old(frameCount), done) ==> countFile.Some?
        invariant !Rewrites(old(frameCount), done) ==> countFile == old(countFile)
        decreases |frames| - done
      {
        frameCount := frameCount + 1;
        if done == |frames| {
          // a capture ran out
          RewritesUnlessQuiet(old(frameCount), done);
          break;
        }
        LastCountsStep(lastRoiCounts, frameCount - 1, frames[done..]);
        assert frames[done..][1..] == frames[done + 1..];
        Refresh(frames[done]);
        done := done + 1;
      }
    }
  }

  /** The counts after processing `frames` from counter `frameCount` with
      counts `counts`: each frame advances the counter and, when it lands
      on a multiple of `NthFrame`, replaces the counts by that frame's. */
  function LastCounts(counts: seq<nat>, frameCount: int, frames: seq<seq<seq<Box>>>): seq<nat>
    requires forall i :: 0 <= i < |frames| ==> |frames[i]| == 4
    decreases |frames|
  {
    if frames == [] then counts
    else
      var f := frameCount + 1;
      LastCounts(if f % NthFrame == 0 then RoiCounts(frames[0]) else counts, f, frames[1..])
  }

  /** One frame of `LastCounts`, unfolded. */
  lemma LastCountsStep(counts: seq<nat>, frameCount: int, frames: seq<seq<seq<Box>>>)
    requires frames != [] && forall i :: 0 <= i < |frames| ==> |frames[i]| == 4
    ensures LastCounts(counts, frameCount, frames) ==
            LastCounts(if (frameCount + 1) % NthFrame == 0 then RoiCounts(frames[0]) else counts,
                       frameCount + 1, frames[1..])
  {
  }

  /** Whether the `j`-th frame after counter `frameCount` is a detection
      frame. */
  predicate Detects(frameCount: int, j: int) {
    (frameCount + j + 1) % NthFrame == 0
  }

  /** None of the frames after the `j`-th and before the `n`-th is a
      detection frame. */
  predicate QuietAfter(frameCount: int, j: int, n: int) {
    forall k :: j < k < n ==> !Detects(frameCount, k)
  }

  /** One of the first `n` frames after counter `frameCount` is a
      detection frame, so the count file is rewritten. */
  predicate Rewrites(frameCount: int, n: int)
    decreases n
  {
    n > 0 && (Rewrites(frameCount, n - 1) || Detects(frameCount, n - 1))
  }

  /** Not rewriting the file within `n` frames is having no detection frame
      among them. */
  lemma {:induction false} RewritesUnlessQuiet(frameCount: int, n: int)
    ensures QuietAfter(frameCount, -1, n) <==> !Rewrites(frameCount, n)
    decreases n
  {
    if n > 0 {
      RewritesUnlessQuiet(frameCount, n - 1);
      if QuietAfter(frameCount, -1, n - 1) && !Detects(frameCount, n - 1) {
        forall k | -1 < k < n
          ensures !Detects(frameCount, k)
        {
          if k < n - 1 {
            assert !Detects(frameCount, k);
          }
        }
      }
    }
  }

  /** Quiet frames stay quiet when the counter advances by one frame. */
  lemma QuietShift(frameCount: int, j: int, n: int)
    requires QuietAfter(frameCount, j, n)
    ensures QuietAfter(frameCount + 1, j - 1, n - 1)
  {
    var g := frameCount + 1;
    forall k | j - 1 < k < n - 1
      ensures !Detects(g, k)
    {
      assert !Detects(frameCount, k + 1);
    }
  }

  /** Without a detection frame the counts are left as they were. */
  lemma {:induction false} LastCountsQuiet(counts: seq<nat>, frameCount: int, frames: seq<seq<seq<Box>>>)
    requires forall i :: 0 <= i < |frames| ==> |frames[i]| == 4
    requires QuietAfter(frameCount, -1, |frames|)
    ensures LastCounts(counts, frameCount, frames) == counts
    decreases |frames|
  {
    if frames != [] {
      assert !Detects(frameCount, 0);
      QuietShift(frameCount, -1, |frames|);
      LastCountsQuiet(counts, frameCount + 1, frames[1..]);
    }
  }

  /** The counts shown are those of the latest detection frame. */
  lemma {:induction false} LastCountsAreLatest(counts: seq<nat>, frameCount: int, frames: seq<seq<seq<Box>>>, j: nat)
    requires forall i :: 0 <= i < |frames| ==> |frames[i]| == 4
    requires j < |frames| && Detects(frameCount, j) && QuietAfter(frameCount, j, |frames|)
    ensures LastCounts(counts, frameCount, frames) == RoiCounts(frames[j])
    decreases |frames|
  {
    var f := frameCount + 1;
    var next := if f % NthFrame == 0 then RoiCounts(frames[0]) else counts;
    QuietShift(frameCount, j, |frames|);
    if j == 0 {
      LastCountsQuiet(next, f, frames[1..]);
    } else {
      assert Detects(f, j - 1);
      LastCountsAreLatest(next, f, frames[1..], j - 1);
    }
  }
}
