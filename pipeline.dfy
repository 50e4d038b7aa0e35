/**
 * Where the two programs meet: the count file that the video side writes
 * (module RoiCounting) is the file the monitor reads, validates and
 * forwards to the controller (module Protocol).
 */
module Pipeline {
  import opened Wrappers
  import opened Text
  import opened Protocol
  import opened RoiCounting

  /** A count line has nothing for `strip()` to remove, and it passes the
      monitor's validation. */
  lemma CountLineValid(counts: seq<nat>)
    requires |counts| == 4
    ensures Strip(CountLine(counts)) == CountLine(counts)
    ensures ValidateData(CountLine(counts))
  {
    var line := CountLine(counts);
    CountLineRoundTrip(counts);
    var first := ShowInt(counts[0]);
    assert line[0] == first[0];
    assert !IsSpace(line[0]);
    assert line + [] == line;
    StripPadded(line, []);
    var parsed := ParseAll(Split(line)).value;
    assert forall c :: c in parsed ==> c >= 0;
  }

  /** Whatever whitespace follows the count line in the file, the monitor
      sends exactly the count line and a newline. */
  lemma CountFileSent(counts: seq<nat>, pad: string)
    requires |counts| == 4
    requires forall i :: 0 <= i < |pad| ==> IsSpace(pad[i])
    ensures Outbound(Some(CountLine(counts) + pad)) == Some(CountLine(counts) + "\n")
  {
    var line := CountLine(counts);
    CountLineValid(counts);
    StripIsTrimmed(line);
    StripPadded(line, pad);
  }

  /** A turn of the monitor that reads a count file the video side wrote
      sends it, and the controller reads back the very counts the video
      side computed. */
  lemma WrittenCountsReachController(status: Table, current: Option<int>, pending: seq<Option<string>>,
                                     counts: seq<nat>, start: real, polls: seq<Poll>)
    requires |counts| == 4
    ensures var k := Step(status, current, pending, TickInput(Some(CountLine(counts)), start, polls));
      k.end.Sent? && k.sent == Some(CountLine(counts) + "\n") &&
      ParseAll(Split(k.sent.value[..|k.sent.value| - 1])) == Some(counts)
  {
    var line := CountLine(counts);
    var t := TickInput(Some(line), start, polls);
    CountLineValid(counts);
    CountLineRoundTrip(counts);
    StepSendsOnlyValidText(status, current, pending, t);
    assert (line + "\n")[..|line|] == line;
  }
}
