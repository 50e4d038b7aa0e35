/**
 * The road-signal synchronisation rules of `TrafficMonitor`
 * (smartTrafficManagement/countdown_display.py), stated on values.
 *
 * The serial link delivers lines as `Option<string>`: `None` is a line whose
 * bytes are not valid UTF-8 (the `UnicodeDecodeError` the source catches).
 * The exceptions the source does not catch (`ValueError` from `int()`,
 * `KeyError` from the status dictionary) are returned as `Raised` outcomes.
 * The class in module Monitor runs these rules in place and is proved
 * against them.
 */
module Protocol {
  import opened Wrappers
  import opened Text

  datatype Color = Red | Green

  /** One entry of the status dictionary: `{'state': ..., 'countdown': ...}`. */
  datatype Signal = Signal(color: Color, countdown: int)

  /** `self.status`, keyed by road number. */
  type Table = map<int, Signal>

  const Roads: set<int> := {1, 2, 3, 4}

  /** Seconds after which the inner wait gives up on a cycle. */
  const Deadline: real := 60.0

  /** The table `__init__` builds: all four roads red with countdown 0. */
  function InitialTable(): (t: Table)
    ensures t.Keys == Roads
    ensures forall r :: r in t ==> t[r] == Signal(Red, 0)
  {
    map[1 := Signal(Red, 0), 2 := Signal(Red, 0), 3 := Signal(Red, 0), 4 := Signal(Red, 0)]
  }

  /** The state the monitor keeps while it runs: the four roads, and a
      current road that is either unset or one of them. */
  predicate Consistent(status: Table, current: Option<int>) {
    status.Keys == Roads && (current.Some? ==> current.value in Roads)
  }

  // ---------------------------------------------------------------------
  // validate_data

  /** `validate_data`: `list(map(int, data.split()))` must succeed, hold
      four values and none of them may be negative. */
  function ValidateData(data: string): (ok: bool)
    ensures ok ==> |Split(data)| == 4
  {
    match ParseAll(Split(data))
    case None => false
    case Some(counts) => |counts| == 4 && forall c :: c in counts ==> c >= 0
  }

  /** The data is valid exactly when it splits into four tokens that each
      parse as a non-negative integer; a token `int()` rejects makes it
      invalid rather than raising. */
  lemma ValidateDataMeaning(data: string)
    ensures ValidateData(data) <==>
      |Split(data)| == 4 &&
      forall i :: 0 <= i < 4 ==> ParseInt(Split(data)[i]).Some? && ParseInt(Split(data)[i]).value >= 0
  {
    var tokens := Split(data);
    if ValidateData(data) {
      var counts := ParseAll(tokens).value;
      assert forall i :: 0 <= i < 4 ==> counts[i] in counts;
    }
  }

  // ---------------------------------------------------------------------
  // process_serial

  /** How `process_serial` sees one line read from the port. */
  datatype Line =
    | Undecodable                       // decode() raised UnicodeDecodeError
    | CountdownLine(parts: seq<string>) // stripped line starts with COUNTDOWN
    | DoneLine                          // stripped line is exactly DONE
    | OtherLine                         // anything else

  function Classify(raw: Option<string>): Line
  {
    match raw
    case None => Undecodable
    case Some(text) =>
      var line := Strip(text);
      if "COUNTDOWN" <= line then CountdownLine(Split(line))
      else if line == "DONE" then DoneLine
      else OtherLine
  }

  /** A line the polling loop reads past without returning. */
  predicate Skippable(raw: Option<string>) {
    Classify(raw).Undecodable? || Classify(raw).OtherLine?
  }

  datatype Error = ValueError | KeyError

  /** How a call of `process_serial` ends: a return value or an exception. */
  datatype Outcome = Returned(done: bool) | Raised(error: Error)

  /** What one line does: nothing (polling goes on), or it ends the call
      with a new table, a new current road and the snapshots displayed. */
  datatype Effect =
    | Skip
    | Stop(status: Table, current: Option<int>, shots: seq<Table>, outcome: Outcome)

  /** What `process_serial` does with one line it has read. */
  function Handle(status: Table, current: Option<int>, line: Line): (e: Effect)
    ensures e.Skip? <==> line.Undecodable? || line.OtherLine?
    ensures e.Stop? ==> e.status.Keys == status.Keys
    ensures e.Stop? && e.outcome.Returned? && Consistent(status, current) ==> Consistent(e.status, e.current)
  {
    match line
    case Undecodable => Skip
    case OtherLine => Skip
    case CountdownLine(parts) =>
      if |parts| != 3 then Stop(status, current, [], Returned(false))
      else if ParseInt(parts[1]).None? || ParseInt(parts[2]).None? then
        Stop(status, current, [], Raised(ValueError))
      else
        var road := ParseInt(parts[1]).value;
        var seconds := ParseInt(parts[2]).value;
        if road !in status then Stop(status, Some(road), [], Raised(KeyError))
        else
          var green := status[road := Signal(Green, seconds)];
          if seconds == 1 then
            var red := green[road := green[road].(color := Red)];
            Stop(red, Some(road), [green, red], Returned(false))
          else Stop(green, Some(road), [green], Returned(false))
    case DoneLine =>
      if current.Some? && current.value != 0 then
        if current.value !in status then Stop(status, current, [], Raised(KeyError))
        else
          var cleared := status[current.value := Signal(Red, 0)];
          Stop(cleared, current, [cleared], Returned(true))
      else Stop(status, current, [], Returned(true))
  }

  /** The redraws `shots` went from `before` to `after`: the last one drawn
      is `after`, and with none drawn the table did not change. */
  predicate LastDrawn(before: Table, shots: seq<Table>, after: Table) {
    if shots == [] then after == before else shots[|shots| - 1] == after
  }

  /** Redraws that end in the table the next redraws start from chain up. */
  lemma LastDrawnChain(t0: Table, a: seq<Table>, t1: Table, b: seq<Table>, t2: Table)
    requires LastDrawn(t0, a, t1) && LastDrawn(t1, b, t2)
    ensures LastDrawn(t0, a + b, t2)
  {
    if b != [] {
      assert (a + b)[|a + b| - 1] == b[|b| - 1];
    }
  }

  /** Each redraw shows the table as it is at that moment, so the last
      snapshot is the final table, and no redraw means no change. */
  lemma HandleShotsEndInStatus(status: Table, current: Option<int>, line: Line)
    ensures var e := Handle(status, current, line);
      e.Stop? ==> LastDrawn(status, e.shots, e.status)
  {
  }

  /** Every road other than `road` has the same entry in both tables. */
  predicate OnlyRoadChanged(before: Table, after: Table, road: Option<int>) {
    before.Keys <= after.Keys &&
    forall k :: k in before && Some(k) != road ==> after[k] == before[k]
  }

  /** One line changes at most the entry of the road it leaves current. */
  lemma HandleOnlyCurrentRoad(status: Table, current: Option<int>, line: Line)
    ensures var e := Handle(status, current, line);
      e.Stop? ==> OnlyRoadChanged(status, e.status, e.current)
  {
  }

  /** One line makes `process_serial` return True exactly when it is DONE. */
  lemma HandleTrueOnlyOnDone(status: Table, current: Option<int>, line: Line)
    requires Consistent(status, current)
    ensures var e := Handle(status, current, line);
      e.Stop? ==> (e.outcome == Returned(true) <==> line.DoneLine?)
  {
  }

  // ---------------------------------------------------------------------
  // the device's lines, as they arrive on the wire

  /** The line the device sends when `road` turns green for `seconds`. */
  function CountdownText(road: int, seconds: int): string
  {
    Join(["COUNTDOWN", ShowInt(road), ShowInt(seconds)])
  }

  /** Whitespace only, such as the line terminator `readline` leaves on. */
  predicate Blank(pad: string) {
    forall i :: 0 <= i < |pad| ==> IsSpace(pad[i])
  }

  /** Words whose first one starts with COUNTDOWN, joined by spaces and
      followed by whitespace, are read as a countdown whose parts are the
      words; a first word such as COUNTDOWNX counts as well. */
  lemma ClassifyCountdownWords(ws: seq<string>, pad: string)
    requires |ws| > 0 && AllWords(ws) && "COUNTDOWN" <= ws[0]
    requires Blank(pad)
    ensures Classify(Some(Join(ws) + pad)) == CountdownLine(ws)
  {
    var text := Join(ws);
    JoinedWordsStrip(ws, pad);
    SplitJoin(ws);
    assert "COUNTDOWN" == ws[0][..9] == text[..9];
  }

  /** Words joined by spaces and followed by whitespace strip back to the
      joined words, which start with the first word. */
  lemma JoinedWordsStrip(ws: seq<string>, pad: string)
    requires |ws| > 0 && AllWords(ws) && Blank(pad)
    ensures Strip(Join(ws) + pad) == Join(ws) && ws[0] <= Join(ws)
  {
    var text := Join(ws);
    JoinStartsWithWord(ws);
    assert text[0] == ws[0][0];
    StripPadded(text, pad);
  }

  /** Any line whose stripped text starts with COUNTDOWN, whatever
      whitespace surrounds or separates its words, is read as a countdown
      whose parts are the words of the stripped line, the first of them
      starting with COUNTDOWN. */
  lemma ClassifyAnyCountdown(text: string)
    requires "COUNTDOWN" <= Strip(text)
    ensures var parts := Split(Strip(text));
      Classify(Some(text)) == CountdownLine(parts) &&
      AllWords(parts) && |parts| > 0 && "COUNTDOWN" <= parts[0]
  {
    var line := Strip(text);
    StripIsTrimmed(text);
    SplitIsWords(line);
    SplitFirstWord(line);
    TakeWordKeepsPrefix("COUNTDOWN", line);
  }

  /** A line is read as a countdown exactly when its stripped text starts
      with COUNTDOWN, and is read past as other exactly when its stripped
      text neither starts with COUNTDOWN nor is DONE; a decoded line is
      never undecodable. */
  lemma ClassifyReadsPastOther(text: string)
    ensures Classify(Some(text)).CountdownLine? <==> "COUNTDOWN" <= Strip(text)
    ensures Classify(Some(text)).OtherLine? <==> !("COUNTDOWN" <= Strip(text)) && Strip(text) != "DONE"
    ensures !Classify(Some(text)).Undecodable? && Classify(None) == Undecodable
  {
  }

  /** A line is read as DONE exactly when its stripped text is DONE. */
  lemma ClassifyDoneExactly(text: string)
    ensures Classify(Some(text)) == DoneLine <==> Strip(text) == "DONE"
  {
    if Strip(text) == "DONE" {
      assert !("COUNTDOWN" <= Strip(text));
    }
  }

  lemma ClassifyCountdown(road: int, seconds: int, pad: string)
    requires Blank(pad)
    ensures Classify(Some(CountdownText(road, seconds) + pad)) ==
            CountdownLine(["COUNTDOWN", ShowInt(road), ShowInt(seconds)])
    ensures ParseInt(ShowInt(road)) == Some(road) && ParseInt(ShowInt(seconds)) == Some(seconds)
  {
    var ws := ["COUNTDOWN", ShowInt(road), ShowInt(seconds)];
    assert AllWords(ws[2..]);
    ClassifyCountdownWords(ws, pad);
    ParseShowInt(road);
    ParseShowInt(seconds);
  }

  lemma ClassifyDone(pad: string)
    requires Blank(pad)
    ensures Classify(Some("DONE" + pad)) == DoneLine
  {
    StripPadded("DONE", pad);
  }

  /** `text` is a device line that `process_serial` reads as a countdown
      for `road` with `seconds`: its stripped form starts with COUNTDOWN and
      splits into three words whose second and third parse to them. */
  predicate CountdownOf(text: string, road: int, seconds: int) {
    var parts := Split(Strip(text));
    "COUNTDOWN" <= Strip(text) && |parts| == 3 &&
    ParseInt(parts[1]) == Some(road) && ParseInt(parts[2]) == Some(seconds)
  }

  /** The line the controller sends, `COUNTDOWN r s` with any trailing
      whitespace, is such a line. */
  lemma CountdownTextIsCountdown(road: int, seconds: int, pad: string)
    requires Blank(pad)
    ensures CountdownOf(CountdownText(road, seconds) + pad, road, seconds)
  {
    var text := CountdownText(road, seconds) + pad;
    ClassifyCountdown(road, seconds, pad);
    ClassifyAnyCountdown(text);
  }

  /** A countdown for a known road and `s` other than 1 turns road `r`
      green with countdown `s`, makes it current, leaves the other roads as
      they were, redraws once and returns False. */
  lemma CountdownTurnsRoadGreen(status: Table, current: Option<int>, text: string, road: int, seconds: int)
    requires CountdownOf(text, road, seconds) && road in status && seconds != 1
    ensures var green := status[road := Signal(Green, seconds)];
      Handle(status, current, Classify(Some(text))) ==
      Stop(green, Some(road), [green], Returned(false))
  {
    ClassifyAnyCountdown(text);
  }

  /** A countdown for a second road does not turn the first one red: after
      a countdown for `r` and one for `q` with no DONE between them, both
      roads are green. */
  lemma SecondCountdownKeepsFirstGreen(status: Table, current: Option<int>, first: string, r: int, s: int,
                                       second: string, q: int, t: int)
    requires CountdownOf(first, r, s) && CountdownOf(second, q, t)
    requires r in status && q in status && r != q && s != 1 && t != 1
    ensures var green := status[r := Signal(Green, s)];
      var both := green[q := Signal(Green, t)];
      Handle(status, current, Classify(Some(first))) ==
        Stop(green, Some(r), [green], Returned(false)) &&
      Handle(green, Some(r), Classify(Some(second))) ==
        Stop(both, Some(q), [both], Returned(false)) &&
      both[r] == Signal(Green, s) && both[q] == Signal(Green, t)
  {
    CountdownTurnsRoadGreen(status, current, first, r, s);
    var green := status[r := Signal(Green, s)];
    CountdownTurnsRoadGreen(green, Some(r), second, q, t);
  }

  /** A countdown with 1 second shows road `r` green with countdown 1 and
      then red with countdown 1, and leaves it red. */
  lemma CountdownOneShowsRed(status: Table, current: Option<int>, text: string, road: int)
    requires CountdownOf(text, road, 1) && road in status
    ensures var green := status[road := Signal(Green, 1)];
      var red := status[road := Signal(Red, 1)];
      Handle(status, current, Classify(Some(text))) ==
      Stop(red, Some(road), [green, red], Returned(false))
  {
    ClassifyAnyCountdown(text);
    var green := status[road := Signal(Green, 1)];
    assert green[road := green[road].(color := Red)] == status[road := Signal(Red, 1)];
  }

  /** A countdown for a road outside the table raises KeyError, after the
      road has already been made current. */
  lemma UnknownRoadRaises(status: Table, current: Option<int>, text: string, road: int, seconds: int)
    requires CountdownOf(text, road, seconds) && road !in status
    ensures Handle(status, current, Classify(Some(text))) ==
            Stop(status, Some(road), [], Raised(KeyError))
  {
    ClassifyAnyCountdown(text);
  }

  /** A countdown of three words, whatever whitespace surrounds or
      separates them, whose road or seconds word is not an integer raises
      ValueError before anything changes. */
  lemma BadNumberRaises(status: Table, current: Option<int>, text: string)
    requires "COUNTDOWN" <= Strip(text)
    requires var parts := Split(Strip(text));
      |parts| == 3 && (ParseInt(parts[1]).None? || ParseInt(parts[2]).None?)
    ensures Handle(status, current, Classify(Some(text))) ==
            Stop(status, current, [], Raised(ValueError))
  {
    ClassifyAnyCountdown(text);
  }

  /** A COUNTDOWN line with other than three words, whatever whitespace
      surrounds or separates them, changes nothing and ends the call
      returning False. */
  lemma MisshapenCountdownIgnored(status: Table, current: Option<int>, text: string)
    requires "COUNTDOWN" <= Strip(text) && |Split(Strip(text))| != 3
    ensures Handle(status, current, Classify(Some(text))) ==
            Stop(status, current, [], Returned(false))
  {
    ClassifyAnyCountdown(text);
  }

  /** DONE with a current road turns it red with countdown 0, keeps it
      current, redraws once and returns True. */
  lemma DoneClearsCurrentRoad(status: Table, road: int, pad: string)
    requires road in status && road != 0 && Blank(pad)
    ensures var cleared := status[road := Signal(Red, 0)];
      Handle(status, Some(road), Classify(Some("DONE" + pad))) ==
      Stop(cleared, Some(road), [cleared], Returned(true))
  {
    ClassifyDone(pad);
  }

  /** DONE whose current road is not in the table raises KeyError. */
  lemma DoneUnknownRoadRaises(status: Table, road: int, pad: string)
    requires road !in status && road != 0 && Blank(pad)
    ensures Handle(status, Some(road), Classify(Some("DONE" + pad))) ==
            Stop(status, Some(road), [], Raised(KeyError))
  {
    ClassifyDone(pad);
  }

  /** DONE with no current road, or with road 0 current (which Python
      reads as false), returns True and changes nothing. */
  lemma DoneWithoutRoadChangesNothing(status: Table, current: Option<int>, pad: string)
    requires current == None || current == Some(0)
    requires Blank(pad)
    ensures Handle(status, current, Classify(Some("DONE" + pad))) ==
            Stop(status, current, [], Returned(true))
  {
    ClassifyDone(pad);
  }

  /** DONE does not clear the current road, so a second DONE leaves the
      table and the current road as the first one left them. */
  lemma RepeatedDoneChangesNothing(status: Table, current: Option<int>)
    requires Consistent(status, current)
    ensures var e := Handle(status, current, DoneLine);
      var again := Handle(e.status, e.current, DoneLine);
      again.status == e.status && again.current == e.current && again.outcome == Returned(true)
  {
  }

  /** The result of one call of `process_serial`: the new table and current
      road, how many buffered lines it read, the snapshots displayed and the
      outcome. */
  datatype Served = Served(status: Table, current: Option<int>, used: nat,
                           shots: seq<Table>, outcome: Outcome)

  /** `process_serial` over the lines buffered on the port. */
  function Serve(status: Table, current: Option<int>, pending: seq<Option<string>>): (r: Served)
    ensures r.used <= |pending|
    ensures r.status.Keys == status.Keys
    ensures r.outcome.Returned? && Consistent(status, current) ==> Consistent(r.status, r.current)
    decreases |pending|
  {
    if pending == [] then Served(status, current, 0, [], Returned(false))
    else
      match Handle(status, current, Classify(pending[0]))
      case Skip =>
        var r := Serve(status, current, pending[1..]);
        r.(used := r.used + 1)
      case Stop(s, c, shots, outcome) => Served(s, c, 1, shots, outcome)
  }

  /** The position of the first line `process_serial` does not read past,
      or the number of lines when it reads past all of them. */
  function FirstStop(pending: seq<Option<string>>): (k: nat)
    ensures k <= |pending|
    ensures forall i :: 0 <= i < k ==> Skippable(pending[i])
    ensures k < |pending| ==> !Skippable(pending[k])
    decreases |pending|
  {
    if pending == [] || !Skippable(pending[0]) then 0
    else
      var k := FirstStop(pending[1..]);
      assert forall i :: 1 <= i < k + 1 ==> pending[i] == pending[1..][i - 1];
      k + 1
  }

  /** `process_serial` reads past undecodable and unrecognised lines and acts
      on the first COUNTDOWN or DONE line; with none buffered it returns
      False having changed nothing. */
  lemma {:induction false} ServeActsOnFirstStop(status: Table, current: Option<int>,
                                                pending: seq<Option<string>>)
    ensures var r := Serve(status, current, pending); var k := FirstStop(pending);
      (k == |pending| ==> r == Served(status, current, |pending|, [], Returned(false))) &&
      (k < |pending| ==>
         r.used == k + 1 &&
         Handle(status, current, Classify(pending[k])) == Stop(r.status, r.current, r.shots, r.outcome))
    decreases |pending|
  {
    if pending != [] && Skippable(pending[0]) {
      ServeActsOnFirstStop(status, current, pending[1..]);
      var k := FirstStop(pending[1..]);
      if k < |pending[1..]| {
        assert pending[k + 1] == pending[1..][k];
      }
    }
  }

  /** `process_serial` returns True exactly when the last line it read is DONE. */
  lemma ServeTrueOnlyOnDone(status: Table, current: Option<int>, pending: seq<Option<string>>)
    requires Consistent(status, current)
    ensures var r := Serve(status, current, pending);
      r.outcome == Returned(true) <==> r.used > 0 && Classify(pending[r.used - 1]).DoneLine?
  {
    ServeActsOnFirstStop(status, current, pending);
    var k := FirstStop(pending);
    if k < |pending| {
      HandleTrueOnlyOnDone(status, current, Classify(pending[k]));
    } else if k > 0 {
      assert Skippable(pending[k - 1]);
    }
  }

  /** The last snapshot displayed is the final table; with none displayed the
      table is unchanged. */
  lemma ServeShotsEndInStatus(status: Table, current: Option<int>, pending: seq<Option<string>>)
    ensures var r := Serve(status, current, pending);
      LastDrawn(status, r.shots, r.status)
  {
    ServeActsOnFirstStop(status, current, pending);
    var k := FirstStop(pending);
    if k < |pending| {
      HandleShotsEndInStatus(status, current, Classify(pending[k]));
    }
  }

  /** A call changes only the entry of the road that is current afterwards. */
  lemma ServeOnlyCurrentRoad(status: Table, current: Option<int>, pending: seq<Option<string>>)
    ensures var r := Serve(status, current, pending);
      OnlyRoadChanged(status, r.status, r.current)
  {
    ServeActsOnFirstStop(status, current, pending);
    var k := FirstStop(pending);
    if k < |pending| {
      HandleOnlyCurrentRoad(status, current, Classify(pending[k]));
    }
  }

  // ---------------------------------------------------------------------
  // the inner wait of run

  /** One turn of the inner wait: the lines that reached the port since the
      previous turn, and the clock reading taken after `process_serial`. */
  datatype Poll = Poll(arrivals: seq<Option<string>>, now: real)

  /** `Awaiting`: the recorded turns ran out while the source would still
      be polling. */
  datatype WaitEnd = Completed | Stalled | Crashed(error: Error) | Awaiting

  /** How one poll ends the wait, if it does: an exception crashes it,
      True completes it, and otherwise it stalls when the reading is `late`,
      more than `Deadline` seconds after the send. */
  function PollEnd(outcome: Outcome, late: bool): (stop: Option<WaitEnd>)
    ensures stop.None? <==> outcome == Returned(false) && !late
    ensures stop != Some(Awaiting)
  {
    match outcome
    case Raised(e) => Some(Crashed(e))
    case Returned(done) => if done then Some(Completed) else if late then Some(Stalled) else None
  }

  datatype Waited = Waited(status: Table, current: Option<int>, rest: seq<Option<string>>,
                           shots: seq<Table>, end: WaitEnd, used: nat)

  /** The `while True` loop after a send: poll until `process_serial`
      returns True or more than `Deadline` seconds have passed since `start`. */
  function Await(status: Table, current: Option<int>, pending: seq<Option<string>>,
                 start: real, polls: seq<Poll>): (w: Waited)
    ensures w.used <= |polls|
    ensures w.end != Awaiting ==> w.used >= 1
    ensures w.end == Awaiting ==> w.used == |polls|
    ensures !w.end.Crashed? && Consistent(status, current) ==> Consistent(w.status, w.current)
    decreases |polls|
  {
    if polls == [] then Waited(status, current, pending, [], Awaiting, 0)
    else
      var buffer := pending + polls[0].arrivals;
      var r := Serve(status, current, buffer);
      var rest := buffer[r.used..];
      match PollEnd(r.outcome, polls[0].now - start > Deadline)
      case Some(end) => Waited(r.status, r.current, rest, r.shots, end, 1)
      case None =>
        var w := Await(r.status, r.current, rest, start, polls[1..]);
        Waited(w.status, w.current, w.rest, r.shots + w.shots, w.end, w.used + 1)
  }

  /** Whether the wait goes on polling after its first turn. */
  predicate KeepsWaiting(status: Table, current: Option<int>, pending: seq<Option<string>>,
                         start: real, polls: seq<Poll>)
  {
    polls != [] &&
    PollEnd(Serve(status, current, pending + polls[0].arrivals).outcome, polls[0].now - start > Deadline).None?
  }

  /** After a turn that neither completed, crashed nor passed the deadline,
      the wait is the same wait over the remaining turns. */
  lemma AwaitNextTurn(status: Table, current: Option<int>, pending: seq<Option<string>>,
                      start: real, polls: seq<Poll>)
    requires KeepsWaiting(status, current, pending, start, polls)
    ensures var buffer := pending + polls[0].arrivals;
      var r := Serve(status, current, buffer);
      var w := Await(status, current, pending, start, polls);
      var v := Await(r.status, r.current, buffer[r.used..], start, polls[1..]);
      w == v.(shots := r.shots + v.shots, used := v.used + 1)
  {
  }

  /** A turn that completes, crashes or passes the deadline is the last one,
      and the wait stalls only when that reading is past the deadline. */
  lemma AwaitLastTurn(status: Table, current: Option<int>, pending: seq<Option<string>>,
                      start: real, polls: seq<Poll>)
    requires polls != [] && !KeepsWaiting(status, current, pending, start, polls)
    ensures var buffer := pending + polls[0].arrivals;
      var r := Serve(status, current, buffer);
      var w := Await(status, current, pending, start, polls);
      w.used == 1 &&
      w.status == r.status && w.current == r.current && w.rest == buffer[r.used..] && w.shots == r.shots &&
      (r.outcome.Raised? ==> w.end == Crashed(r.outcome.error)) &&
      (r.outcome == Returned(true) ==> w.end == Completed) &&
      (r.outcome == Returned(false) ==> w.end == Stalled && polls[0].now - start > Deadline)
  {
  }

  /** `whole` is the wait that, after `turns` polls which displayed
      `shots`, goes on as `rest`. */
  predicate Resumed(whole: Waited, rest: Waited, shots: seq<Table>, turns: nat) {
    whole.status == rest.status && whole.current == rest.current && whole.rest == rest.rest &&
    whole.end == rest.end && whole.used == rest.used + turns && whole.shots == shots + rest.shots
  }

  /** The next poll of a wait either ends it, with the state that poll
      left, or the wait goes on as the wait over the polls after that one,
      from that state. */
  lemma AwaitTurn(whole: Waited, status: Table, current: Option<int>, pending: seq<Option<string>>,
                  start: real, polls: seq<Poll>, shots: seq<Table>, turns: nat)
    requires polls != [] && Resumed(whole, Await(status, current, pending, start, polls), shots, turns)
    ensures var buffer := pending + polls[0].arrivals;
      var r := Serve(status, current, buffer);
      var stop := PollEnd(r.outcome, polls[0].now - start > Deadline);
      (stop.None? ==>
         Resumed(whole, Await(r.status, r.current, buffer[r.used..], start, polls[1..]), shots + r.shots, turns + 1)) &&
      (stop.Some? ==>
         whole.end == stop.value && whole.status == r.status && whole.current == r.current &&
         whole.rest == buffer[r.used..] && whole.shots == shots + r.shots)
  {
    var buffer := pending + polls[0].arrivals;
    var r := Serve(status, current, buffer);
    if PollEnd(r.outcome, polls[0].now - start > Deadline).None? {
      var v := Await(r.status, r.current, buffer[r.used..], start, polls[1..]);
      assert whole.shots == shots + (r.shots + v.shots) == (shots + r.shots) + v.shots;
    }
  }

  /** The wait keeps polling only while the clock is within the deadline:
      every poll before the last one it took read at most `Deadline` seconds,
      it stalls only on a reading past the deadline, and it is still waiting
      only if no reading so far passed it. */
  lemma {:induction false} AwaitRespectsDeadline(status: Table, current: Option<int>,
                                                 pending: seq<Option<string>>, start: real, polls: seq<Poll>)
    ensures var w := Await(status, current, pending, start, polls);
      (forall j :: 0 <= j < w.used - 1 ==> polls[j].now - start <= Deadline) &&
      (w.end == Stalled ==> polls[w.used - 1].now - start > Deadline) &&
      (w.end == Awaiting ==> forall j :: 0 <= j < |polls| ==> polls[j].now - start <= Deadline)
    decreases |polls|
  {
    if polls == [] {
    } else if KeepsWaiting(status, current, pending, start, polls) {
      var buffer := pending + polls[0].arrivals;
      var r := Serve(status, current, buffer);
      AwaitNextTurn(status, current, pending, start, polls);
      AwaitRespectsDeadline(r.status, r.current, buffer[r.used..], start, polls[1..]);
      assert forall j :: 1 <= j < |polls| ==> polls[j] == polls[1..][j - 1];
    } else {
      AwaitLastTurn(status, current, pending, start, polls);
    }
  }

  /** What `process_serial` returns at poll `j` of a wait that got that
      far: each earlier poll hands on the table, current road and buffer
      it left. */
  function OutcomeAt(status: Table, current: Option<int>, pending: seq<Option<string>>,
                     polls: seq<Poll>, j: nat): Outcome
    requires j < |polls|
    decreases j
  {
    var buffer := pending + polls[0].arrivals;
    var r := Serve(status, current, buffer);
    if j == 0 then r.outcome
    else OutcomeAt(r.status, r.current, buffer[r.used..], polls[1..], j - 1)
  }

  /** The wait `w` over `polls` ended on the first poll whose
      `process_serial` returned True or raised: every earlier poll returned
      False; the wait completed exactly when its last poll returned True,
      and crashed exactly when that poll raised, with that exception; a wait
      still polling saw only False. */
  predicate StopsOnFirstResult(w: Waited, status: Table, current: Option<int>,
                               pending: seq<Option<string>>, polls: seq<Poll>)
  {
    w.used <= |polls| && (w.end != Awaiting ==> w.used >= 1) &&
    (forall j :: 0 <= j < w.used - 1 ==> OutcomeAt(status, current, pending, polls, j) == Returned(false)) &&
    (w.end == Completed <==> w.used > 0 && OutcomeAt(status, current, pending, polls, w.used - 1) == Returned(true)) &&
    (w.end.Crashed? <==> w.used > 0 && OutcomeAt(status, current, pending, polls, w.used - 1).Raised?) &&
    (w.end.Crashed? ==> OutcomeAt(status, current, pending, polls, w.used - 1) == Raised(w.end.error)) &&
    (w.end == Awaiting ==> forall j :: 0 <= j < |polls| ==> OutcomeAt(status, current, pending, polls, j) == Returned(false))
  }

  /** The wait ends on the first poll whose `process_serial` returns True
      or raises, and not before. */
  lemma {:induction false} AwaitStopsOnFirstResult(status: Table, current: Option<int>,
                                                   pending: seq<Option<string>>, start: real, polls: seq<Poll>)
    ensures StopsOnFirstResult(Await(status, current, pending, start, polls), status, current, pending, polls)
    decreases |polls|
  {
    if polls != [] {
      var buffer := pending + polls[0].arrivals;
      var r := Serve(status, current, buffer);
      if KeepsWaiting(status, current, pending, start, polls) {
        AwaitStopsOnFirstResult(r.status, r.current, buffer[r.used..], start, polls[1..]);
        AwaitStopsAfterFalse(status, current, pending, start, polls);
      } else {
        AwaitStopsHere(status, current, pending, start, polls);
      }
    }
  }

  /** A poll that ends the wait is the first result. */
  lemma AwaitStopsHere(status: Table, current: Option<int>, pending: seq<Option<string>>,
                       start: real, polls: seq<Poll>)
    requires polls != [] && !KeepsWaiting(status, current, pending, start, polls)
    ensures StopsOnFirstResult(Await(status, current, pending, start, polls), status, current, pending, polls)
  {
    var r := Serve(status, current, pending + polls[0].arrivals);
    AwaitLastTurn(status, current, pending, start, polls);
    assert OutcomeAt(status, current, pending, polls, 0) == r.outcome;
  }

  /** After a poll that returned False within the deadline, the wait over
      the remaining polls stopping on its first result means the whole wait
      does. */
  lemma AwaitStopsAfterFalse(status: Table, current: Option<int>, pending: seq<Option<string>>,
                             start: real, polls: seq<Poll>)
    requires KeepsWaiting(status, current, pending, start, polls)
    requires var buffer := pending + polls[0].arrivals;
      var r := Serve(status, current, buffer);
      StopsOnFirstResult(Await(r.status, r.current, buffer[r.used..], start, polls[1..]),
                         r.status, r.current, buffer[r.used..], polls[1..])
    ensures StopsOnFirstResult(Await(status, current, pending, start, polls), status, current, pending, polls)
  {
    var buffer := pending + polls[0].arrivals;
    var r := Serve(status, current, buffer);
    AwaitNextTurn(status, current, pending, start, polls);
    assert OutcomeAt(status, current, pending, polls, 0) == Returned(false);
    forall j | 1 <= j < |polls|
      ensures OutcomeAt(status, current, pending, polls, j) ==
              OutcomeAt(r.status, r.current, buffer[r.used..], polls[1..], j - 1)
    {
    }
  }

  /** The last snapshot the wait displayed is the final table; with none
      displayed the table is unchanged. */
  lemma {:induction false} AwaitShotsEndInStatus(status: Table, current: Option<int>,
                                                 pending: seq<Option<string>>, start: real, polls: seq<Poll>)
    ensures var w := Await(status, current, pending, start, polls);
      LastDrawn(status, w.shots, w.status)
    decreases |polls|
  {
    if polls != [] {
      var buffer := pending + polls[0].arrivals;
      var r := Serve(status, current, buffer);
      ServeShotsEndInStatus(status, current, buffer);
      if KeepsWaiting(status, current, pending, start, polls) {
        AwaitNextTurn(status, current, pending, start, polls);
        var v := Await(r.status, r.current, buffer[r.used..], start, polls[1..]);
        AwaitShotsEndInStatus(r.status, r.current, buffer[r.used..], start, polls[1..]);
        LastDrawnChain(status, r.shots, r.status, v.shots, v.status);
      } else {
        AwaitLastTurn(status, current, pending, start, polls);
      }
    }
  }

  /** While the device sends nothing, the wait changes nothing: it polls
      until a reading passes the deadline and then stalls. */
  lemma {:induction false} SilentDeviceStalls(status: Table, current: Option<int>, start: real, polls: seq<Poll>)
    requires forall j :: 0 <= j < |polls| ==> polls[j].arrivals == []
    ensures var w := Await(status, current, [], start, polls);
      w.status == status && w.current == current && w.shots == [] && w.rest == [] &&
      (w.end == Stalled || w.end == Awaiting) &&
      ((exists j :: 0 <= j < |polls| && polls[j].now - start > Deadline) ==> w.end == Stalled)
    decreases |polls|
  {
    if polls != [] {
      assert [] + polls[0].arrivals == [];
      if KeepsWaiting(status, current, [], start, polls) {
        AwaitNextTurn(status, current, [], start, polls);
        SilentDeviceStalls(status, current, start, polls[1..]);
        if exists j :: 0 <= j < |polls| && polls[j].now - start > Deadline {
          var j :| 0 <= j < |polls| && polls[j].now - start > Deadline;
          assert j > 0 && polls[1..][j - 1] == polls[j];
        }
      } else {
        AwaitLastTurn(status, current, [], start, polls);
      }
    }
  }

  // ---------------------------------------------------------------------
  // the send step of run

  /** A line the monitor may write: validated count text and a newline. */
  predicate IsCountCommand(line: string) {
    |line| > 0 && line[|line| - 1] == '\n' && ValidateData(line[..|line| - 1])
  }

  /** What one tick of `run` writes, given the file read (`None` when the
      file is missing): the stripped file text itself plus a newline, and
      only when that text is valid. */
  function Outbound(file: Option<string>): (line: Option<string>)
    ensures line.Some? <==> file.Some? && ValidateData(Strip(file.value))
    ensures line.Some? ==> line.value == Strip(file.value) + "\n" && IsCountCommand(line.value)
  {
    match file
    case None => None
    case Some(text) =>
      var data := Strip(text);
      assert (data + "\n")[..|data|] == data;
      if data != [] && ValidateData(data) then Some(data + "\n") else None
  }
  // ---------------------------------------------------------------------
  // the outer loop of run

  /** What one turn of the outer loop sees: the file read (`None` when it
      is missing), the clock reading taken right after the send, and the
      turns of the inner wait. */
  datatype TickInput = TickInput(file: Option<string>, start: real, polls: seq<Poll>)

  /** How a turn of the outer loop ends. */
  datatype TickEnd = FileMissing | NotSent | Sent(wait: WaitEnd)

  datatype Ticked = Ticked(status: Table, current: Option<int>, pending: seq<Option<string>>,
                           sent: Option<string>, shots: seq<Table>, end: TickEnd)

  /** One turn of `while True` in `run`: read and strip the file, and when
      the text is valid, clear the input buffer, send it and wait. */
  function Step(status: Table, current: Option<int>, pending: seq<Option<string>>, t: TickInput): (k: Ticked)
    ensures !(k.end.Sent? && k.end.wait.Crashed?) && Consistent(status, current) ==> Consistent(k.status, k.current)
  {
    match Outbound(t.file)
    case None =>
      Ticked(status, current, pending, None, [], if t.file.None? then FileMissing else NotSent)
    case Some(line) =>
      var w := Await(status, current, [], t.start, t.polls);
      Ticked(w.status, w.current, w.rest, Some(line), w.shots, Sent(w.end))
  }

  /** A turn that sends nothing (missing file, empty or invalid text)
      changes no state; a turn sends exactly when the stripped text is
      valid, and what it sends is that text and a newline. */
  lemma StepSendsOnlyValidText(status: Table, current: Option<int>, pending: seq<Option<string>>, t: TickInput)
    ensures var k := Step(status, current, pending, t);
      (k.end == FileMissing <==> t.file.None?) &&
      (k.end.Sent? <==> t.file.Some? && ValidateData(Strip(t.file.value))) &&
      (k.end.Sent? ==> k.sent == Some(Strip(t.file.value) + "\n") && IsCountCommand(k.sent.value)) &&
      (!k.end.Sent? ==>
         k.sent.None? && k.status == status && k.current == current && k.pending == pending && k.shots == [])
  {
  }

  /** Whether a turn that ended with `end` ends the run, and how: with the
      exception that escaped, or (`None`) with the interrupt that arrives
      while the wait is still polling. */
  function RunEnd(end: TickEnd): (stop: Option<Option<Error>>)
    ensures stop.None? <==> !(end.Sent? && (end.wait.Crashed? || end.wait.Awaiting?))
    ensures stop.Some? && stop.value.Some? <==> end.Sent? && end.wait.Crashed?
  {
    match end
    case Sent(Crashed(e)) => Some(Some(e))
    case Sent(Awaiting) => Some(None)
    case _ => None
  }

  /** Whether `run` goes on to the next turn after this one. */
  predicate Continues(k: Ticked) {
    RunEnd(k.end).None?
  }

  /** The lines one turn sends. */
  function SentBy(k: Ticked): (lines: seq<string>)
    ensures |lines| <= 1
  {
    if k.sent.Some? then [k.sent.value] else []
  }

  datatype Finished = Finished(status: Table, current: Option<int>, pending: seq<Option<string>>,
                               sent: seq<string>, shots: seq<Table>, crash: Option<Error>)

  /** `run` over a finite run of turns. It stops at the first exception,
      and when a turn's recorded polls run out mid-wait (`Awaiting`), which
      is where the interrupt that ends the run arrived. */
  function Session(status: Table, current: Option<int>, pending: seq<Option<string>>,
                   ticks: seq<TickInput>): (s: Finished)
    ensures s.crash.None? && Consistent(status, current) ==> Consistent(s.status, s.current)
    decreases |ticks|
  {
    if ticks == [] then Finished(status, current, pending, [], [], None)
    else
      var k := Step(status, current, pending, ticks[0]);
      var sent := SentBy(k);
      match RunEnd(k.end)
      case Some(crash) => Finished(k.status, k.current, k.pending, sent, k.shots, crash)
      case None =>
        var s := Session(k.status, k.current, k.pending, ticks[1..]);
        s.(sent := sent + s.sent, shots := k.shots + s.shots)
  }

  /** `run` is its first turn followed, unless that turn ended the run, by
      the run of the remaining turns. */
  lemma SessionFirstTick(status: Table, current: Option<int>, pending: seq<Option<string>>, ticks: seq<TickInput>)
    requires ticks != []
    ensures var k := Step(status, current, pending, ticks[0]);
      var s := Session(status, current, pending, ticks);
      if Continues(k) then
        s == Session(k.status, k.current, k.pending, ticks[1..]).(
               sent := SentBy(k) + Session(k.status, k.current, k.pending, ticks[1..]).sent,
               shots := k.shots + Session(k.status, k.current, k.pending, ticks[1..]).shots)
      else s.sent == SentBy(k) && s.shots == k.shots && s.status == k.status && s.current == k.current
  {
  }

  /** `whole` is the run that, after turns which sent `sent` and displayed
      `shots`, goes on as `rest`. */
  predicate Continued(whole: Finished, rest: Finished, sent: seq<string>, shots: seq<Table>) {
    whole.status == rest.status && whole.current == rest.current && whole.pending == rest.pending &&
    whole.crash == rest.crash && whole.sent == sent + rest.sent && whole.shots == shots + rest.shots
  }

  /** The next turn of a run either ends it, with the state that turn
      left, or the run goes on as the run over the turns after that one,
      from that state. */
  lemma SessionTurn(whole: Finished, status: Table, current: Option<int>, pending: seq<Option<string>>,
                    ticks: seq<TickInput>, sent: seq<string>, shots: seq<Table>)
    requires ticks != [] && Continued(whole, Session(status, current, pending, ticks), sent, shots)
    ensures var k := Step(status, current, pending, ticks[0]);
      var stop := RunEnd(k.end);
      (stop.None? ==>
         Continued(whole, Session(k.status, k.current, k.pending, ticks[1..]), sent + SentBy(k), shots + k.shots)) &&
      (stop.Some? ==>
         whole.crash == stop.value && whole.status == k.status && whole.current == k.current &&
         whole.pending == k.pending && whole.sent == sent + SentBy(k) && whole.shots == shots + k.shots)
  {
    var k := Step(status, current, pending, ticks[0]);
    if RunEnd(k.end).None? {
      var s := Session(k.status, k.current, k.pending, ticks[1..]);
      assert whole.sent == sent + (SentBy(k) + s.sent) == (sent + SentBy(k)) + s.sent;
      assert whole.shots == shots + (k.shots + s.shots) == (shots + k.shots) + s.shots;
    }
  }

  predicate AllCountCommands(lines: seq<string>) {
    forall i :: 0 <= i < |lines| ==> IsCountCommand(lines[i])
  }

  /** Everything `run` writes to the port is a validated count line and a
      newline. */
  lemma {:induction false} SessionSendsOnlyCommands(status: Table, current: Option<int>,
                                                pending: seq<Option<string>>, ticks: seq<TickInput>)
    ensures AllCountCommands(Session(status, current, pending, ticks).sent)
    decreases |ticks|
  {
    if ticks != [] {
      var k := Step(status, current, pending, ticks[0]);
      StepSendsOnlyValidText(status, current, pending, ticks[0]);
      SessionFirstTick(status, current, pending, ticks);
      assert AllCountCommands(SentBy(k));
      if Continues(k) {
        SessionSendsOnlyCommands(k.status, k.current, k.pending, ticks[1..]);
        AppendCommands(SentBy(k), Session(k.status, k.current, k.pending, ticks[1..]).sent);
      }
    }
  }

  lemma AppendCommands(a: seq<string>, b: seq<string>)
    requires AllCountCommands(a) && AllCountCommands(b)
    ensures AllCountCommands(a + b)
  {
    assert forall i :: |a| <= i < |a + b| ==> (a + b)[i] == b[i - |a|];
  }
}
