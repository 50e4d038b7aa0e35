/**
 * `TrafficMonitor` (smartTrafficManagement/countdown_display.py) as a class
 * whose table and current road change in place, talking to an abstract
 * serial port. Each method is proved to do what the value-level rules of
 * module Protocol say.
 *
 * What the class does not hold: the file name is kept but the file itself
 * arrives as the text each turn reads; the clock arrives as readings; the
 * lines the device sends arrive on the port between polls.
 */
module Monitor {
  import opened Wrappers
  import opened Text
  import opened Protocol

  /** The serial port: the lines waiting in the input buffer (`None` for a
      line that does not decode), everything written so far, and whether
      the port is open. */
  class Port {
    var incoming: seq<Option<string>>
    var outgoing: seq<string>
    var isOpen: bool

    /** `serial.Serial(...)`: an open port with nothing buffered. */
    constructor ()
      ensures incoming == [] && outgoing == [] && isOpen
    {
      incoming := [];
      outgoing := [];
      isOpen := true;
    }

    /** Lines the device sent reach the input buffer. */
    method Deliver(lines: seq<Option<string>>)
      modifies this
      ensures incoming == old(incoming) + lines
      ensures outgoing == old(outgoing) && isOpen == old(isOpen)
    {
      incoming := incoming + lines;
    }

    /** `readline()`: the oldest buffered line. */
    method ReadLine() returns (line: Option<string>)
      requires isOpen && incoming != []
      modifies this
      ensures line == old(incoming)[0] && incoming == old(incoming)[1..]
      ensures outgoing == old(outgoing) && isOpen
    {
      line := incoming[0];
      incoming := incoming[1..];
    }

    /** `reset_input_buffer()`: drops whatever is buffered. */
    method ResetInputBuffer()
      requires isOpen
      modifies this
      ensures incoming == [] && outgoing == old(outgoing) && isOpen
    {
      incoming := [];
    }

    /** `write(...)`. */
    method Write(line: string)
      requires isOpen
      modifies this
      ensures outgoing == old(outgoing) + [line]
      ensures incoming == old(incoming) && isOpen
    {
      outgoing := outgoing + [line];
    }

    /** `close()`. */
    method Close()
      modifies this
      ensures !isOpen && incoming == old(incoming) && outgoing == old(outgoing)
    {
      isOpen := false;
    }
  }

  /** Appending to a sequence keeps what lies before `base` and extends
      what lies after it. */
  lemma AppendPastBase<T>(s: seq<T>, base: nat, add: seq<T>)
    requires base <= |s|
    ensures (s + add)[..base] == s[..base] && (s + add)[base..] == s[base..] + add
  {
  }

  /** A sequence is what lies before `base` followed by what lies after. */
  lemma SplitAtBase<T>(s: seq<T>, base: nat)
    requires base <= |s|
    ensures s == s[..base] + s[base..]
  {
  }

  class TrafficMonitor {
    const ser: Port
    const filename: string
    var status: Table
    var currentRoad: Option<int>
    /** Every table `display_status` has drawn, oldest first. */
    ghost var shown: seq<Table>

    /** The four roads are in the table and the current road, when set,
        is one of them. */
    predicate Valid()
      reads this
    {
      Consistent(status, currentRoad)
    }

    /** `__init__`: all roads red with countdown 0, no current road. */
    constructor (filename: string)
      ensures fresh(ser) && ser.isOpen && ser.incoming == [] && ser.outgoing == []
      ensures this.filename == filename
      ensures status == InitialTable() && currentRoad == None && shown == []
      ensures Valid()
    {
      ser := new Port();
      this.filename := filename;
      status := InitialTable();
      currentRoad := None;
      shown := [];
    }

    /** `display_status`: draws the table as it is now. */
    method DisplayStatus()
      modifies this
      ensures shown == old(shown) + [status]
      ensures status == old(status) && currentRoad == old(currentRoad)
    {
      shown := shown + [status];
    }

    /** `process_serial`: reads buffered lines until one is a COUNTDOWN or
        DONE line, acts on that one and returns. */
    method ProcessSerial() returns (outcome: Outcome)
      requires ser.isOpen
      modifies this, ser
      ensures var r := Serve(old(status), old(currentRoad), old(ser.incoming));
        outcome == r.outcome && status == r.status && currentRoad == r.current &&
        shown == old(shown) + r.shots && ser.incoming == old(ser.incoming)[r.used..]
      ensures ser.outgoing == old(ser.outgoing) && ser.isOpen
      ensures old(Valid()) && outcome.Returned? ==> Valid()
    {
      ghost var read := 0;
      while |ser.incoming| > 0
        invariant ser.isOpen && ser.outgoing == old(ser.outgoing)
        invariant status == old(status) && currentRoad == old(currentRoad) && shown == old(shown)
        invariant read <= |old(ser.incoming)| && ser.incoming == old(ser.incoming)[read..]
        invariant Serve(status, currentRoad, old(ser.incoming)) ==
                  Serve(status, currentRoad, ser.incoming).(
                    used := Serve(status, currentRoad, ser.incoming).used + read)
        decreases |ser.incoming|
      {
        var raw := ser.ReadLine();
        read := read + 1;
        var stop, result := HandleLine(raw);
        if stop {
          return result;
        }
      }
      return Returned(false);
    }

    /** The body of the polling loop of `process_serial` for one line read:
        `stop` says whether the call returns `result` after it. */
    method HandleLine(raw: Option<string>) returns (stop: bool, result: Outcome)
      modifies this
      ensures var e := Handle(old(status), old(currentRoad), Classify(raw));
        stop == e.Stop? &&
        (e.Skip? ==> status == old(status) && currentRoad == old(currentRoad) && shown == old(shown)) &&
        (e.Stop? ==>
           status == e.status && currentRoad == e.current && shown == old(shown) + e.shots &&
           result == e.outcome)
    {
      stop := false;
      result := Returned(false);
      if raw.None? {
        // UnicodeDecodeError
        return;
      }
      var line := Strip(raw.value);
      if "COUNTDOWN" <= line {
        stop := true;
        var parts := Split(line);
        if |parts| == 3 {
          var road := ParseInt(parts[1]);
          if road.None? {
            result := Raised(ValueError);
            return;
          }
          var seconds := ParseInt(parts[2]);
          if seconds.None? {
            result := Raised(ValueError);
            return;
          }
          currentRoad := road;
          if road.value !in status {
            result := Raised(KeyError);
            return;
          }
          var r := road.value;
          status := status[r := status[r].(color := Green)];
          status := status[r := status[r].(countdown := seconds.value)];
          ghost var green := status;
          assert green == old(status)[r := Signal(Green, seconds.value)];
          DisplayStatus();
          if seconds.value == 1 {
            status := status[r := status[r].(color := Red)];
            DisplayStatus();
            assert shown == old(shown) + [green, status];
          }
        }
      } else if line == "DONE" {
        stop := true;
        if currentRoad.Some? && currentRoad.value != 0 {
          var r := currentRoad.value;
          if r !in status {
            result := Raised(KeyError);
            return;
          }
          status := status[r := status[r].(color := Red)];
          status := status[r := status[r].(countdown := 0)];
          assert status == old(status)[r := Signal(Red, 0)];
          DisplayStatus();
        }
        result := Returned(true);
      }
    }

    /** One turn of the outer loop of `run`: read and strip the file, and
        when the text is valid, clear the input buffer, send the text with a
        newline and poll until the device reports DONE or the deadline
        passes. `Sent(Crashed(e))` is the exception that escapes `run`. */
    method Tick(t: TickInput) returns (end: TickEnd)
      requires ser.isOpen
      modifies this, ser
      ensures var k := Step(old(status), old(currentRoad), old(ser.incoming), t);
        end == k.end && status == k.status && currentRoad == k.current &&
        ser.incoming == k.pending && shown == old(shown) + k.shots &&
        ser.outgoing == old(ser.outgoing) + SentBy(k)
      ensures ser.isOpen
    {
      if t.file.None? {
        // FileNotFoundError
        return FileMissing;
      }
      var data := Strip(t.file.value);
      if !(data != [] && ValidateData(data)) {
        return NotSent;
      }
      ser.ResetInputBuffer();
      ser.Write(data + "\n");
      var wait := AwaitCycle(t.start, t.polls);
      return Sent(wait);
    }

    /** The `while True` wait after a send: poll until `process_serial`
        returns True or the clock has passed `Deadline` seconds after
        `startTime`. `Awaiting` when the recorded polls run out first. */
    method AwaitCycle(startTime: real, polls: seq<Poll>) returns (end: WaitEnd)
      requires ser.isOpen
      modifies this, ser
      ensures var w := Await(old(status), old(currentRoad), old(ser.incoming), startTime, polls);
        end == w.end && status == w.status && currentRoad == w.current &&
        ser.incoming == w.rest && shown == old(shown) + w.shots
      ensures ser.outgoing == old(ser.outgoing) && ser.isOpen
    {
      ghost var wait := Await(status, currentRoad, ser.incoming, startTime, polls);
      ghost var base: nat, turns: nat := |shown|, 0;
      var rest := polls;
      while rest != []
        invariant base <= |shown| && shown[..base] == old(shown)
        invariant ser.isOpen && ser.outgoing == old(ser.outgoing)
        invariant Resumed(wait, Await(status, currentRoad, ser.incoming, startTime, rest), shown[base..], turns)
        decreases |rest|
      {
        var stop := WaitTurn(wait, startTime, rest, turns, base);
        if stop.Some? {
          SplitAtBase(shown, base);
          return stop.value;
        }
        rest := rest[1..];
        turns := turns + 1;
      }
      SplitAtBase(shown, base);
      return Awaiting;
    }

    /** The next poll of the wait `wait` of `AwaitCycle`, which has taken
        `turns` polls so far and whose redraws are those of `shown` from
        `base` on: either the wait ends there, in the state that `wait`
        ends in, or it goes on as the wait over the polls after it. */
    method WaitTurn(ghost wait: Waited, startTime: real, polls: seq<Poll>, ghost turns: nat, ghost base: nat)
      returns (stop: Option<WaitEnd>)
      requires ser.isOpen && polls != [] && base <= |shown|
      requires Resumed(wait, Await(status, currentRoad, ser.incoming, startTime, polls), shown[base..], turns)
      modifies this, ser
      ensures ser.outgoing == old(ser.outgoing) && ser.isOpen
      ensures base <= |shown| && shown[..base] == old(shown)[..base]
      ensures stop.None? ==>
        Resumed(wait, Await(status, currentRoad, ser.incoming, startTime, polls[1..]), shown[base..], turns + 1)
      ensures stop.Some? ==>
        stop.value == wait.end && status == wait.status && currentRoad == wait.current &&
        ser.incoming == wait.rest && wait.shots == shown[base..]
    {
      ghost var (s0, c0, pending, shown0) := (status, currentRoad, ser.incoming, shown);
      ghost var shots := shown0[base..];
      stop := PollOnce(startTime, polls[0]);
      ghost var r := Serve(s0, c0, pending + polls[0].arrivals);
      AppendPastBase(shown0, base, r.shots);
      AwaitTurn(wait, s0, c0, pending, startTime, polls, shots, turns);
    }

    /** One turn of the wait: the device's lines arrive, `process_serial`
        runs, and the wait stops on True, on an exception, or once the clock
        reads more than `Deadline` seconds after `startTime`. */
    method PollOnce(startTime: real, poll: Poll) returns (stop: Option<WaitEnd>)
      requires ser.isOpen
      modifies this, ser
      ensures var buffer := old(ser.incoming) + poll.arrivals;
        var r := Serve(old(status), old(currentRoad), buffer);
        status == r.status && currentRoad == r.current && shown == old(shown) + r.shots &&
        ser.incoming == buffer[r.used..] && stop == PollEnd(r.outcome, poll.now - startTime > Deadline)
      ensures ser.outgoing == old(ser.outgoing) && ser.isOpen
    {
      ser.Deliver(poll.arrivals);
      var outcome := ProcessSerial();
      if outcome.Raised? {
        return Some(Crashed(outcome.error));
      }
      if outcome.done {
        return Some(Completed);
      }
      if poll.now - startTime > Deadline {
        return Some(Stalled);
      }
      return None;
    }

    /** `run`: turns of the outer loop until an exception escapes or the
        interrupt arrives, which is taken to be when the recorded turns run
        out or the polls of a wait run out. The port is closed on every way
        out. */
    method Run(ticks: seq<TickInput>) returns (crash: Option<Error>)
      requires ser.isOpen
      modifies this, ser
      ensures var s := Session(old(status), old(currentRoad), old(ser.incoming), ticks);
        crash == s.crash && status == s.status && currentRoad == s.current &&
        ser.incoming == s.pending && shown == old(shown) + s.shots &&
        ser.outgoing == old(ser.outgoing) + s.sent
      ensures !ser.isOpen
      ensures AllCountCommands(ser.outgoing[|old(ser.outgoing)|..])
      ensures old(Valid()) && crash.None? ==> Valid()
    {
      SessionSendsOnlyCommands(status, currentRoad, ser.incoming, ticks);
      crash := RunTurns(ticks);
      ser.Close();
    }

    /** The turns of `run` up to the first exception or interrupt, with the
        port still open. */
    method RunTurns(ticks: seq<TickInput>) returns (crash: Option<Error>)
      requires ser.isOpen
      modifies this, ser
      ensures var s := Session(old(status), old(currentRoad), old(ser.incoming), ticks);
        crash == s.crash && status == s.status && currentRoad == s.current &&
        ser.incoming == s.pending && shown == old(shown) + s.shots &&
        ser.outgoing == old(ser.outgoing) + s.sent
    {
      ghost var whole := Session(status, currentRoad, ser.incoming, ticks);
      ghost var (sentBase, shownBase) := (|ser.outgoing|, |shown|);
      var rest := ticks;
      while rest != []
        invariant ser.isOpen
        invariant sentBase <= |ser.outgoing| && ser.outgoing[..sentBase] == old(ser.outgoing)
        invariant shownBase <= |shown| && shown[..shownBase] == old(shown)
        invariant Continued(whole, Session(status, currentRoad, ser.incoming, rest),
                            ser.outgoing[sentBase..], shown[shownBase..])
        decreases |rest|
      {
        var stop := RunTurn(whole, rest, sentBase, shownBase);
        if stop.Some? {
          SplitAtBase(ser.outgoing, sentBase);
          SplitAtBase(shown, shownBase);
          return stop.value;
        }
        rest := rest[1..];
      }
      SplitAtBase(ser.outgoing, sentBase);
      SplitAtBase(shown, shownBase);
      return None;
    }

    /** The next turn of the run `whole` of `RunTurns`, whose sends and
        redraws are those of the port and of `shown` from `sentBase` and
        `shownBase` on: either the run ends there (`stop` holds its crash),
        in the state `whole` ends in, or it goes on as the run over the
        turns after it. */
    method RunTurn(ghost whole: Finished, ticks: seq<TickInput>, ghost sentBase: nat, ghost shownBase: nat)
      returns (stop: Option<Option<Error>>)
      requires ser.isOpen && ticks != [] && sentBase <= |ser.outgoing| && shownBase <= |shown|
      requires Continued(whole, Session(status, currentRoad, ser.incoming, ticks),
                         ser.outgoing[sentBase..], shown[shownBase..])
      modifies this, ser
      ensures ser.isOpen
      ensures sentBase <= |ser.outgoing| && ser.outgoing[..sentBase] == old(ser.outgoing)[..sentBase]
      ensures shownBase <= |shown| && shown[..shownBase] == old(shown)[..shownBase]
      ensures stop.None? ==>
        Continued(whole, Session(status, currentRoad, ser.incoming, ticks[1..]),
                  ser.outgoing[sentBase..], shown[shownBase..])
      ensures stop.Some? ==>
        stop.value == whole.crash && status == whole.status && currentRoad == whole.current &&
        ser.incoming == whole.pending && whole.sent == ser.outgoing[sentBase..] && whole.shots == shown[shownBase..]
    {
      ghost var (s0, c0, pending) := (status, currentRoad, ser.incoming);
      ghost var (out0, shown0) := (ser.outgoing, shown);
      ghost var (sent, shots) := (out0[sentBase..], shown0[shownBase..]);
      ghost var k := Step(s0, c0, pending, ticks[0]);
      var end := Tick(ticks[0]);
      AppendPastBase(out0, sentBase, SentBy(k));
      AppendPastBase(shown0, shownBase, k.shots);
      SessionTurn(whole, s0, c0, pending, ticks, sent, shots);
      // an escaping exception, or the interrupt while waiting, ends the run
      stop := RunEnd(end);
    }
  }
}
