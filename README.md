# Smart traffic management: countdown synchronisation and count file, in Dafny

This project models two programs of the smart traffic management system and
proves properties of the model.

**`TrafficMonitor`** (smartTrafficManagement/countdown_display.py) runs on the
host next to the signal controller. In a loop it:

- reads the vehicle counts file and strips it;
- checks that the text is four non-negative integers;
- sends that text with a newline over the serial port;
- then polls the port. `COUNTDOWN <road> <seconds>` lines turn a road green in
  its four-road status table. A `DONE` line turns the current road back to red
  and ends the cycle. The wait also ends once more than 60 seconds have passed
  since the send.

**The video side** (smartTrafficManagement/multi_video_processing.py) counts,
for each of four cameras, the detected vehicle boxes that overlap the camera's
region of interest. It refreshes those counts every 15th frame and writes them
to the counts file as one line.

Modules:

- `Wrappers`: `Option`.
- `Text`: the Python string operations both programs rely on:
  - `str.isspace` over the full set of whitespace code points;
  - `strip()` and `split()`;
  - `str(int)`;
  - `int(token)`, returning `None` where Python raises `ValueError`.
- `Protocol`: the monitor's rules, stated on values:
  - the status table;
  - `Handle`, for one line read from the port;
  - `Serve`, one call of `process_serial` over the buffered lines;
  - `Await`, the wait after a send;
  - `Step`, one turn of `run`;
  - `Session`, the whole of `run`.
- `Monitor`: the class `TrafficMonitor`, whose table and current road change in
  place, and an abstract serial `Port`. Each method of `TrafficMonitor` that
  handles lines, waits or runs turns is proved to end in the state the
  `Protocol` functions give.
- `RoiCounting`:
  - the overlap test;
  - the counting loop, proved against its specification function;
  - the count line;
  - the class `FrameCounter`, holding `frame_count`, `last_roi_counts` and the
    count file.
- `Pipeline`: the two programs together. A count line the video side writes is
  valid for the monitor, is sent unchanged, and parses back into the same
  counts.

How the outside world is represented:

- Serial lines are `Option<string>`. `None` is a line that does not decode; the
  source catches that `UnicodeDecodeError` and skips the line.
- The exceptions the source does not catch become a `Raised` outcome that ends
  `run`, with the port closed:
  - `ValueError` from `int()` on a COUNTDOWN token;
  - `KeyError` from a road outside the table.
- Each turn of `run` receives the file text as read (`None` when the file is
  missing).
- Each poll of the wait receives the lines that reached the port and the clock
  reading.
- Every redraw of the table is appended to a ghost log `shown`.

Behaviour of the code that the model keeps as written:

- A COUNTDOWN line whose numbers do not parse, or whose road is unknown, is
  not discarded. `int()` raises `ValueError` and `self.status[road]` raises
  `KeyError`, and neither is caught, so either one ends `run`
  (`UnknownRoadRaises`, `BadNumberRaises`). `current_road` is already set
  when the `KeyError` is raised.
- Any integer is stored as the countdown, negative ones included.
- `COUNTDOWN r 1` first displays road r green/1 and then red/1
  (`CountdownOneShowsRed`).
- The line sent is the stripped file text plus a newline, not a
  re-encoding of the parsed counts (`Outbound`).
- A countdown for another road does not turn the previous road red, so two
  roads can be green at once (`SecondCountdownKeepsFirstGreen`).
- `DONE` never clears `current_road`, so a second `DONE` changes nothing
  (`RepeatedDoneChangesNothing`). A current road of 0 counts as no road.

## Model

| member | source | states |
|---|---|---|
| `Protocol.InitialTable` | smartTrafficManagement/countdown_display.py:10-13 | the initial table has exactly roads 1-4, each red with countdown 0 |
| `Monitor.TrafficMonitor.constructor` | smartTrafficManagement/countdown_display.py:7-14 | a new monitor holds the initial table, no current road, the file name, and an open port with nothing buffered or written |
| `Monitor.TrafficMonitor.DisplayStatus` | smartTrafficManagement/countdown_display.py:17-22 | a redraw records the current table and changes neither the table nor the current road |
| `Protocol.ValidateData` | smartTrafficManagement/countdown_display.py:89-95 | accepted text always splits into exactly four tokens |
| `Protocol.ValidateDataMeaning` | smartTrafficManagement/countdown_display.py:89-95 | text is valid iff it splits into four tokens that each parse as an integer >= 0; an unparsable token makes it invalid rather than raising |
| `Protocol.Handle` | smartTrafficManagement/countdown_display.py:26-51 | a line is read past iff it is undecodable or neither COUNTDOWN-prefixed nor DONE; otherwise the call ends; the keys of the table never change; a call that returns keeps the four roads and a current road among them |
| `Protocol.Classify` | smartTrafficManagement/countdown_display.py:27-44 | how one line is read: undecodable, COUNTDOWN-prefixed after stripping, exactly DONE after stripping, or other; stated in both directions by `ClassifyReadsPastOther`, `ClassifyAnyCountdown` and `ClassifyDoneExactly` |
| `Protocol.ClassifyReadsPastOther` | smartTrafficManagement/countdown_display.py:27-44 | a decoded line is a countdown iff its stripped text starts with COUNTDOWN, and is read past as other iff its stripped text neither starts with COUNTDOWN nor is DONE; only an undecodable line is undecodable |
| `Protocol.ClassifyAnyCountdown` | smartTrafficManagement/countdown_display.py:27-29 | any line whose stripped text starts with COUNTDOWN, whatever whitespace surrounds or separates its words, is a countdown whose parts are the words of the stripped line, all of them non-empty and free of whitespace, the first starting with COUNTDOWN |
| `Protocol.ClassifyDoneExactly` | smartTrafficManagement/countdown_display.py:27-44 | a line is read as DONE iff its stripped text is exactly DONE |
| `Protocol.HandleShotsEndInStatus` | smartTrafficManagement/countdown_display.py:34-48 | the last table drawn is the final table, and with no redraw the table is unchanged |
| `Protocol.HandleOnlyCurrentRoad` | smartTrafficManagement/countdown_display.py:31-47 | one line changes at most the entry of the road that is current afterwards |
| `Protocol.HandleTrueOnlyOnDone` | smartTrafficManagement/countdown_display.py:28-49 | a line makes the call return True iff it is DONE |
| `Protocol.ClassifyCountdownWords` | smartTrafficManagement/countdown_display.py:27-29 | a line of words joined by single spaces, the first of which begins with COUNTDOWN (such as COUNTDOWNX), followed by whitespace, is taken as a countdown whose parts are exactly those words |
| `Protocol.ClassifyCountdown` | smartTrafficManagement/countdown_display.py:27-32 | the device's `COUNTDOWN r s` line is read as three parts whose numbers parse back to r and s |
| `Protocol.CountdownTextIsCountdown` | smartTrafficManagement/countdown_display.py:27-32 | the controller line `COUNTDOWN r s` with any trailing whitespace is a countdown line for r and s, so the lemmas above apply to it |
| `Protocol.ClassifyDone` | smartTrafficManagement/countdown_display.py:27-44 | `DONE` followed by whitespace is read as DONE |
| `Protocol.CountdownTurnsRoadGreen` | smartTrafficManagement/countdown_display.py:27-43 | any line that strips to a COUNTDOWN-prefixed first word and two words parsing to r and s (whatever the whitespace, leading zeros or sign), with r in the table and s other than 1, makes r green with countdown s and current, leaves the other roads alone, draws once and returns False |
| `Protocol.CountdownOneShowsRed` | smartTrafficManagement/countdown_display.py:27-43 | any such countdown line for r with seconds 1 draws r green/1 then red/1 and leaves it red/1 |
| `Protocol.SecondCountdownKeepsFirstGreen` | smartTrafficManagement/countdown_display.py:27-43 | after any countdown lines for two different roads with no DONE between them, both roads are green |
| `Protocol.UnknownRoadRaises` | smartTrafficManagement/countdown_display.py:27-34 | any countdown line whose road parses to a road outside the table raises KeyError after making that road current, with the table unchanged |
| `Protocol.BadNumberRaises` | smartTrafficManagement/countdown_display.py:27-32 | any line whose stripped text starts with COUNTDOWN and splits into three words, whatever whitespace surrounds or separates them, whose road or seconds word is not an integer raises ValueError and changes nothing |
| `Protocol.MisshapenCountdownIgnored` | smartTrafficManagement/countdown_display.py:27-43 | any line whose stripped text starts with COUNTDOWN and splits into other than three words, whatever whitespace surrounds or separates them, changes nothing and returns False |
| `Protocol.DoneClearsCurrentRoad` | smartTrafficManagement/countdown_display.py:44-49 | DONE with a current road in the table makes it red/0, keeps it current, draws once and returns True |
| `Protocol.DoneUnknownRoadRaises` | smartTrafficManagement/countdown_display.py:44-47 | DONE whose current road is not in the table raises KeyError |
| `Protocol.DoneWithoutRoadChangesNothing` | smartTrafficManagement/countdown_display.py:44-49 | DONE with no current road, or with road 0 current (false in Python), returns True and changes nothing |
| `Protocol.RepeatedDoneChangesNothing` | smartTrafficManagement/countdown_display.py:44-49 | current_road is not cleared, so a second DONE leaves table and current road as the first left them and returns True |
| `Protocol.Serve` | smartTrafficManagement/countdown_display.py:24-52 | a call consumes at most the buffered lines, keeps the table's keys, and a call that returns keeps the four roads and a current road among them |
| `Protocol.FirstStop` | smartTrafficManagement/countdown_display.py:25-51 | the position of the first buffered line the loop does not read past: all lines before it are skippable, the line at it is not |
| `Protocol.ServeActsOnFirstStop` | smartTrafficManagement/countdown_display.py:24-52 | with only skippable lines buffered the call reads them all, returns False and changes nothing; otherwise it reads up to and including the first COUNTDOWN/DONE line and does exactly what that line does |
| `Protocol.ServeTrueOnlyOnDone` | smartTrafficManagement/countdown_display.py:24-52 | the call returns True iff the last line it read is DONE |
| `Protocol.ServeShotsEndInStatus` | smartTrafficManagement/countdown_display.py:24-52 | the last table drawn in a call is its final table; without a redraw the table is unchanged |
| `Protocol.ServeOnlyCurrentRoad` | smartTrafficManagement/countdown_display.py:24-52 | a call changes only the entry of the road current afterwards |
| `Protocol.PollEnd` | smartTrafficManagement/countdown_display.py:68-74 | a poll lets the wait go on iff process_serial returned False and the clock is within 60 s of the send; it never reports the wait as still running |
| `Protocol.Await` | smartTrafficManagement/countdown_display.py:66-76 | the wait takes at most the polls given, at least one when it ended, all of them when it is still waiting, and keeps the table consistent unless it crashed |
| `Protocol.AwaitRespectsDeadline` | smartTrafficManagement/countdown_display.py:72-74 | every poll before the last read the clock at most 60 s after the send; a stall happens only on a reading more than 60 s after it; a wait still running has seen no reading past it |
| `Protocol.AwaitStopsOnFirstResult` | smartTrafficManagement/countdown_display.py:67-74 | the wait ends on the first poll whose process_serial returns True or raises: every earlier poll returned False; the wait is Completed iff its last poll returned True, and Crashed iff that poll raised, with that exception; a wait still polling saw only False |
| `Protocol.AwaitShotsEndInStatus` | smartTrafficManagement/countdown_display.py:67-76 | the last table drawn during the wait is its final table |
| `Protocol.SilentDeviceStalls` | smartTrafficManagement/countdown_display.py:66-76 | with no lines arriving the wait changes nothing and, once a reading is past 60 s, stalls |
| `Protocol.Outbound` | smartTrafficManagement/countdown_display.py:58-64 | a line is sent iff the file exists and its stripped text is valid, and the line is that stripped text plus a newline, itself a valid count command |
| `Protocol.Step` | smartTrafficManagement/countdown_display.py:57-82 | a turn that does not crash keeps the table consistent |
| `Protocol.StepSendsOnlyValidText` | smartTrafficManagement/countdown_display.py:58-82 | a turn reports the missing file iff there is none, sends iff the stripped text is valid, sends exactly that text plus a newline, and otherwise changes no state |
| `Protocol.RunEnd` | smartTrafficManagement/countdown_display.py:55-87 | the run ends after a turn iff its wait crashed or was still waiting when the interrupt came, and it ends with an error iff the wait crashed |
| `Protocol.Session` | smartTrafficManagement/countdown_display.py:54-87 | a run that ends without an exception leaves the table consistent |
| `Protocol.SessionSendsOnlyCommands` | smartTrafficManagement/countdown_display.py:61-64 | everything run writes to the port is a valid count line followed by a newline |
| `Monitor.Port.constructor` | smartTrafficManagement/countdown_display.py:8 | an opened port has nothing buffered and nothing written |
| `Monitor.Port.ReadLine` | smartTrafficManagement/countdown_display.py:27 | readline takes the oldest buffered line |
| `Monitor.Port.ResetInputBuffer` | smartTrafficManagement/countdown_display.py:63 | reset_input_buffer drops every buffered line and nothing else |
| `Monitor.Port.Write` | smartTrafficManagement/countdown_display.py:64 | write appends the line to what was sent |
| `Monitor.Port.Close` | smartTrafficManagement/countdown_display.py:87 | close leaves the port closed |
| `Monitor.TrafficMonitor.ProcessSerial` | smartTrafficManagement/countdown_display.py:24-52 | the in-place loop ends with the table, current road, redraws, remaining buffer and outcome that Serve gives, writes nothing, and keeps the monitor valid when it returns |
| `Monitor.TrafficMonitor.HandleLine` | smartTrafficManagement/countdown_display.py:26-51 | the body of the loop for one line updates the table and current road in place exactly as Handle says and reports whether the call returns |
| `Monitor.TrafficMonitor.Tick` | smartTrafficManagement/countdown_display.py:57-82 | one turn of run ends in the state, buffer, redraws and sent lines that Step gives |
| `Monitor.TrafficMonitor.AwaitCycle` | smartTrafficManagement/countdown_display.py:66-76 | the polling loop after a send ends how and in the state that Await gives, writing nothing |
| `Monitor.TrafficMonitor.WaitTurn` | smartTrafficManagement/countdown_display.py:67-76 | one pass of the polling loop either ends the wait in its final state or leaves the wait over the later polls |
| `Monitor.TrafficMonitor.PollOnce` | smartTrafficManagement/countdown_display.py:68-76 | one poll runs process_serial over the buffered and newly arrived lines and stops on True, on an exception, or on a reading more than 60 s after the send |
| `Monitor.TrafficMonitor.Run` | smartTrafficManagement/countdown_display.py:54-87 | run ends in the state that Session gives, always closes the port, writes only valid count commands and keeps the monitor valid unless an exception escaped |
| `Monitor.TrafficMonitor.RunTurns` | smartTrafficManagement/countdown_display.py:56-82 | the outer loop ends in the state, sends and redraws that Session gives |
| `Monitor.TrafficMonitor.RunTurn` | smartTrafficManagement/countdown_display.py:57-82 | one pass of the outer loop either ends the run in its final state or leaves the run over the later turns |
| `Text.StripIsTrimmed` | smartTrafficManagement/countdown_display.py:27 | strip() leaves no whitespace at either end |
| `Text.StripIsSlice` | smartTrafficManagement/countdown_display.py:27 | strip() returns a contiguous slice of its input |
| `Text.StripCutsOnlySpace` | smartTrafficManagement/countdown_display.py:27 | everything strip() removes is whitespace |
| `Text.StripPadded` | smartTrafficManagement/countdown_display.py:59 | a trimmed text followed by whitespace strips back to that text |
| `Text.Strip` | smartTrafficManagement/countdown_display.py:27 | strip(); its meaning is stated by `StripIsTrimmed`, `StripIsSlice`, `StripCutsOnlySpace` and `StripPadded` |
| `Text.Split` | smartTrafficManagement/countdown_display.py:29 | split(); determined on every string by `SplitEmpty`, `SplitAfterSpace` and `SplitAfterWord` (`SplitDetermined`) |
| `Text.SplitEmpty` | smartTrafficManagement/countdown_display.py:29 | an empty string splits into no words |
| `Text.SplitAfterSpace` | smartTrafficManagement/countdown_display.py:29 | a leading whitespace character of any kind (space, tab, CR, newline, ...) is skipped |
| `Text.SplitAfterWord` | smartTrafficManagement/countdown_display.py:29 | a word followed by the end or by whitespace is the first token, and splitting goes on after it |
| `Text.SplitDetermined` | smartTrafficManagement/countdown_display.py:29 | any function on strings that satisfies those three equations is split() itself, so they fix it on every input, runs of mixed whitespace included |
| `Text.SplitIsWords` | smartTrafficManagement/countdown_display.py:29 | every token split() yields is non-empty and free of whitespace |
| `Text.SplitJoin` | smartTrafficManagement/countdown_display.py:29 | words joined by single spaces split back into the same words |
| `Text.ParseInt` | smartTrafficManagement/countdown_display.py:31-32 | int() succeeds iff the token is digits, or a `+` or `-` followed by digits, and gives their decimal value, negated after a minus |
| `Text.ParseShowInt` | smartTrafficManagement/multi_video_processing.py:178-179 | int(str(i)) == i |
| `Text.ShowInt` | smartTrafficManagement/multi_video_processing.py:178-179 | str(i) is a single token with no whitespace; `ParseShowInt` states that int() reads it back |
| `Text.ParseAll` | smartTrafficManagement/countdown_display.py:91 | list(map(int, tokens)) succeeds iff every token parses, giving each token's value in order |
| `RoiCounting.OverlapsIffSharedPixel` | smartTrafficManagement/multi_video_processing.py:117-129 | a box is counted iff it and the region share a pixel |
| `RoiCounting.Overlaps` | smartTrafficManagement/multi_video_processing.py:118-128 | a counted box has positive width and height and lies over a non-empty region; its meaning is stated by `OverlapsIffSharedPixel` and `OverlapsIffIntervalsCross` |
| `RoiCounting.OverlapsIffIntervalsCross` | smartTrafficManagement/multi_video_processing.py:118-128 | a box is counted iff on both axes both intervals are non-empty and each starts before the other ends |
| `RoiCounting.TouchingBoxNotCounted` | smartTrafficManagement/multi_video_processing.py:122-128 | a box that only touches the region's edge is not counted |
| `RoiCounting.FlatBoxNotCounted` | smartTrafficManagement/multi_video_processing.py:120-128 | a box with width or height <= 0 is never counted |
| `RoiCounting.NumOverlapping` | smartTrafficManagement/multi_video_processing.py:105-129 | the count is at most the number of boxes kept |
| `RoiCounting.NumOverlappingBounds` | smartTrafficManagement/multi_video_processing.py:105-129 | the count is 0 iff no box overlaps (so 0 with none kept) and equals the number of boxes iff every box overlaps |
| `RoiCounting.NumOverlappingRotate` | smartTrafficManagement/multi_video_processing.py:106-129 | moving a box from the end to the front of the kept boxes does not change the count |
| `RoiCounting.CountInRoi` | smartTrafficManagement/multi_video_processing.py:105-137 | the accumulator loop returns the number of kept boxes overlapping the region |
| `RoiCounting.RoiCounts` | smartTrafficManagement/multi_video_processing.py:158-174 | the four counts of a detection frame, in camera order, each counted over the region of its camera (`CameraRois`, the regions of lines 45-46 and 52-53) and each at most the number of kept boxes of its camera |
| `RoiCounting.CountLineIsJoin` | smartTrafficManagement/multi_video_processing.py:178-179 | the count line is the four numerals joined by single spaces |
| `RoiCounting.CountLine` | smartTrafficManagement/multi_video_processing.py:177-179 | the count-file text; stated by `CountLineIsJoin`, `CountLineCharacters` and `CountLineRoundTrip` |
| `RoiCounting.CountLineCharacters` | smartTrafficManagement/multi_video_processing.py:177-179 | the count line holds only decimal digits and single spaces between digits, and starts and ends with a digit |
| `RoiCounting.CountLineRoundTrip` | smartTrafficManagement/multi_video_processing.py:177-179 | the count line splits into the four numerals, they parse back to the four counts in camera order, and it ends in a digit, not a newline |
| `RoiCounting.FrameCounter.constructor` | smartTrafficManagement/multi_video_processing.py:59-63 | the counter starts at 0, the counts at [0, 0, 0, 0], and no file is written |
| `RoiCounting.FrameCounter.Refresh` | smartTrafficManagement/multi_video_processing.py:158-179 | on a frame whose counter is a multiple of `NthFrame` (15, line 59) the four counts become the region counts of that frame and the file holds their line; on any other frame counts and file are unchanged |
| `RoiCounting.FrameCounter.Run` | smartTrafficManagement/multi_video_processing.py:139-179 | the frame loop advances the counter once per frame plus once for the frame that ends it, and leaves the counts LastCounts gives; if any processed frame is a detection frame the count file holds the line of the final counts, and otherwise the file is as it was |
| `RoiCounting.LastCounts` | smartTrafficManagement/multi_video_processing.py:158-174 | the counts after a run of frames; stated by `LastCountsQuiet` and `LastCountsAreLatest` |
| `RoiCounting.LastCountsQuiet` | smartTrafficManagement/multi_video_processing.py:158-174 | when no frame lands on a multiple of 15 the counts stay as they were |
| `RoiCounting.RewritesUnlessQuiet` | smartTrafficManagement/multi_video_processing.py:158-179 | the file is rewritten within a run of frames iff some frame of the run lands on a multiple of 15 |
| `RoiCounting.LastCountsAreLatest` | smartTrafficManagement/multi_video_processing.py:158-174 | the counts held are those of the latest frame that landed on a multiple of 15 |
| `Pipeline.CountLineValid` | smartTrafficManagement/multi_video_processing.py:177-179 | a count line has nothing for strip() to remove and passes validate_data |
| `Pipeline.CountFileSent` | smartTrafficManagement/countdown_display.py:58-64 | a count file, with any trailing whitespace, is sent as its count line plus a newline |
| `Pipeline.WrittenCountsReachController` | smartTrafficManagement/countdown_display.py:58-64 | a turn that reads a count file sends it, and the sent line parses back to the counts the video side computed |

## Left out

- smartTrafficManagement/number.py is not part of this model. It is a serial
  script that waits for DONE with no deadline, and `process_serial` already
  covers that behaviour.
- pyserial is replaced by `Port`, a buffer of whole lines:
  - `in_waiting` counts bytes, and a partial line is not modelled;
  - the read timeout is not modelled;
  - opening the port cannot fail.
- Lines arrive on the port only when a poll delivers them. Lines that arrive
  between turns of `run` are not modelled; `reset_input_buffer` drops them
  anyway.
- The screen output is not modelled: clearing it, `print`, and the time of day
  in the header. A redraw is only a ghost record of the table.
- The sleeps are not modelled. The wall clock is a real-valued reading supplied
  with each poll.
- The file is not opened by name. Each turn receives its text, or `None` for
  `FileNotFoundError`.
- `KeyboardInterrupt` is taken to arrive when the given turns of `run` run out
  or when a wait's given polls run out. Both end `run` with the port closed.
  `Awaiting` marks the second case.
- `Monitor.TrafficMonitor.AwaitCycle`: the wait is over a finite list of polls,
  so it cannot show that the source's unbounded loop ends. `AwaitRespectsDeadline`
  shows that a reading past 60 s ends it.
- I/O errors other than a missing file are not modelled. Opening or reading
  the file can fail in other ways, for example `PermissionError`,
  `IsADirectoryError`, or `UnicodeDecodeError` on content that is not UTF-8.
  The port's `readline`, `reset_input_buffer` and `write` can raise
  `SerialException`. Each of these escapes `run` after the port is closed.
  In the model a turn's file is text or missing, and port calls do not fail.
- The two programs are not modelled as running at the same time. The monitor
  can read the count file while the video side has truncated it and not yet
  finished rewriting it. A prefix of a count line can still pass
  `validate_data` with different counts; for example, `12 3 4 56` cut after
  its `5` reads as `12 3 4 5`. The `Pipeline` lemmas are about a complete
  count line.
- `Text.ParseInt` does not accept underscores between digits, non-ASCII decimal
  digits, or surrounding whitespace, all of which Python's `int()` accepts. The
  tokens it is applied to come from `split()` and so carry no whitespace.
- `Text.ParseInt` has no limit on the number of digits. Since CPython 3.11
  (and 3.10.7, 3.9.14, 3.8.14, 3.7.14), `int()` raises `ValueError` on a
  decimal string of more than 4300 digits. The model therefore differs on
  such tokens. It accepts a count file with such a number, where
  `validate_data` returns False and nothing is sent. It stores such a
  countdown, where `process_serial` raises and `run` ends.
- Detection is not modelled: loading the network, the blob, the forward pass,
  class and confidence filtering, the float-to-int box arithmetic and
  non-maximum suppression. They are library calls over floating point, so each
  camera's post-suppression integer boxes are an input.
- Video and UI are not modelled: capture, drawing, resizing, the grid and the
  window. The `q` key that ends the frame loop is not modelled; the loop ends
  only when a capture runs out.
- `RoiCounting.FrameCounter.Refresh`: the file is held as the text last
  written, not as a file on disk.
