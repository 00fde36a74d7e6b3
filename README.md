# A verified model of a terminal countdown timer and stopwatch

The program is a small terminal timer written in Go. Given a duration it
counts down; given none it counts up. It shows the time either inline or as
big block glyphs centred in the window. Space pauses and resumes. `q`, `Q`,
ESC and Ctrl-C quit. A countdown ends by itself when its time is up. When the
session ends, the loop sends a summary: start, end, effective duration
(excluding pauses), mode, and whether the countdown finished.

This Dafny project models the program's core and proves properties of it:

- **`Input`** models `parseInput`. It classifies the bytes gathered from the
  raw-mode keyboard into one of three results: wait for more, a key, or a
  sequence to discard.
- **`Reader`** models the keyboard-reader goroutine. It is a state machine
  over `Byte`, `Timeout` and `Stop` events. Its state is the accumulator,
  the lone-ESC timer and the bounded key channel (capacity 10). The pure
  step functions are `OnByte`, `OnTimeout`, `OnStop` and `Run`. The class
  `KeyboardReader` performs the same steps on mutable fields, and each
  method is proved equal to its step function.
- **`TimerLoop`** models `getTickerInterval` and the `select` loop of
  `runTimer`. The loop handles key, signal and tick events. Each event
  carries the handling instant in nanoseconds; a tick also carries the
  window size reported at that moment.
  - The pure functions `Init`, `Step`, `OnTick` and `Run` define the loop.
    Lemmas cover pause accounting, termination, the render cache and
    colours.
  - The class `TimerSession` keeps the loop's variables as fields, plus
    `output`, everything written to standard output so far. Its methods
    are proved equal to the functions.
- **`Display`** models `formatHMS`, `renderBigTime` and `centerText`.
  `RenderBigTime` and `CenterText` are loops, as in the source, proved
  against the specification functions `BigTime` and `Centered`. The glyph
  table is a parameter.
- **`Terminal`** models `moveCursor`, `fixNewlines`, the colour and
  screen escape sequences, and the size fallback of `getTerminalSize`.
- **`Text`** models the Go string primitives these use:
  - `strings.Join`
  - `strings.Split` on one character
  - `strings.Repeat`
  - `%d` and `%02d`
  - integer division truncating toward zero
- **`Config`** holds the constants of config.go. **`Wrappers`** holds
  `Option`.

Durations and instants are mathematical integers of nanoseconds.
`int64(d.Seconds())` is truncation toward zero (`TimerLoop.SecondsOf`).

The comments in `parseInput` name `ESC [ M` as a mouse sequence and say
that for M it is six bytes (timer.go:27-29). They place arrow keys under the
rule that an escape sequence ends at a final byte from 0x40 to 0x7E
(timer.go:42-43). The code does
otherwise, as described under "## Findings". `Input.ParseInput` follows the
code as written. The reader is parametrised by a `Decoder`, so both the code
as written (`AsWritten`) and the behaviour those comments describe
(`Corrected`, i.e. `ParseInputFixed`) can be proved about.

## Model

| member | source | states |
|---|---|---|
| Input.ParseInput | timer.go:14-51 | waiting always means key 0; a delivered key is the first byte and never ESC; any input whose first byte is not ESC yields that byte |
| Input.ParseShortInputs | timer.go:15-24 | empty input waits; one non-ESC byte is that key; a lone ESC waits; ESC plus any one byte waits |
| Input.ParseBracketSequences | timer.go:33-40 | an ESC '[' sequence of 3 or more bytes resolves exactly when its last byte is 'm' or 'M', and then is discarded; a final byte other than m/M leaves it waiting |
| Input.ParseOtherEscapes | timer.go:26-47 | ESC 'M' of 6 or more bytes is discarded; any other non-'[' ESC sequence of 3 or more bytes resolves exactly when it ends in a final byte; none delivers a key |
| Input.ParseInputFixed | timer.go:26-47 | the intended decoder keeps the same key guarantees as ParseInput (keys are never ESC-led; non-ESC input is its first byte) |
| Input.ParseFixedBracketSequences | timer.go:42-45 | with the intended decoder an ESC '[' sequence of three or more bytes other than an X10 report resolves exactly when its last byte is a final byte, and delivers no key |
| Input.Decode | timer.go:147 | either decoder: key guarantees as above, and a lone ESC always waits (which arms the timer) |
| Reader.Valid | timer.go:117-180 | the reader invariant (no ensures; it is the partner of StepValid and RunValid): queue within capacity and free of key 0, ESC timer armed exactly while a lone ESC waits, the accumulator an unresolved prefix |
| Reader.Push | timer.go:149-155 | a non-blocking send on the key channel: the queue is unchanged or gains exactly that key at its tail, it gains the key exactly when there is room, and it never grows past the capacity of 10 |
| Reader.OnByte | timer.go:141-162 | the byte is appended; a resolved parse empties the accumulator; the ESC timer is armed exactly when the accumulator is a lone ESC; at most one key is queued, never key 0, never onto a full queue, and a resolved non-zero key is queued whenever there is room; the invariant is kept |
| Reader.OnTimeout | timer.go:163-173 | an armed timer firing queues ESC (dropped when full), empties the accumulator and disarms; otherwise nothing changes |
| Reader.OnStop | timer.go:174-178 | stopping disarms the timer and keeps accumulator and queue |
| Reader.Step | timer.go:117-180 | one iteration of the reader goroutine, dispatching to OnByte, OnTimeout or OnStop (no ensures; specified by those functions and by StepValid) |
| Reader.Run | timer.go:117-180 | the goroutine over a sequence of events (no ensures; specified by RunValid, RunAppend and the scenario lemmas, and the loop KeyboardReader.RunEvents is proved equal to it) |
| Reader.Receive | timer.go:249 | the loop receives the oldest queued key, or nothing when the queue is empty |
| Reader.StepValid | timer.go:117-180 | every event keeps the reader invariant (queue within capacity and free of key 0, timer armed iff lone ESC, accumulator unresolved) |
| Reader.RunValid | timer.go:117-180 | every state reachable from a valid one satisfies the invariant |
| Reader.LoneEscapeThenTimeout | timer.go:158-173 | a lone ESC followed by the timeout delivers ESC exactly once |
| Reader.ParametersAccumulate | timer.go:33-40 | while an ESC '[' sequence receives parameter bytes, both decoders keep it and deliver nothing |
| Reader.SgrMouseReportDiscarded | timer.go:33-37 | a complete SGR mouse report ESC '[' '<' params m/M is discarded by both decoders and drains the accumulator |
| Reader.BracketSwallowsAsWritten | timer.go:33-40 | as written, after ESC '[' every byte other than m/M is swallowed and no key is delivered |
| Reader.ArrowKeySwallowsQuitAsWritten | timer.go:33-40 | as written, Up arrow followed by 'q' delivers no key |
| Reader.ArrowKeyThenKeyCorrected | timer.go:43-45 | with the intended decoder an arrow key is discarded at its final byte and the next key is delivered |
| Reader.X10PrefixResolvesAsWritten | timer.go:34-37 | as written, ESC '[' 'M' resolves after three bytes |
| Reader.PlainKeyDelivered | timer.go:146-156 | a plain byte at an empty accumulator is queued at once |
| Reader.ThreePlainKeys | timer.go:146-156 | three plain bytes are queued in order |
| Reader.X10MouseReportLeaksAsWritten | timer.go:28-40 | as written, the X10 report ESC '[' 'M' Cb Cx Cy delivers Cb, Cx and Cy as keys |
| Reader.X10MouseReportDiscardedCorrected | timer.go:28-32 | with the intended decoder the whole X10 report is discarded |
| Reader.KeyboardReader.constructor | timer.go:114-116 | the reader starts with nothing accumulated, no timer and an empty channel |
| Reader.KeyboardReader.HandleByte | timer.go:141-162 | the new state is OnByte of the old |
| Reader.KeyboardReader.HandleTimeout | timer.go:163-173 | the new state is OnTimeout of the old |
| Reader.KeyboardReader.HandleStop | timer.go:174-178 | the new state is OnStop of the old |
| Reader.KeyboardReader.TakeKey | timer.go:249 | returns and removes the oldest key as Receive does |
| Reader.KeyboardReader.RunEvents | timer.go:117-180 | the loop over events ends in Run of the starting state |
| Terminal.MoveCursor | terminal.go:26-28 | ESC '[' row ';' col 'H' (no ensures; specified by MoveCursorRoundTrip) |
| Terminal.MoveCursorRoundTrip | terminal.go:26-28 | the cursor sequence is ESC '[' row ';' col 'H', and row and column read back from it |
| Terminal.FixNewlines | terminal.go:31-33 | the output is one character longer per newline, and every newline in it follows a carriage return |
| Terminal.FixNewlinesRoundTrip | terminal.go:31-33 | removing the carriage return before each newline gives the input back |
| Terminal.FixNewlinesIdentity | terminal.go:31-33 | text without newlines is unchanged |
| Terminal.TerminalSize | terminal.go:54-78 | the reported (columns, rows) when the query succeeded with non-zero sizes, otherwise 80 by 24; always positive |
| Text.Join | display.go:52 | strings.Join (no ensures; specified by SplitJoin and JoinSnoc) |
| Text.Split | display.go:56 | strings.Split on one character never yields an empty list |
| Text.Repeat | display.go:81 | strings.Repeat of one character: exactly n copies of it |
| Text.Decimal | terminal.go:27 | %d of an int (no ensures; specified by DecimalRoundTrip) |
| Text.TruncDiv | display.go:59 | Go's integer division of an int by a positive int (no ensures; specified by TruncDivTowardZero) |
| Text.TruncDivTowardZero | display.go:59 | the quotient truncated toward zero: for a non-negative dividend the largest multiple of the divisor not above it, for a negative one the smallest not below it |
| Text.Pad2 | display.go:18 | %02d: at least two digits, exactly two below 100 |
| Text.DecimalRoundTrip | terminal.go:27 | %d reads back as the same integer |
| Text.SplitJoin | display.go:52 | splitting rows joined by a separator they do not contain gives the rows back |
| Text.CountSplit | display.go:56 | strings.Split gives one piece more than the separators in the string |
| Display.FormatHMS | display.go:9-21 | formatHMS (no ensures; specified by FormatHMSNegative, FormatHMSShape, FormatHMSFields, FormatHMSRoundTrip and FormatHMSMonotone) |
| Display.RoundSeconds | display.go:13 | rounding to the nearest second: the result is within half a second of the duration |
| Display.RoundsHalfUp | display.go:13 | an exact half second rounds up, less than half rounds down |
| Display.RoundSecondsMonotone | display.go:13 | rounding keeps the order of durations |
| Display.FormatHMSNegative | display.go:10-12 | a negative duration shows as "00:00" |
| Display.FieldDecomposition | display.go:14-16 | h*3600 + m*60 + s is the total, with m and s below 60 |
| Display.FormatHMSShape | display.go:17-20 | MM:SS (length 5) below an hour, HH:MM:SS (length 8) from one to 100 hours, colons in place and digits elsewhere |
| Display.FormatHMSFields | display.go:13-20 | the clock string splits at its colons into exactly the %02d fields: minutes and seconds below an hour; hours, minutes within the hour and seconds within the minute from an hour on; each field reads back as that quantity |
| Display.ParseTwoFields | display.go:20 | "%02d:%02d" reads back as m*60+s |
| Display.ParseThreeFields | display.go:18 | "%02d:%02d:%02d" reads back as (h*60+m)*60+s |
| Display.FormatHMSRoundTrip | display.go:9-21 | the clock string read back is the duration's rounded whole seconds (0 for negatives) |
| Display.FormatHMSMonotone | display.go:9-21 | a longer duration never shows a smaller time |
| Display.TooSmall | display.go:24-30 | the fit test on len*(8+1)-1 plus 4 columns and 7+2 rows (no ensures; used by BigTime and BigTimeRows) |
| Display.BigTime | display.go:23-53 | renderBigTime as a value (no ensures; specified by BigTimeRows and BigRowWidth, and the loop RenderBigTime is proved equal to it) |
| Display.Glyph | display.go:40-43 | a character's own glyph, or the blank one when it has none; always 7 rows |
| Display.Cells | display.go:39-48 | row r of each character's glyph, in order |
| Display.BigRows | display.go:33-50 | exactly 7 rows, row r being the cells joined with two spaces |
| Display.RenderRow | display.go:35-49 | the builder loop produces the cells joined with two spaces and none after the last |
| Display.RenderBigTime | display.go:23-53 | the text itself when the window is too small, else the 7 rows joined by newlines |
| Display.BigTimeRows | display.go:33-52 | drawn big text splits into exactly its 7 rows |
| Display.BigRowWidth | display.go:24-47 | with 8-column glyphs a row of n characters is 10n-2 columns wide |
| Display.Offset | display.go:59-62 | half the free space rounded toward zero, and 0 when there is none |
| Display.PaddedLines | display.go:75-84 | each line in order, behind its centring spaces |
| Display.Centered | display.go:55-87 | centerText as a value (no ensures; specified by CenteredLayout, and the loops CenterText are proved equal to it) |
| Display.CenterText | display.go:55-87 | the builder loops produce the vertical padding and then each padded line with a newline |
| Display.CenteredLayout | display.go:55-87 | the output splits into the blank padding lines, each input line unchanged behind its padding, and a final empty piece; it ends in a newline and holds padding-plus-lines newlines |
| TimerLoop.TickInterval | timer.go:54-66 | 100 ms below a minute (counters included), 500 ms below ten minutes, 1 s beyond; always one of the three |
| TimerLoop.TickIntervalMonotone | timer.go:54-66 | a longer duration never gets a faster tick |
| TimerLoop.TickResolution | timer.go:54-66 | no tick exceeds a second, and a countdown of a minute or more gets at least 120 ticks |
| TimerLoop.Elapsed | timer.go:307-310 | the effective elapsed time (no ensures; specified by ElapsedBounds, ElapsedFrozenWhilePaused and PauseResume) |
| TimerLoop.SecondsOf | timer.go:318 | int64(d.Seconds()): the whole seconds of d truncated toward zero, each side of zero |
| TimerLoop.EndSession | timer.go:231-246 | the summary spans from the start to the event, its duration is the effective elapsed time, and its mode is counter exactly for duration 0 |
| TimerLoop.ChooseColor | timer.go:353-362 | blue exactly while paused; red exactly when running in a countdown under five minutes; a counter is never red |
| TimerLoop.ScreenRecoversFrame | timer.go:390-392 | the full-screen print is a clear and a cursor move home, then the cached frame with carriage returns added |
| TimerLoop.RenderFrame | timer.go:364-388 | the frame built through the renderBigTime and centerText methods equals the Frame function |
| TimerLoop.Frame | timer.go:364-387 | the cached frame, full-screen centred big text or inline, coloured or not (no ensures; RenderFrame is proved equal to it) |
| TimerLoop.Screen | timer.go:390-395 | what printing the cached frame writes (no ensures; specified by ScreenRecoversFrame) |
| TimerLoop.Init | timer.go:183-220 | the state before the loop and its initial print (no ensures; specified by InitValid) |
| TimerLoop.Step | timer.go:222-303 | one iteration of the select loop (no ensures; specified by StepValid, EndsOnlyBy, QuitKeys, OtherKeysIgnored, Signals, SpaceTogglesPause and ReturnedStaysReturned) |
| TimerLoop.OnTick | timer.go:305-396 | the ticker case (no ensures; specified by TickFinishes, TickRenders, SameSecondReusesFrame and ShownSecondNotMarker) |
| TimerLoop.Run | timer.go:222-397 | the loop over a sequence of events with all it prints (no ensures; specified by RunValid, SummaryDurationBounded and CounterNeverFinishes, and TimerSession.RunEvents is proved equal to it) |
| TimerLoop.InitValid | timer.go:183-220 | the loop starts at `now`, unpaused, with no paused time and no outcome, satisfying the invariant; its cached frame shows the full duration (00:00 for a counter) uncoloured, that second is recorded as last rendered, and the frame is printed |
| TimerLoop.ElapsedBounds | timer.go:307-310 | effective elapsed time is non-negative, never decreases, and never exceeds the wall-clock time since the start |
| TimerLoop.StepValid | timer.go:222-397 | every event handled in time order keeps the invariant |
| TimerLoop.RunValid | timer.go:222-397 | every state the loop reaches over events in time order satisfies the invariant |
| TimerLoop.SummaryDurationBounded | timer.go:231-246 | any summary the loop sends has an effective duration between 0 and its end minus its start |
| TimerLoop.ReturnedStaysReturned | timer.go:247 | once the loop has returned, no event changes anything or prints anything |
| TimerLoop.QuitKeys | timer.go:265-302 | q, Q, ESC and Ctrl-C end the session unfinished with the effective duration; only the first three print the quitting message |
| TimerLoop.OtherKeysIgnored | timer.go:249-303 | any other key except space changes nothing and prints nothing |
| TimerLoop.Signals | timer.go:224-247 | a window change only forces a re-render; any other signal ends the session unfinished; neither prints |
| TimerLoop.TickFinishes | timer.go:320-341 | a tick ends the session exactly when a countdown's elapsed time has reached its duration, then as finished in timer mode, printing the finished message |
| TimerLoop.EndsOnlyBy | timer.go:224-341 | a running session ends on an event exactly when it is q, Q, ESC or Ctrl-C, a signal other than a window change, or a tick at which a countdown has reached its duration; nothing else returns |
| TimerLoop.CounterNeverFinishes | timer.go:315-319 | a counter never ends as finished, whatever the events |
| TimerLoop.SpaceTogglesPause | timer.go:252-263 | space flips the pause, pausing records the instant, resuming adds the pause to the total (never decreasing it), both force a re-render; the session goes on, nothing is printed, the start and the cached frame are kept, and the elapsed time is unchanged |
| TimerLoop.TotalPausedNeverDecreases | timer.go:252-263 | over any events in time order the paused total never decreases |
| TimerLoop.ElapsedFrozenWhilePaused | timer.go:307-310 | while paused the elapsed time stands still |
| TimerLoop.PauseResume | timer.go:252-263 | pausing at t1 and resuming at t2 takes exactly t2 - t1 off the elapsed time |
| TimerLoop.TickRenders | timer.go:345-396 | a tick that goes on re-renders exactly when the shown second changed or a re-render was forced, records that second, changes nothing but the render cache (so the start, the pause state and the elapsed time are kept), and prints the cached frame |
| TimerLoop.ShownSecondNotMarker | timer.go:315-346 | the shown second is never -1, so the forced-render marker cannot be a shown second |
| TimerLoop.SameSecondReusesFrame | timer.go:346-395 | a later tick in the same shown second reuses the frame and prints the same screen, even after a resize |
| TimerLoop.WindowChangeRerenders | timer.go:225-229 | after a window change the next tick renders afresh at the size then reported |
| TimerLoop.PausedFrameIsBlue | timer.go:252-263 | after pausing, the next tick renders the paused time in blue |
| TimerLoop.TimerSession.constructor | timer.go:183-220 | the fields and the output are those of Init: the full duration (00:00 for a counter) rendered uncoloured, cached and printed |
| TimerLoop.TimerSession.ElapsedAt | timer.go:307-310 | computes the effective elapsed time of the current state |
| TimerLoop.TimerSession.HandleKey | timer.go:249-303 | the new state and the appended output are those of Step on the key |
| TimerLoop.TimerSession.HandleSignal | timer.go:224-247 | the new state and the appended output are those of Step on the signal |
| TimerLoop.TimerSession.HandleTick | timer.go:305-396 | the new state and the appended output are those of Step on the tick |
| TimerLoop.TimerSession.RunEvents | timer.go:222-397 | the loop over events ends in Run's state and has appended all Run prints |

## Left out

- Goroutines, channels and `select` (timer.go:73-74, 104-181) are not modelled as concurrency. They become sequences of events. The caller picks which channel is ready, so any interleaving can be expressed, but the model does not constrain it.
- The `quitCh` branches of the reader's sends (timer.go:151-152, 167-168) are not modelled separately. Both are covered by the `Stop` event.
- A read that returns zero bytes is not modelled. The goroutine sends an empty slice and then indexes `data[0]` (timer.go:128-141), which panics in Go; every `Byte` event carries exactly one byte. The read error case (timer.go:122-124, 134-139) is the `Stop` event.
- The 50 ms ESC timer is not modelled as time. Its firing is the `Timeout` event, which only has an effect while the timer is armed.
- The wall clock is not modelled: instants are event parameters. The source calls `time.Now` several times per event; the model uses one instant per event.
- Ticker timing is not enforced: `TickInterval` chooses the period, but when `Tick` events arrive is up to the caller.
- SecondsOf: `Duration.Seconds()` is float64. Large durations round in float arithmetic; the model truncates the exact value toward zero. Durations are unbounded integers, so int64 overflow is not modelled either.
- Set-up and tear-down output are not modelled: alternate screen, hidden cursor, mouse tracking, and the deferred restores (timer.go:77-101). Raw-mode set-up (`setupTerminal`, `restoreTerminal`) and its failure are left out too. All of these are foreign terminal calls.
- The `TIOCGWINSZ` call itself is not modelled. Its result is the `Winsize` carried by each tick and by the initial render.
- `notify-send` (timer.go:337-339) is not modelled because it runs an external process.
- The glyph table is not part of this model. It is a parameter, required to have a blank glyph and exactly 7 rows per glyph.
- Non-ASCII text is not distinguished. `renderBigTime` compares a byte index with the byte length, and `centerText` counts runes. The model indexes characters, which agrees for the ASCII strings `formatHMS` produces.
- The summary's name field and the start-paused option are not modelled. main.go passes them to `runTimer`, but the `runTimer` shown takes neither.
- utils.go's session file, float duration formatting and argument helpers are not modelled: they are file I/O, JSON and float parsing. main.go's flag handling is not modelled either.
- The `pauseStart` value before the first pause is not modelled faithfully. It is Go's zero `time.Time`; its value is never read, so the model uses 0.

## Findings

| source | as written | input that shows it | evidently intended | confidence | as-written member | corrected member |
|---|---|---|---|---|---|---|
| timer.go:33-40 | an `ESC [` sequence returns "wait" unless its last byte is `m` or `M`, so the generic final-byte rule at timer.go:43-45 never ends an arrow key | Up arrow then `q`: bytes 1b 5b 41 71 deliver no key, and the quit is lost (everything after such a sequence is swallowed until an `m` or `M` arrives) | an `ESC [` sequence ends at its final byte (0x40 to 0x7E), as the comment at timer.go:42 says | high (proved; not executed) | Reader.ArrowKeySwallowsQuitAsWritten | Reader.ArrowKeyThenKeyCorrected |
| timer.go:28-40 | `ESC [ M` counts as complete at three bytes because its last byte is `M` | an X10 mouse press, enabled by the 1000h mode: 1b 5b 4d 20 xx yy delivers 0x20 (space, which toggles pause) and the two coordinate bytes as keys | the six-byte X10 report is discarded whole, as "for M it's 6 bytes" (timer.go:29) intends | high for the leak (proved; not executed) | Reader.X10MouseReportLeaksAsWritten | Reader.X10MouseReportDiscardedCorrected |
