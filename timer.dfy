/** The event loop of runTimer (timer.go): the pause state, the cached frame
    and the end of the session, driven by keys, signals and ticker ticks.
    Each event carries the instant (in nanoseconds) at which it is handled;
    a tick also carries what the window-size query would report then. */
module TimerLoop {
  import opened Wrappers
  import opened Config
  import opened Text
  import opened Input
  import opened Terminal
  import opened Display

  const SPACE: byte := 0x20
  const LOWER_Q: byte := 0x71   // 'q'
  const UPPER_Q: byte := 0x51   // 'Q'
  const CTRL_C: byte := 0x03

  const QUITTING: string := "\r\nquitting...\r\n"
  const FINISHED: string := "\r\nfinished!\r\n"

  // ----------------------------------------------------------- ticker interval

  /** getTickerInterval: fast ticks for counters and countdowns under a minute,
      medium ones under ten minutes, one per second beyond. */
  function TickInterval(duration: int): (t: int)
    ensures t == TICK_FAST || t == TICK_MEDIUM || t == TICK_SLOW
    ensures duration < MINUTE ==> t == TICK_FAST
    ensures MINUTE <= duration < 10 * MINUTE ==> t == TICK_MEDIUM
    ensures 10 * MINUTE <= duration ==> t == TICK_SLOW
  {
    if duration == 0 then TICK_FAST
    else if duration < MINUTE then TICK_FAST
    else if duration < 10 * MINUTE then TICK_MEDIUM
    else TICK_SLOW
  }

  /** A longer countdown never ticks faster than a shorter one. */
  lemma TickIntervalMonotone(d1: int, d2: int)
    requires d1 <= d2
    ensures TickInterval(d1) <= TickInterval(d2)
  {
  }

  /** A countdown of a minute or more gets at least 120 ticks, and no interval
      exceeds a second, so the shown second is refreshed every second. */
  lemma TickResolution(duration: int)
    ensures TickInterval(duration) <= SECOND
    ensures duration >= MINUTE ==> 120 * TickInterval(duration) <= duration
  {
  }

  // ----------------------------------------------------------------- the data

  datatype Mode = TimerMode | CounterMode

  /** TimerSummary as runTimer fills it in (the optional name is not part of
      this model). */
  datatype Summary = Summary(start: int, end: int, duration: int, mode: Mode, finished: bool)

  datatype Signal = Interrupt | Terminate | WindowChange

  datatype Event =
    | Key(key: byte, now: int)
    | SignalEvent(sig: Signal, now: int)
    | Tick(now: int, ws: Winsize)
  {
    function Time(): int
    {
      match this
      case Key(_, t) => t
      case SignalEvent(_, t) => t
      case Tick(t, _) => t
    }
  }

  datatype Color = NoColor | Blue | Red

  /** runTimer's arguments, with the glyph table the renderer draws from. */
  datatype Session = Session(duration: int, fullscreen: bool, glyphs: map<char, seq<string>>)
  {
    /** A duration of 0 selects counter mode. */
    predicate IsCounter() { duration == 0 }

    function SummaryMode(): Mode { if IsCounter() then CounterMode else TimerMode }
  }

  /** The loop's local variables; `outcome` is the summary sent when the loop
      returned, after which no further event is handled. */
  datatype LoopState = LoopState(
    start: int,
    paused: bool,
    pauseStart: int,
    totalPaused: int,
    lastRenderedSec: int,
    cached: string,
    outcome: Option<Summary>)

  /** What one event does: the new state and what it prints. */
  datatype Reaction = Reaction(next: LoopState, printed: string)

  // ------------------------------------------------------------- time keeping

  /** The effective elapsed time at `now`: time since the start, less the
      closed pauses and the pause in progress. */
  function Elapsed(st: LoopState, now: int): int
  {
    now - st.start - st.totalPaused - (if st.paused then now - st.pauseStart else 0)
  }

  /** int64(d.Seconds()): whole seconds, truncated toward zero. */
  function SecondsOf(d: int): (r: int)
    ensures d >= 0 ==> 0 <= r && r * SECOND <= d < (r + 1) * SECOND
    ensures d < 0 ==> r <= 0 && (r - 1) * SECOND < d <= r * SECOND
  {
    TruncDiv(d, SECOND)
  }

  /** The summary of a session ending at `now`. */
  function EndSession(s: Session, st: LoopState, now: int, finished: bool): (sum: Summary)
    ensures sum.start == st.start && sum.end == now && sum.finished == finished
    ensures sum.duration == Elapsed(st, now)
    ensures sum.mode == CounterMode <==> s.duration == 0
  {
    Summary(st.start, now, Elapsed(st, now), s.SummaryMode(), finished)
  }

  // ---------------------------------------------------------------- rendering

  /** The colour of a frame: blue while paused, otherwise red in the last five
      minutes of a countdown, otherwise none. */
  function ChooseColor(s: Session, paused: bool, displayTime: int): (c: Color)
    ensures c == Blue <==> paused
    ensures c == Red <==> !paused && !s.IsCounter() && displayTime < WARNING_THRESHOLD
    ensures s.IsCounter() ==> c != Red
  {
    if paused then Blue
    else if !s.IsCounter() && displayTime < WARNING_THRESHOLD then Red
    else NoColor
  }

  function ColorCode(c: Color): string
  {
    match c
    case NoColor => ""
    case Blue => BLUE_COLOR
    case Red => RED_COLOR
  }

  /** The frame cached for a time string: the centred big text in full-screen
      mode, "\r" + text + three spaces inline; a colour wraps the text in its
      escape code and a reset. */
  function Frame(s: Session, timeStr: string, c: Color, ws: Winsize): string
    requires GlyphTable(s.glyphs)
  {
    if s.fullscreen then
      var size := TerminalSize(ws);
      var centered := Centered(BigTime(s.glyphs, timeStr, size.0, size.1), size.0, size.1);
      if c != NoColor then ColorCode(c) + centered + RESET_STYLE else centered
    else if c != NoColor then "\r" + ColorCode(c) + timeStr + RESET_STYLE + "   "
    else "\r" + timeStr + "   "
  }

  /** What printing a cached frame writes: in full-screen mode a clear, a
      cursor move home and the frame with raw-mode newlines. */
  function Screen(s: Session, cached: string): string
  {
    if s.fullscreen then CLEAR_SCREEN + MoveCursor(1, 1) + FixNewlines(cached) else cached
  }

  /** The full-screen output loses nothing: after the clear and the cursor move
      it is the frame itself, with a carriage return before each newline. */
  lemma ScreenRecoversFrame(s: Session, cached: string)
    requires s.fullscreen
    ensures var out, home := Screen(s, cached), CLEAR_SCREEN + MoveCursor(1, 1);
      && |out| >= |home| && out[..|home|] == home
      && StripCarriageReturns(out[|home|..]) == cached
  {
    var home := CLEAR_SCREEN + MoveCursor(1, 1);
    var out := home + FixNewlines(cached);
    assert out[..|home|] == home;
    assert out[|home|..] == FixNewlines(cached);
    FixNewlinesRoundTrip(cached);
  }

  /** The frame methods build: renderBigTime and centerText run as methods. */
  method RenderFrame(s: Session, timeStr: string, c: Color, ws: Winsize) returns (f: string)
    requires GlyphTable(s.glyphs)
    ensures f == Frame(s, timeStr, c, ws)
  {
    if s.fullscreen {
      var size := TerminalSize(ws);
      var bigText := RenderBigTime(s.glyphs, timeStr, size.0, size.1);
      var centered := CenterText(bigText, size.0, size.1);
      if c != NoColor {
        f := ColorCode(c) + centered + RESET_STYLE;
      } else {
        f := centered;
      }
    } else if c != NoColor {
      f := "\r" + ColorCode(c) + timeStr + RESET_STYLE + "   ";
    } else {
      f := "\r" + timeStr + "   ";
    }
  }

  // --------------------------------------------------------------- the loop

  /** The state before the loop: the initial frame (the full duration, or
      00:00 for a counter, uncoloured) cached and printed. */
  function Init(s: Session, now: int, ws: Winsize): Reaction
    requires GlyphTable(s.glyphs)
  {
    var initial := if s.IsCounter() then 0 else s.duration;
    var cached := Frame(s, FormatHMS(initial), NoColor, ws);
    Reaction(LoopState(now, false, 0, 0, SecondsOf(initial), cached, None), Screen(s, cached))
  }

  /** One event of the select loop. */
  function Step(s: Session, st: LoopState, ev: Event): Reaction
    requires GlyphTable(s.glyphs)
  {
    if st.outcome.Some? then Reaction(st, "")
    else
      match ev
      case SignalEvent(sig, now) =>
        if sig == WindowChange then Reaction(st.(lastRenderedSec := -1), "")
        else Reaction(st.(outcome := Some(EndSession(s, st, now, false))), "")
      case Key(k, now) =>
        if k == SPACE then
          if st.paused then
            Reaction(st.(totalPaused := st.totalPaused + (now - st.pauseStart), paused := false, lastRenderedSec := -1), "")
          else
            Reaction(st.(paused := true, pauseStart := now, lastRenderedSec := -1), "")
        else if k == LOWER_Q || k == UPPER_Q || k == ESC then
          Reaction(st.(outcome := Some(EndSession(s, st, now, false))), QUITTING)
        else if k == CTRL_C then
          Reaction(st.(outcome := Some(EndSession(s, st, now, false))), "")
        else Reaction(st, "")
      case Tick(now, ws) => OnTick(s, st, now, ws)
  }

  /** A tick: finish a countdown that has run out, otherwise re-render when the
      shown second changed or a re-render was forced, and print the frame. */
  function OnTick(s: Session, st: LoopState, now: int, ws: Winsize): Reaction
    requires GlyphTable(s.glyphs)
  {
    var elapsed := Elapsed(st, now);
    if !s.IsCounter() && elapsed >= s.duration then
      Reaction(st.(outcome := Some(EndSession(s, st, now, true))), FINISHED)
    else
      var displayTime := if s.IsCounter() then elapsed else s.duration - elapsed;
      var currentSec := SecondsOf(displayTime);
      var next :=
        if currentSec != st.lastRenderedSec || st.lastRenderedSec == -1 then
          st.(lastRenderedSec := currentSec,
              cached := Frame(s, FormatHMS(displayTime), ChooseColor(s, st.paused, displayTime), ws))
        else st;
      Reaction(next, Screen(s, next.cached))
  }

  /** The loop over a sequence of events: the last state and all that was
      printed, in order. */
  function Run(s: Session, st: LoopState, evs: seq<Event>): Reaction
    requires GlyphTable(s.glyphs)
    decreases |evs|
  {
    if |evs| == 0 then Reaction(st, "")
    else
      var first := Step(s, st, evs[0]);
      var rest := Run(s, first.next, evs[1..]);
      Reaction(rest.next, first.printed + rest.printed)
  }

  /** Run takes the first event, then runs the rest from where it left off. */
  lemma RunFirst(s: Session, st: LoopState, evs: seq<Event>)
    requires GlyphTable(s.glyphs) && |evs| > 0
    ensures var first := Step(s, st, evs[0]);
      var rest := Run(s, first.next, evs[1..]);
      Run(s, st, evs) == Reaction(rest.next, first.printed + rest.printed)
  {
  }

  // --------------------------------------------------------------- invariants

  /** Events arrive in time order, none before `t`. */
  predicate Chronological(evs: seq<Event>, t: int)
    decreases |evs|
  {
    |evs| == 0 || (t <= evs[0].Time() && Chronological(evs[1..], evs[0].Time()))
  }

  /** The time of the last of the events, or `t` when there are none. */
  function Latest(evs: seq<Event>, t: int): int
    decreases |evs|
  {
    if |evs| == 0 then t else Latest(evs[1..], evs[0].Time())
  }

  /** The loop's invariant, at the time `t` of the latest event: time does not
      run backwards, the paused total is non-negative, the elapsed time is
      non-negative, and a summary covers no more than its own wall-clock span. */
  predicate Valid(st: LoopState, t: int)
  {
    && st.start <= t
    && st.totalPaused >= 0
    && (st.paused ==> st.start <= st.pauseStart <= t)
    && Elapsed(st, t) >= 0
    && (st.outcome.Some? ==>
          var sum := st.outcome.value;
          sum.start == st.start && 0 <= sum.duration <= sum.end - sum.start)
  }

  /** Elapsed time never decreases and never exceeds the wall-clock time
      since the start. */
  lemma ElapsedBounds(st: LoopState, t1: int, t2: int)
    requires Valid(st, t1) && t1 <= t2
    ensures 0 <= Elapsed(st, t1) <= Elapsed(st, t2) <= t2 - st.start
  {
  }

  lemma InitValid(s: Session, now: int, ws: Winsize)
    requires GlyphTable(s.glyphs)
    ensures Valid(Init(s, now, ws).next, now)
    ensures Init(s, now, ws).next.outcome == None
    // the loop starts running at `now`, unpaused, with no paused time
    ensures var n := Init(s, now, ws).next;
      n.start == now && !n.paused && n.totalPaused == 0
    // and prints the uncoloured frame it has cached
    ensures Init(s, now, ws).printed == Screen(s, Init(s, now, ws).next.cached)
    // that frame shows the full duration (00:00 for a counter), uncoloured,
    // and its second is the one recorded as last rendered
    ensures var n, i := Init(s, now, ws).next, (if s.IsCounter() then 0 else s.duration);
      n.cached == Frame(s, FormatHMS(i), NoColor, ws) && n.lastRenderedSec == SecondsOf(i)
  {
  }

  lemma StepValid(s: Session, st: LoopState, t: int, ev: Event)
    requires GlyphTable(s.glyphs)
    requires Valid(st, t) && t <= ev.Time()
    ensures Valid(Step(s, st, ev).next, ev.Time())
  {
    if st.outcome.None? {
      ElapsedBounds(st, t, ev.Time());
    }
  }

  /** Every state the loop reaches satisfies the invariant. */
  lemma {:induction false} RunValid(s: Session, st: LoopState, t: int, evs: seq<Event>)
    requires GlyphTable(s.glyphs)
    requires Valid(st, t) && Chronological(evs, t)
    ensures Valid(Run(s, st, evs).next, Latest(evs, t))
    decreases |evs|
  {
    if |evs| > 0 {
      StepValid(s, st, t, evs[0]);
      RunValid(s, Step(s, st, evs[0]).next, evs[0].Time(), evs[1..]);
    }
  }

  /** Whatever the events, a summary the loop sends reports an effective
      duration between zero and the session's wall-clock length. */
  lemma SummaryDurationBounded(s: Session, now: int, ws: Winsize, evs: seq<Event>)
    requires GlyphTable(s.glyphs)
    requires Chronological(evs, now)
    ensures var st := Run(s, Init(s, now, ws).next, evs).next;
      st.outcome.Some? ==> 0 <= st.outcome.value.duration <= st.outcome.value.end - st.outcome.value.start
  {
    InitValid(s, now, ws);
    RunValid(s, Init(s, now, ws).next, now, evs);
  }

  // -------------------------------------------------------------- termination

  /** Once the loop has returned, nothing more happens and nothing is printed. */
  lemma {:induction false} ReturnedStaysReturned(s: Session, st: LoopState, evs: seq<Event>)
    requires GlyphTable(s.glyphs)
    requires st.outcome.Some?
    ensures Run(s, st, evs) == Reaction(st, "")
    decreases |evs|
  {
    if |evs| > 0 {
      ReturnedStaysReturned(s, st, evs[1..]);
    }
  }

  /** q, Q, ESC and Ctrl-C end the session as not finished; only the first
      three print the quitting message. */
  lemma QuitKeys(s: Session, st: LoopState, k: byte, now: int)
    requires GlyphTable(s.glyphs) && st.outcome.None?
    requires k == LOWER_Q || k == UPPER_Q || k == ESC || k == CTRL_C
    ensures var r := Step(s, st, Key(k, now));
      && r.next == st.(outcome := Some(Summary(st.start, now, Elapsed(st, now), s.SummaryMode(), false)))
      && r.printed == (if k == CTRL_C then "" else QUITTING)
  {
  }

  /** Every key other than space and the quit keys is ignored. */
  lemma OtherKeysIgnored(s: Session, st: LoopState, k: byte, now: int)
    requires GlyphTable(s.glyphs)
    requires k != SPACE && k != LOWER_Q && k != UPPER_Q && k != ESC && k != CTRL_C
    ensures Step(s, st, Key(k, now)) == Reaction(st, "")
  {
  }

  /** A window change only forces the next tick to re-render; any other
      signal ends the session as not finished. */
  lemma Signals(s: Session, st: LoopState, sig: Signal, now: int)
    requires GlyphTable(s.glyphs) && st.outcome.None?
    ensures var r := Step(s, st, SignalEvent(sig, now));
      && r.printed == ""
      && (sig == WindowChange ==> r.next == st.(lastRenderedSec := -1))
      && (sig != WindowChange ==>
            r.next == st.(outcome := Some(Summary(st.start, now, Elapsed(st, now), s.SummaryMode(), false))))
  {
  }

  /** A tick ends the session exactly when a countdown's elapsed time has
      reached its duration, and then as finished, in timer mode. */
  lemma TickFinishes(s: Session, st: LoopState, now: int, ws: Winsize)
    requires GlyphTable(s.glyphs) && st.outcome.None?
    ensures var r := Step(s, st, Tick(now, ws));
      && (r.next.outcome.Some? <==> !s.IsCounter() && Elapsed(st, now) >= s.duration)
      && (r.next.outcome.Some? ==>
            r.next.outcome.value == Summary(st.start, now, Elapsed(st, now), TimerMode, true)
            && r.printed == FINISHED)
  {
  }

  /** A counter never ends as finished, whatever the events. */
  lemma {:induction false} CounterNeverFinishes(s: Session, st: LoopState, evs: seq<Event>)
    requires GlyphTable(s.glyphs) && s.IsCounter()
    requires st.outcome.Some? ==> !st.outcome.value.finished
    ensures var end := Run(s, st, evs).next;
      end.outcome.Some? ==> !end.outcome.value.finished
    decreases |evs|
  {
    if |evs| > 0 {
      CounterNeverFinishes(s, Step(s, st, evs[0]).next, evs[1..]);
    }
  }

  /** A running session ends on exactly three kinds of event: a quit key, a
      signal other than a window change, and a tick at which a countdown has
      run out. Nothing else returns from the loop. */
  lemma EndsOnlyBy(s: Session, st: LoopState, ev: Event)
    requires GlyphTable(s.glyphs) && st.outcome.None?
    ensures Step(s, st, ev).next.outcome.Some? <==>
      match ev
      case Key(k, _) => k == LOWER_Q || k == UPPER_Q || k == ESC || k == CTRL_C
      case SignalEvent(sig, _) => sig != WindowChange
      case Tick(now, _) => !s.IsCounter() && Elapsed(st, now) >= s.duration
  {
  }

  // -------------------------------------------------------------------- pause

  /** Space toggles the pause: pausing records the instant, resuming adds the
      pause's length to the total; both force a re-render. */
  lemma SpaceTogglesPause(s: Session, st: LoopState, t: int, now: int)
    requires GlyphTable(s.glyphs) && st.outcome.None?
    requires Valid(st, t) && t <= now
    ensures var n := Step(s, st, Key(SPACE, now)).next;
      && n.paused == !st.paused
      && n.lastRenderedSec == -1
      && n.totalPaused >= st.totalPaused
      && (!st.paused ==> n.pauseStart == now && n.totalPaused == st.totalPaused)
      && (st.paused ==> n.totalPaused == st.totalPaused + (now - st.pauseStart))
      && Elapsed(n, now) == Elapsed(st, now)
    // the session goes on, nothing is printed, and the start and frame are kept
    ensures var r := Step(s, st, Key(SPACE, now));
      && r.next.outcome.None? && r.printed == ""
      && r.next.start == st.start && r.next.cached == st.cached
  {
  }

  /** Over any events in time order, the paused total never decreases. */
  lemma {:induction false} TotalPausedNeverDecreases(s: Session, st: LoopState, t: int, evs: seq<Event>)
    requires GlyphTable(s.glyphs)
    requires Valid(st, t) && Chronological(evs, t)
    ensures Run(s, st, evs).next.totalPaused >= st.totalPaused
    decreases |evs|
  {
    if |evs| > 0 {
      StepValid(s, st, t, evs[0]);
      TotalPausedNeverDecreases(s, Step(s, st, evs[0]).next, evs[0].Time(), evs[1..]);
    }
  }

  /** While paused, the elapsed time stands still. */
  lemma ElapsedFrozenWhilePaused(st: LoopState, t1: int, t2: int)
    requires st.paused
    ensures Elapsed(st, t1) == Elapsed(st, t2)
  {
  }

  /** Pausing at t1 and resuming at t2 takes exactly t2 - t1 off the elapsed
      time from then on. */
  lemma PauseResume(s: Session, st: LoopState, t1: int, t2: int, t: int)
    requires GlyphTable(s.glyphs) && st.outcome.None? && !st.paused
    ensures var n := Step(s, Step(s, st, Key(SPACE, t1)).next, Key(SPACE, t2)).next;
      && !n.paused
      && Elapsed(n, t) == Elapsed(st, t) - (t2 - t1)
      && Elapsed(n, t2) == Elapsed(st, t1)
  {
  }

  // ------------------------------------------------------------ frame caching

  /** The time a tick shows, when the session goes on. */
  function DisplayTime(s: Session, st: LoopState, now: int): int
  {
    if s.IsCounter() then Elapsed(st, now) else s.duration - Elapsed(st, now)
  }

  /** A tick that does not end the session re-renders exactly when the shown
      second changed or a re-render was forced, records that second, and
      prints the (possibly reused) frame. */
  lemma TickRenders(s: Session, st: LoopState, now: int, ws: Winsize)
    requires GlyphTable(s.glyphs) && st.outcome.None?
    requires s.IsCounter() || Elapsed(st, now) < s.duration
    ensures var r, d := Step(s, st, Tick(now, ws)), DisplayTime(s, st, now);
      var sec := SecondsOf(d);
      && r.next.lastRenderedSec == sec
      && r.next.outcome.None?
      && r.next.paused == st.paused && r.next.totalPaused == st.totalPaused
      && (sec != st.lastRenderedSec || st.lastRenderedSec == -1 ==>
            r.next.cached == Frame(s, FormatHMS(d), ChooseColor(s, st.paused, d), ws))
      && (sec == st.lastRenderedSec && st.lastRenderedSec != -1 ==> r.next == st)
      && r.printed == Screen(s, r.next.cached)
    // only the render cache changes, so the elapsed time is untouched
    ensures var r := Step(s, st, Tick(now, ws));
      && r.next == st.(lastRenderedSec := r.next.lastRenderedSec, cached := r.next.cached)
      && Elapsed(r.next, now) == Elapsed(st, now)
  {
  }

  /** The shown second is never -1, so the forced-render marker cannot be
      mistaken for a shown second. */
  lemma ShownSecondNotMarker(s: Session, st: LoopState, t: int, now: int)
    requires Valid(st, t) && t <= now
    requires s.IsCounter() || Elapsed(st, now) < s.duration
    ensures SecondsOf(DisplayTime(s, st, now)) >= 0
  {
    ElapsedBounds(st, t, now);
  }

  /** Once a tick has rendered, a later tick in the same shown second reuses
      the cached frame unchanged, even if the window was resized meanwhile:
      it prints the same screen again. */
  lemma SameSecondReusesFrame(s: Session, st: LoopState, t: int, t1: int, ws1: Winsize, t2: int, ws2: Winsize)
    requires GlyphTable(s.glyphs) && st.outcome.None?
    requires Valid(st, t) && t <= t1 <= t2
    requires s.IsCounter() || Elapsed(st, t2) < s.duration
    requires SecondsOf(DisplayTime(s, st, t1)) == SecondsOf(DisplayTime(s, st, t2))
    ensures var r1 := Step(s, st, Tick(t1, ws1));
      Step(s, r1.next, Tick(t2, ws2)) == Reaction(r1.next, r1.printed)
  {
    ElapsedBounds(st, t, t1);
    ElapsedBounds(st, t1, t2);
    ShownSecondNotMarker(s, st, t, t1);
    var r1 := Step(s, st, Tick(t1, ws1));
    TickRenders(s, st, t1, ws1);
    var n := r1.next;
    assert n == st.(lastRenderedSec := n.lastRenderedSec, cached := n.cached);
    assert DisplayTime(s, n, t2) == DisplayTime(s, st, t2);
    TickRenders(s, n, t2, ws2);
  }

  /** After a window change the next tick that goes on renders afresh, at the
      window size it then reports. */
  lemma WindowChangeRerenders(s: Session, st: LoopState, t1: int, t2: int, ws: Winsize)
    requires GlyphTable(s.glyphs) && st.outcome.None?
    requires s.IsCounter() || Elapsed(st, t2) < s.duration
    ensures var n := Step(s, st, SignalEvent(WindowChange, t1)).next;
      var d := DisplayTime(s, st, t2);
      Step(s, n, Tick(t2, ws)).next.cached == Frame(s, FormatHMS(d), ChooseColor(s, st.paused, d), ws)
  {
    var n := Step(s, st, SignalEvent(WindowChange, t1)).next;
    assert n == st.(lastRenderedSec := -1);
    assert DisplayTime(s, n, t2) == DisplayTime(s, st, t2);
    TickRenders(s, n, t2, ws);
  }

  /** After a pause the next tick re-renders, and in blue. */
  lemma PausedFrameIsBlue(s: Session, st: LoopState, t1: int, t2: int, ws: Winsize)
    requires GlyphTable(s.glyphs) && st.outcome.None? && !st.paused
    requires s.IsCounter() || Elapsed(st, t1) < s.duration
    ensures var n := Step(s, st, Key(SPACE, t1)).next;
      var d := DisplayTime(s, st, t1);
      Step(s, n, Tick(t2, ws)).next.cached == Frame(s, FormatHMS(d), Blue, ws)
  {
    var n := Step(s, st, Key(SPACE, t1)).next;
    assert n == st.(paused := true, pauseStart := t1, lastRenderedSec := -1);
    assert DisplayTime(s, n, t2) == DisplayTime(s, st, t1);
    TickRenders(s, n, t2, ws);
  }

  // ----------------------------------------------------------- the object

  /** runTimer's loop as an object: its local variables as fields, and
      `output` for everything written to standard output so far. */
  class TimerSession {
    const session: Session
    var start: int
    var paused: bool
    var pauseStart: int
    var totalPaused: int
    var lastRenderedSec: int
    var cached: string
    var outcome: Option<Summary>
    var output: string

    function State(): LoopState
      reads this
    {
      LoopState(start, paused, pauseStart, totalPaused, lastRenderedSec, cached, outcome)
    }

    /** The set-up before the loop: the initial frame rendered and printed. */
    constructor (s: Session, now: int, ws: Winsize)
      requires GlyphTable(s.glyphs)
      ensures session == s
      ensures State() == Init(s, now, ws).next && output == Init(s, now, ws).printed
    {
      session := s;
      var initial := if s.IsCounter() then 0 else s.duration;
      var frame := RenderFrame(s, FormatHMS(initial), NoColor, ws);
      start, paused, pauseStart, totalPaused := now, false, 0, 0;
      lastRenderedSec := TruncDiv(initial, SECOND);
      cached := frame;
      outcome := None;
      if s.fullscreen {
        output := CLEAR_SCREEN + MoveCursor(1, 1) + FixNewlines(frame);
      } else {
        output := frame;
      }
    }

    /** The effective elapsed time at `now`. */
    method ElapsedAt(now: int) returns (e: int)
      ensures e == Elapsed(State(), now)
    {
      e := now - start - totalPaused;
      if paused {
        e := e - (now - pauseStart);
      }
    }

    method HandleKey(k: byte, now: int)
      requires GlyphTable(session.glyphs)
      modifies this
      ensures State() == Step(session, old(State()), Key(k, now)).next
      ensures output == old(output) + Step(session, old(State()), Key(k, now)).printed
    {
      if outcome.Some? {
        return;
      }
      if k == SPACE {
        if paused {
          totalPaused := totalPaused + (now - pauseStart);
          paused := false;
        } else {
          paused := true;
          pauseStart := now;
        }
        lastRenderedSec := -1;
      } else if k == LOWER_Q || k == UPPER_Q || k == ESC || k == CTRL_C {
        if k != CTRL_C {
          output := output + QUITTING;
        }
        var e := ElapsedAt(now);
        outcome := Some(Summary(start, now, e, session.SummaryMode(), false));
      }
    }

    method HandleSignal(sig: Signal, now: int)
      requires GlyphTable(session.glyphs)
      modifies this
      ensures State() == Step(session, old(State()), SignalEvent(sig, now)).next
      ensures output == old(output) + Step(session, old(State()), SignalEvent(sig, now)).printed
    {
      if outcome.Some? {
        return;
      }
      if sig == WindowChange {
        lastRenderedSec := -1;
        return;
      }
      var e := ElapsedAt(now);
      outcome := Some(Summary(start, now, e, session.SummaryMode(), false));
    }

    method HandleTick(now: int, ws: Winsize)
      requires GlyphTable(session.glyphs)
      modifies this
      ensures State() == Step(session, old(State()), Tick(now, ws)).next
      ensures output == old(output) + Step(session, old(State()), Tick(now, ws)).printed
    {
      if outcome.Some? {
        return;
      }
      var elapsed := ElapsedAt(now);
      var displayTime: int;
      if session.IsCounter() {
        displayTime := elapsed;
      } else {
        if elapsed >= session.duration {
          output := output + FINISHED;
          outcome := Some(Summary(start, now, elapsed, TimerMode, true));
          return;
        }
        displayTime := session.duration - elapsed;
      }
      var currentSec := TruncDiv(displayTime, SECOND);
      if currentSec != lastRenderedSec || lastRenderedSec == -1 {
        lastRenderedSec := currentSec;
        var frame := RenderFrame(session, FormatHMS(displayTime), ChooseColor(session, paused, displayTime), ws);
        cached := frame;
      }
      if session.fullscreen {
        output := output + (CLEAR_SCREEN + MoveCursor(1, 1) + FixNewlines(cached));
      } else {
        output := output + cached;
      }
    }

    /** The select loop over a sequence of events. */
    method RunEvents(evs: seq<Event>)
      requires GlyphTable(session.glyphs)
      modifies this
      ensures State() == Run(session, old(State()), evs).next
      ensures output == old(output) + Run(session, old(State()), evs).printed
    {
      var i := 0;
      while i < |evs|
        invariant 0 <= i <= |evs|
        invariant Run(session, State(), evs[i..]).next == Run(session, old(State()), evs).next
        invariant output + Run(session, State(), evs[i..]).printed == old(output) + Run(session, old(State()), evs).printed
        decreases |evs| - i
      {
        ghost var before, out0 := State(), output;
        match evs[i] {
          case Key(k, now) => HandleKey(k, now);
          case SignalEvent(sig, now) => HandleSignal(sig, now);
          case Tick(now, ws) => HandleTick(now, ws);
        }
        assert evs[i..][0] == evs[i] && evs[i..][1..] == evs[i + 1..];
        RunFirst(session, before, evs[i..]);
        i := i + 1;
      }
    }
  }
}
