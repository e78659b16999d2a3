/**
 * The loop that `run_countdown`, `run_pomodoro_session` and `run_stopwatch`
 * share (src/main.rs; the older copy's countdown and stopwatch loops are the
 * same with blinking off). Each pass polls for a key and ends on a quit key,
 * then reads the clock and ends when the time is up, and otherwise formats
 * the time, renders it and draws it centred through `stable_display`.
 *
 * Time is the number of milliseconds since the loop started, as read on each
 * pass; keys and the terminal size are inputs of each pass.
 */
module Session {
  import opened Wrappers
  import opened Text
  import opened TimeString
  import opened Digit
  import opened Config
  import opened Screen

  /** A key as crossterm reports it: a character key with the state of Ctrl, or any other key. */
  datatype Key = Char(c: char, ctrl: bool) | OtherKey

  /** What `event::read` returned: a key press, or another event (resize, mouse, focus, paste). */
  datatype Event = KeyPress(key: Key) | OtherEvent

  /** `q`, or `c` with Ctrl held. */
  predicate IsQuit(e: Event) {
    e.KeyPress? && e.key.Char? && (e.key.c == 'q' || (e.key.c == 'c' && e.key.ctrl))
  }

  /**
   * One pass of a run loop: the event the poll delivered, if any, the clock
   * read in milliseconds since the loop started, and the terminal size.
   */
  datatype Tick = Tick(event: Option<Event>, elapsedMs: nat, width: nat, height: nat)

  /** Which loop runs: a countdown or a Pomodoro session of so many seconds, or the stopwatch. */
  datatype Mode = Countdown(totalSecs: nat) | PomodoroSession(durationSecs: nat) | Stopwatch

  /** `now >= end_time`: the countdown and a session end; the stopwatch never does. */
  predicate Ended(mode: Mode, elapsedMs: nat) {
    match mode
    case Countdown(total) => elapsedMs >= total * 1000
    case PomodoroSession(duration) => elapsedMs >= duration * 1000
    case Stopwatch => false
  }

  /** Whole seconds left, `(end_time - now).as_secs()`. */
  function RemainingSecs(totalSecs: nat, elapsedMs: nat): (r: nat)
    requires elapsedMs < totalSecs * 1000
    ensures r <= totalSecs
    ensures r * 1000 <= totalSecs * 1000 - elapsedMs < r * 1000 + 1000
  {
    (totalSecs * 1000 - elapsedMs) / 1000
  }

  /** The formatted time of a pass that draws: remaining time for the timers, elapsed time for the stopwatch. */
  function DisplayText(mode: Mode, elapsedMs: nat): string
    requires !Ended(mode, elapsedMs)
  {
    match mode
    case Countdown(total) => CountdownText(RemainingSecs(total, elapsedMs))
    case PomodoroSession(duration) => PomodoroText(RemainingSecs(duration, elapsedMs))
    case Stopwatch => StopwatchText(elapsedMs)
  }

  /** What a pass does: end on a quit key, end when the time is up, or draw a text. */
  datatype Step = Quit | Expired | Draw(text: string)

  /** One pass, in the order the loop tests: the key first, then the clock. */
  function StepOf(mode: Mode, blink: bool, t: Tick): Step {
    if t.event.Some? && IsQuit(t.event.value) then Quit
    else if Ended(mode, t.elapsedMs) then Expired
    else Draw(WithBlink(blink, t.elapsedMs, DisplayText(mode, t.elapsedMs)))
  }

  /**
   * The centring subtraction `(term - size) / 2` is on `u16` and not
   * saturating: the loop is modelled only where the frame fits the terminal.
   */
  predicate Fits(mode: Mode, blink: bool, t: Tick) {
    var s := StepOf(mode, blink, t);
    s.Draw? ==> 5 * |s.text| <= t.width && 5 <= t.height
  }

  /** `(term - size) / 2`, where the frame fits; `Run` draws only frames that do. */
  function Centre(term: nat, size: nat): nat {
    if size <= term then (term - size) / 2 else 0
  }

  /** How a run ends: a quit key, the time being up, or (in the model only) the end of the input. */
  datatype Outcome = UserQuit | TimeUp | InputEnds

  /** The outcome of a run over the passes given. */
  function RunOutcome(mode: Mode, blink: bool, ticks: seq<Tick>): Outcome {
    if |ticks| == 0 then InputEnds
    else match StepOf(mode, blink, ticks[0])
      case Quit => UserQuit
      case Expired => TimeUp
      case Draw(_) => RunOutcome(mode, blink, ticks[1..])
  }

  /** The pass at which the run ends (the number of passes that draw before it). */
  function StopIndex(mode: Mode, blink: bool, ticks: seq<Tick>): nat {
    if |ticks| == 0 then 0
    else if StepOf(mode, blink, ticks[0]).Draw? then 1 + StopIndex(mode, blink, ticks[1..])
    else 0
  }

  /** Every pass before the stop index draws, and the pass at it, if any, ends the run. */
  lemma {:induction false} StopIndexIsFirstStop(mode: Mode, blink: bool, ticks: seq<Tick>)
    ensures StopIndex(mode, blink, ticks) <= |ticks|
    ensures forall j | 0 <= j < StopIndex(mode, blink, ticks) :: StepOf(mode, blink, ticks[j]).Draw?
    ensures StopIndex(mode, blink, ticks) < |ticks| ==> !StepOf(mode, blink, ticks[StopIndex(mode, blink, ticks)]).Draw?
  {
    if |ticks| > 0 && StepOf(mode, blink, ticks[0]).Draw? {
      StopIndexIsFirstStop(mode, blink, ticks[1..]);
      forall j | 1 <= j < StopIndex(mode, blink, ticks)
        ensures StepOf(mode, blink, ticks[j]).Draw?
      {
        assert ticks[j] == ticks[1..][j - 1];
      }
    }
  }

  /**
   * The terminal output of a run, given the frame drawn last: each drawing pass
   * paints its rendered frame centred, through `stable_display`.
   */
  function RunWrites(last: Option<Frame>, mode: Mode, blink: bool, color: Color, ticks: seq<Tick>): seq<Write>
    decreases |ticks|
  {
    if |ticks| == 0 then []
    else match StepOf(mode, blink, ticks[0])
      case Draw(text) =>
        var frame := Rendered(text);
        Paint(last, frame, Centre(ticks[0].width, 5 * |text|), Centre(ticks[0].height, 5), color)
        + RunWrites(Some(frame), mode, blink, color, ticks[1..])
      case _ => []
  }

  /** A drawing pass paints its frame and hands it on as the frame drawn last. */
  lemma RunWritesDraw(last: Option<Frame>, mode: Mode, blink: bool, color: Color, ticks: seq<Tick>, text: string)
    requires forall k | 0 <= k < |ticks| :: Fits(mode, blink, ticks[k])
    requires |ticks| > 0 && StepOf(mode, blink, ticks[0]) == Draw(text)
    ensures 5 * |text| <= ticks[0].width && 5 <= ticks[0].height
    ensures RunWrites(last, mode, blink, color, ticks) ==
      Paint(last, Rendered(text), Centre(ticks[0].width, 5 * |text|), Centre(ticks[0].height, 5), color)
      + RunWrites(Some(Rendered(text)), mode, blink, color, ticks[1..])
    ensures StopIndex(mode, blink, ticks) == 1 + StopIndex(mode, blink, ticks[1..])
    ensures RunOutcome(mode, blink, ticks) == RunOutcome(mode, blink, ticks[1..])
  {
    assert Fits(mode, blink, ticks[0]);
  }

  /** A run whose first pass does not draw writes nothing more and stops there. */
  lemma RunStops(last: Option<Frame>, mode: Mode, blink: bool, color: Color, ticks: seq<Tick>)
    requires |ticks| > 0 ==> !StepOf(mode, blink, ticks[0]).Draw?
    ensures RunWrites(last, mode, blink, color, ticks) == []
    ensures StopIndex(mode, blink, ticks) == 0
    ensures RunOutcome(mode, blink, ticks) ==
      if |ticks| == 0 then InputEnds else if StepOf(mode, blink, ticks[0]).Quit? then UserQuit else TimeUp
  {
  }

  /** The size of the frame a non-empty text renders to: five rows, the first of five columns a character. */
  lemma RenderedSize(text: string)
    requires |text| > 0
    ensures |Rendered(text)| == 5 && |Rendered(text)[0]| == 5 * |text|
  {
    RenderedShape(text);
  }

  /**
   * The drawing half of a pass: render the text, centre the frame in the
   * terminal and hand it to `stable_display`.
   */
  method DrawCentred(display: Display, text: string, width: nat, height: nat, color: Color)
    requires |text| > 0 && 5 * |text| <= width && 5 <= height
    modifies display
    ensures display.last == Some(Rendered(text))
    ensures display.output ==
      old(display.output) + Paint(old(display.last), Rendered(text), Centre(width, 5 * |text|), Centre(height, 5), color)
  {
    var asciiTime := RenderTime(text);
    RenderedSize(text);
    var xPos := (width - |asciiTime[0]|) / 2;
    var yPos := (height - |asciiTime|) / 2;
    display.Show(asciiTime, xPos, yPos, color);
  }

  /** Output so far plus a drawing pass's paint, then the rest of the run: the output so far, then the whole run. */
  lemma DrawnPassWrites(before: seq<Write>, last: Option<Frame>, mode: Mode, blink: bool, color: Color, ticks: seq<Tick>, text: string)
    requires forall k | 0 <= k < |ticks| :: Fits(mode, blink, ticks[k])
    requires |ticks| > 0 && StepOf(mode, blink, ticks[0]) == Draw(text)
    ensures (before + Paint(last, Rendered(text), Centre(ticks[0].width, 5 * |text|), Centre(ticks[0].height, 5), color))
      + RunWrites(Some(Rendered(text)), mode, blink, color, ticks[1..])
      == before + RunWrites(last, mode, blink, color, ticks)
  {
    RunWritesDraw(last, mode, blink, color, ticks, text);
  }

  /**
   * A run loop over the passes given: starts with no frame drawn, and on each
   * pass checks the key, then the clock, then renders and draws the time.
   */
  method Run(mode: Mode, blink: bool, color: Color, ticks: seq<Tick>) returns (outcome: Outcome, stop: nat, writes: seq<Write>)
    requires forall k | 0 <= k < |ticks| :: Fits(mode, blink, ticks[k])
    ensures outcome == RunOutcome(mode, blink, ticks)
    ensures stop == StopIndex(mode, blink, ticks)
    ensures writes == RunWrites(None, mode, blink, color, ticks)
  {
    var display := new Display();
    var k := 0;
    outcome := InputEnds;
    while k < |ticks|
      invariant 0 <= k <= |ticks|
      invariant StopIndex(mode, blink, ticks[k..]) + k == StopIndex(mode, blink, ticks)
      invariant RunOutcome(mode, blink, ticks[k..]) == RunOutcome(mode, blink, ticks)
      invariant display.output + RunWrites(display.last, mode, blink, color, ticks[k..]) == RunWrites(None, mode, blink, color, ticks)
    {
      var tick := ticks[k];
      ghost var suffix := ticks[k..];
      assert suffix[0] == tick && suffix[1..] == ticks[k + 1..];
      if tick.event.Some? && IsQuit(tick.event.value) {
        RunStops(display.last, mode, blink, color, suffix);
        outcome := UserQuit;
        break;
      }
      if Ended(mode, tick.elapsedMs) {
        RunStops(display.last, mode, blink, color, suffix);
        outcome := TimeUp;
        break;
      }
      var displayWithBlink := WithBlink(blink, tick.elapsedMs, DisplayText(mode, tick.elapsedMs));
      ghost var before, drawnLast := display.output, display.last;
      RunWritesDraw(drawnLast, mode, blink, color, suffix, displayWithBlink);
      DrawCentred(display, displayWithBlink, tick.width, tick.height, color);
      DrawnPassWrites(before, drawnLast, mode, blink, color, suffix, displayWithBlink);
      assert display.output + RunWrites(display.last, mode, blink, color, ticks[k + 1..])
        == before + RunWrites(drawnLast, mode, blink, color, suffix);
      k := k + 1;
    }
    if k == |ticks| {
      RunStops(display.last, mode, blink, color, ticks[k..]);
    }
    stop := k;
    writes := display.output;
  }

  /** The run ends at its stop pass: on a quit key there, the time being up there, or the end of the input. */
  lemma {:induction false} RunOutcomeAtStop(mode: Mode, blink: bool, ticks: seq<Tick>)
    ensures StopIndex(mode, blink, ticks) <= |ticks|
    ensures RunOutcome(mode, blink, ticks) ==
      if StopIndex(mode, blink, ticks) == |ticks| then InputEnds
      else if StepOf(mode, blink, ticks[StopIndex(mode, blink, ticks)]).Quit? then UserQuit
      else TimeUp
  {
    if |ticks| > 0 && StepOf(mode, blink, ticks[0]).Draw? {
      RunOutcomeAtStop(mode, blink, ticks[1..]);
      var k := StopIndex(mode, blink, ticks[1..]);
      if k < |ticks[1..]| {
        assert ticks[1..][k] == ticks[k + 1];
      }
    }
  }

  /**
   * A quit key ends the run no later than the pass that carries it, and the
   * key is tested before the clock: if the run gets to that pass, it ends there
   * by the quit, even when the time is also up.
   */
  lemma QuitEndsRun(mode: Mode, blink: bool, ticks: seq<Tick>, k: nat)
    requires k < |ticks| && ticks[k].event.Some? && IsQuit(ticks[k].event.value)
    ensures StopIndex(mode, blink, ticks) <= k
    ensures RunOutcome(mode, blink, ticks) != InputEnds
    ensures StopIndex(mode, blink, ticks) == k ==> RunOutcome(mode, blink, ticks) == UserQuit
  {
    StopIndexIsFirstStop(mode, blink, ticks);
    RunOutcomeAtStop(mode, blink, ticks);
  }

  /** The stopwatch is ended only by a quit key (or the end of the input), never by the clock. */
  lemma StopwatchNeverTimesUp(blink: bool, ticks: seq<Tick>)
    ensures RunOutcome(Stopwatch, blink, ticks) != TimeUp
  {
    StopIndexIsFirstStop(Stopwatch, blink, ticks);
    RunOutcomeAtStop(Stopwatch, blink, ticks);
  }

  /**
   * Without a quit key, a countdown or a session ends by the time being up, at
   * the first pass whose clock reading is at or past the end, or earlier.
   */
  lemma TimerEndsWithoutQuit(mode: Mode, blink: bool, ticks: seq<Tick>, k: nat)
    requires !mode.Stopwatch?
    requires k < |ticks| && Ended(mode, ticks[k].elapsedMs)
    requires forall j | 0 <= j <= k :: ticks[j].event.None? || !IsQuit(ticks[j].event.value)
    ensures StopIndex(mode, blink, ticks) <= k
    ensures RunOutcome(mode, blink, ticks) == TimeUp
  {
    StopIndexIsFirstStop(mode, blink, ticks);
    RunOutcomeAtStop(mode, blink, ticks);
  }

  /** Characters drawn as themselves: digits, colon, dot, and the blank shown for a hidden colon. */
  predicate OnGlyphs(s: string) {
    forall i | 0 <= i < |s| :: Shown(s[i]) == s[i]
  }

  lemma DigitsOnGlyphs(s: string)
    requires AllDigits(s)
    ensures OnGlyphs(s)
  {
  }

  lemma OnGlyphsConcat(a: string, b: string)
    requires OnGlyphs(a) && OnGlyphs(b)
    ensures OnGlyphs(a + b)
  {
    forall i | 0 <= i < |a + b|
      ensures Shown((a + b)[i]) == (a + b)[i]
    {
      if i < |a| {
        assert (a + b)[i] == a[i];
      } else {
        assert (a + b)[i] == b[i - |a|];
      }
    }
  }

  lemma CountdownTextOnGlyphs(r: nat)
    ensures OnGlyphs(CountdownText(r))
  {
    var minutes, seconds := r / 60, r % 60;
    DigitsOnGlyphs(Pad2(seconds));
    if minutes >= 60 {
      var h, m := Decimal(minutes / 60), Pad2(minutes % 60);
      DigitsOnGlyphs(h);
      DigitsOnGlyphs(m);
      OnGlyphsConcat(h, ":");
      OnGlyphsConcat(h + ":", m);
      OnGlyphsConcat(h + ":" + m, ":");
      OnGlyphsConcat(h + ":" + m + ":", Pad2(seconds));
    } else {
      DigitsOnGlyphs(Decimal(minutes));
      OnGlyphsConcat(Decimal(minutes), ":");
      OnGlyphsConcat(Decimal(minutes) + ":", Pad2(seconds));
    }
  }

  lemma PomodoroTextOnGlyphs(r: nat)
    ensures OnGlyphs(PomodoroText(r))
  {
    DigitsOnGlyphs(Decimal(r / 60));
    DigitsOnGlyphs(Pad2(r % 60));
    OnGlyphsConcat(Decimal(r / 60), ":");
    OnGlyphsConcat(Decimal(r / 60) + ":", Pad2(r % 60));
  }

  lemma StopwatchTextOnGlyphs(e: nat)
    ensures OnGlyphs(StopwatchText(e))
  {
    var m, s, c := Decimal(e / 1000 / 60), Pad2(e / 1000 % 60), Pad2(e % 1000 / 10);
    DigitsOnGlyphs(m);
    DigitsOnGlyphs(s);
    DigitsOnGlyphs(c);
    OnGlyphsConcat(m, ":");
    OnGlyphsConcat(m + ":", s);
    OnGlyphsConcat(m + ":" + s, ".");
    OnGlyphsConcat(m + ":" + s + ".", c);
  }

  /** Hiding the separators keeps a text on glyphs: the blank has its own glyph. */
  lemma BlinkOnGlyphs(enabled: bool, elapsedMs: nat, text: string)
    requires OnGlyphs(text)
    ensures OnGlyphs(WithBlink(enabled, elapsedMs, text))
  {
  }

  /** Every text a run draws is made of characters with their own glyph (or the blank). */
  lemma DrawnTextOnGlyphs(mode: Mode, blink: bool, t: Tick)
    requires StepOf(mode, blink, t).Draw?
    ensures OnGlyphs(StepOf(mode, blink, t).text)
  {
    var e := t.elapsedMs;
    match mode {
      case Countdown(total) => CountdownTextOnGlyphs(RemainingSecs(total, e));
      case PomodoroSession(duration) => PomodoroTextOnGlyphs(RemainingSecs(duration, e));
      case Stopwatch => StopwatchTextOnGlyphs(e);
    }
    BlinkOnGlyphs(blink, e, DisplayText(mode, e));
  }

  /** The frame a pass draws reads back, glyph by glyph, as exactly the text it was rendered from. */
  lemma DrawnFrameReadsBack(mode: Mode, blink: bool, t: Tick)
    requires StepOf(mode, blink, t).Draw?
    ensures |StepOf(mode, blink, t).text| > 0
    ensures |Rendered(StepOf(mode, blink, t).text)| == 5
    ensures forall i | 0 <= i < 5 :: |Rendered(StepOf(mode, blink, t).text)[i]| == 5 * |StepOf(mode, blink, t).text|
    ensures ReadFrame(Rendered(StepOf(mode, blink, t).text), |StepOf(mode, blink, t).text|) == StepOf(mode, blink, t).text
  {
    var text := StepOf(mode, blink, t).text;
    DrawnTextOnGlyphs(mode, blink, t);
    ReadBack(text);
  }

  /**
   * With the separator shown, the countdown frame read back off the screen
   * and given to the duration parser yields the whole seconds remaining.
   */
  lemma CountdownFrameShowsRemaining(total: nat, blink: bool, t: Tick)
    requires total <= U64_MAX
    requires StepOf(Countdown(total), blink, t).Draw?
    requires !blink || BlinkOn(t.elapsedMs)
    ensures t.elapsedMs < total * 1000
    ensures |Rendered(StepOf(Countdown(total), blink, t).text)| == 5
    ensures forall i | 0 <= i < 5 :: |Rendered(StepOf(Countdown(total), blink, t).text)[i]| == 5 * |StepOf(Countdown(total), blink, t).text|
    ensures ParseTimeString(ReadFrame(Rendered(StepOf(Countdown(total), blink, t).text), |StepOf(Countdown(total), blink, t).text|))
      == Success(RemainingSecs(total, t.elapsedMs))
  {
    DrawnFrameReadsBack(Countdown(total), blink, t);
    CountdownRoundTrip(RemainingSecs(total, t.elapsedMs));
  }

  /**
   * With the separator shown, a Pomodoro session frame read back and parsed
   * yields the whole seconds remaining in the session.
   */
  lemma SessionFrameShowsRemaining(duration: nat, blink: bool, t: Tick)
    requires duration <= U64_MAX
    requires StepOf(PomodoroSession(duration), blink, t).Draw?
    requires !blink || BlinkOn(t.elapsedMs)
    ensures t.elapsedMs < duration * 1000
    ensures |Rendered(StepOf(PomodoroSession(duration), blink, t).text)| == 5
    ensures forall i | 0 <= i < 5 :: |Rendered(StepOf(PomodoroSession(duration), blink, t).text)[i]| == 5 * |StepOf(PomodoroSession(duration), blink, t).text|
    ensures ParseTimeString(ReadFrame(Rendered(StepOf(PomodoroSession(duration), blink, t).text), |StepOf(PomodoroSession(duration), blink, t).text|))
      == Success(RemainingSecs(duration, t.elapsedMs))
  {
    DrawnFrameReadsBack(PomodoroSession(duration), blink, t);
    PomodoroRoundTrip(RemainingSecs(duration, t.elapsedMs));
  }

  /** A pass that draws the same text as the pass before it writes nothing to the terminal. */
  lemma SteadyPassWritesNothing(mode: Mode, blink: bool, color: Color, t: Tick, text: string)
    requires StepOf(mode, blink, t) == Draw(text)
    ensures RunWrites(Some(Rendered(text)), mode, blink, color, [t]) == []
  {
    RepeatWritesNothing(Rendered(text), Centre(t.width, 5 * |text|), Centre(t.height, 5), color);
    assert [t][1..] == [];
  }
}
