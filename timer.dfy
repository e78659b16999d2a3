/**
 * The modes of src/main.rs: the dispatch in `main`, the countdown with its
 * flashing "time's up" banner, the stopwatch, and the Pomodoro cycle of work
 * and break sessions.
 */
module Timer {
  import opened Wrappers
  import opened Text
  import opened TimeString
  import opened Config
  import opened Screen
  import opened Session

  /** Whether a list of events holds a quit key. */
  predicate HasQuit(events: seq<Event>) {
    exists i | 0 <= i < |events| :: IsQuit(events[i])
  }

  /** The flash pattern: frame i shows the banner exactly when i is even. */
  function Flashes(n: nat): (frames: seq<bool>)
    ensures |frames| == n
    ensures forall i | 0 <= i < n :: frames[i] == (i % 2 == 0)
  {
    seq(n, i requires 0 <= i < n => i % 2 == 0)
  }

  /** The first of the flash windows in which a quit key arrives, or their number if none does. */
  function FirstQuitWindow(windows: seq<seq<Event>>): (k: nat)
    ensures k <= |windows|
    ensures forall j | 0 <= j < k :: !HasQuit(windows[j])
    ensures k < |windows| ==> HasQuit(windows[k])
  {
    if |windows| == 0 then 0
    else if HasQuit(windows[0]) then 0
    else 1 + FirstQuitWindow(windows[1..])
  }

  /**
   * `show_time_up`: five frames, the banner on the even ones, each followed by
   * a 500 ms window in which a quit key returns at once; then the banner for
   * good, until a quit key. `windows` are the events read in each window and
   * `after` those read while the final banner is up. The result lists, frame
   * by frame, whether the banner was on it, and whether a quit key ended it.
   */
  method ShowTimeUp(windows: seq<seq<Event>>, after: seq<Event>) returns (frames: seq<bool>, quit: bool)
    requires |windows| == 5
    ensures frames == if FirstQuitWindow(windows) < 5 then Flashes(FirstQuitWindow(windows) + 1) else Flashes(5) + [true]
    ensures quit <==> FirstQuitWindow(windows) < 5 || HasQuit(after)
  {
    frames := [];
    for i := 0 to 5
      invariant frames == Flashes(i)
      invariant forall j | 0 <= j < i :: !HasQuit(windows[j])
    {
      frames := frames + [i % 2 == 0];
      var window := windows[i];
      var j := 0;
      while j < |window|
        invariant 0 <= j <= |window|
        invariant forall l | 0 <= l < j :: !IsQuit(window[l])
      {
        if IsQuit(window[j]) {
          quit := true;
          assert frames == Flashes(i + 1);
          return;
        }
        j := j + 1;
      }
    }
    frames := frames + [true];
    var j := 0;
    while j < |after|
      invariant 0 <= j <= |after|
      invariant forall l | 0 <= l < j :: !IsQuit(after[l])
    {
      if IsQuit(after[j]) {
        quit := true;
        return;
      }
      j := j + 1;
    }
    quit := false;
  }

  /** The flash shows the banner, hides it, shows it, hides it and shows it. */
  lemma FlashPattern()
    ensures Flashes(5) == [true, false, true, false, true]
  {
  }

  /**
   * `run_countdown`: the run loop in the countdown colour with the configured
   * blink; when the time is up, `show_time_up`; in every case "Timer complete!"
   * afterwards.
   */
  method RunCountdown(config: Config, totalSecs: nat, ticks: seq<Tick>, windows: seq<seq<Event>>, after: seq<Event>)
    returns (outcome: Outcome, writes: seq<Write>, frames: seq<bool>, message: string)
    requires forall k | 0 <= k < |ticks| :: Fits(Countdown(totalSecs), config.blinkSeparator, ticks[k])
    requires |windows| == 5
    ensures outcome == RunOutcome(Countdown(totalSecs), config.blinkSeparator, ticks)
    ensures writes == RunWrites(None, Countdown(totalSecs), config.blinkSeparator, CountdownColor(config), ticks)
    ensures |frames| > 0 <==> outcome == TimeUp
    ensures outcome == TimeUp ==> frames[0]
    ensures outcome == TimeUp ==>
      frames == if FirstQuitWindow(windows) < 5 then Flashes(FirstQuitWindow(windows) + 1) else Flashes(5) + [true]
    ensures message == "Timer complete!"
  {
    var stop;
    outcome, stop, writes := Run(Countdown(totalSecs), config.blinkSeparator, CountdownColor(config), ticks);
    frames := [];
    if outcome == TimeUp {
      var quit;
      frames, quit := ShowTimeUp(windows, after);
    }
    message := "Timer complete!";
  }

  /** `run_stopwatch`: the run loop in the stopwatch colour; only a quit key ends it. */
  method RunStopwatch(config: Config, ticks: seq<Tick>) returns (outcome: Outcome, writes: seq<Write>, message: string)
    requires forall k | 0 <= k < |ticks| :: Fits(Stopwatch, config.blinkSeparator, ticks[k])
    ensures outcome == RunOutcome(Stopwatch, config.blinkSeparator, ticks)
    ensures outcome != TimeUp
    ensures writes == RunWrites(None, Stopwatch, config.blinkSeparator, StopwatchColor(config), ticks)
    ensures message == "Stopwatch stopped!"
  {
    var stop;
    outcome, stop, writes := Run(Stopwatch, config.blinkSeparator, StopwatchColor(config), ticks);
    StopwatchNeverTimesUp(config.blinkSeparator, ticks);
    message := "Stopwatch stopped!";
  }

  /** Work and break lengths, fixed at 25 and 5 minutes. */
  const WORK_SECS: nat := 25 * 60
  const BREAK_SECS: nat := 5 * 60

  /**
   * What the user does around one Pomodoro session: the passes of its run
   * loop, then (if it completes) the key that dismisses "… Complete!" and the
   * key pressed at the phase-change message.
   */
  datatype SessionInput = SessionInput(ticks: seq<Tick>, acknowledge: Event, phaseKey: Event)

  /** Session k of the cycle: work sessions at even k, breaks at odd k. */
  function SessionMode(k: nat): Mode {
    PomodoroSession(if k % 2 == 0 then WORK_SECS else BREAK_SECS)
  }

  /** Work sessions are drawn in the countdown colour, breaks in the stopwatch colour. */
  function SessionColor(config: Config, k: nat): Color {
    if k % 2 == 0 then CountdownColor(config) else StopwatchColor(config)
  }

  /** The name a session is shown under: its kind and its cycle. */
  datatype SessionName = WorkSession(cycle: nat) | BreakSession(cycle: nat)

  /** The text of a name: "Work Session #n" or "Break #n". */
  function Label(name: SessionName): string {
    match name
    case WorkSession(c) => "Work Session #" + Decimal(c)
    case BreakSession(c) => "Break #" + Decimal(c)
  }

  /** Session k is the work session (k even) or the break (k odd) of cycle k / 2 + 1. */
  function NameOf(k: nat): SessionName {
    if k % 2 == 0 then WorkSession(k / 2 + 1) else BreakSession(k / 2 + 1)
  }

  /** The first session, from session i on, that does not run to its end (or the number of sessions). */
  function FirstUnfinished(blink: bool, inputs: seq<SessionInput>, i: nat): (n: nat)
    requires i <= |inputs|
    ensures i <= n <= |inputs|
    decreases |inputs| - i
  {
    if i == |inputs| then i
    else if RunOutcome(SessionMode(i), blink, inputs[i].ticks) == TimeUp then FirstUnfinished(blink, inputs, i + 1)
    else i
  }

  /** A session that runs to its end passes the search on to the next one. */
  lemma FirstUnfinishedStep(blink: bool, inputs: seq<SessionInput>, i: nat)
    requires i < |inputs|
    ensures RunOutcome(SessionMode(i), blink, inputs[i].ticks) == TimeUp ==>
      FirstUnfinished(blink, inputs, i) == FirstUnfinished(blink, inputs, i + 1)
    ensures RunOutcome(SessionMode(i), blink, inputs[i].ticks) != TimeUp ==> FirstUnfinished(blink, inputs, i) == i
  {
  }

  /** The sessions from i up to the first unfinished one all ran to their end, and that one did not. */
  lemma {:induction false} FirstUnfinishedIsFirst(blink: bool, inputs: seq<SessionInput>, i: nat)
    requires i <= |inputs|
    ensures forall j | i <= j < FirstUnfinished(blink, inputs, i) :: RunOutcome(SessionMode(j), blink, inputs[j].ticks) == TimeUp
    ensures FirstUnfinished(blink, inputs, i) < |inputs| ==>
      RunOutcome(SessionMode(FirstUnfinished(blink, inputs, i)), blink, inputs[FirstUnfinished(blink, inputs, i)].ticks) != TimeUp
    decreases |inputs| - i
  {
    if i < |inputs| && RunOutcome(SessionMode(i), blink, inputs[i].ticks) == TimeUp {
      FirstUnfinishedIsFirst(blink, inputs, i + 1);
      assert FirstUnfinished(blink, inputs, i) == FirstUnfinished(blink, inputs, i + 1);
    }
  }

  /** The names of the first n sessions, in order. */
  function Names(n: nat): (names: seq<SessionName>)
    ensures |names| == n
  {
    seq(n, k requires 0 <= k < n => NameOf(k))
  }

  /** What session k draws: its run loop from a blank display, in its colour. */
  function SessionWrites(config: Config, inputs: seq<SessionInput>, k: nat): seq<Write>
    requires k < |inputs|
  {
    RunWrites(None, SessionMode(k), config.blinkSeparator, SessionColor(config, k), inputs[k].ticks)
  }

  /** What the first n sessions drew, session by session. */
  function Screens(config: Config, inputs: seq<SessionInput>, n: nat): (screens: seq<seq<Write>>)
    requires n <= |inputs|
    ensures |screens| == n
  {
    seq(n, k requires 0 <= k < n => SessionWrites(config, inputs, k))
  }

  lemma NamesSnoc(n: nat)
    ensures Names(n + 1) == Names(n) + [NameOf(n)]
  {
  }

  lemma ScreensSnoc(config: Config, inputs: seq<SessionInput>, n: nat)
    requires n < |inputs|
    ensures Screens(config, inputs, n + 1) == Screens(config, inputs, n) + [SessionWrites(config, inputs, n)]
  {
    var longer, shorter := Screens(config, inputs, n + 1), Screens(config, inputs, n);
    forall k | 0 <= k < n
      ensures longer[k] == shorter[k]
    {
    }
    assert longer[..n] == shorter;
    assert longer == longer[..n] + [longer[n]];
  }

  /** How the Pomodoro run ends: the way its first unfinished session ends, or the end of the input. */
  function PomodoroOutcome(blink: bool, inputs: seq<SessionInput>): Outcome {
    var n := FirstUnfinished(blink, inputs, 0);
    if n == |inputs| then InputEnds else RunOutcome(SessionMode(n), blink, inputs[n].ticks)
  }

  /** The sessions started: up to and including the first unfinished one. */
  function StartedSessions(blink: bool, inputs: seq<SessionInput>): (n: nat)
    ensures n <= |inputs|
  {
    var u := FirstUnfinished(blink, inputs, 0);
    if u < |inputs| then u + 1 else u
  }

  /** `display_phase_change`: shows the message, waits for a key, and asks to go on unless it is a quit key. */
  method DisplayPhaseChange(message: string, key: Event) returns (continueRun: bool)
    ensures continueRun <==> !IsQuit(key)
  {
    continueRun := !IsQuit(key);
  }

  /**
   * `run_pomodoro_session`: the run loop of one session in its colour; it
   * reports whether the session ran to its end (a quit key, or the end of the
   * input, stops it early).
   */
  method RunPomodoroSession(sessionName: SessionName, durationSecs: nat, color: Color, blink: bool, ticks: seq<Tick>)
    returns (completed: bool, outcome: Outcome, writes: seq<Write>)
    requires forall j | 0 <= j < |ticks| :: Fits(PomodoroSession(durationSecs), blink, ticks[j])
    ensures outcome == RunOutcome(PomodoroSession(durationSecs), blink, ticks)
    ensures completed <==> outcome == TimeUp
    ensures writes == RunWrites(None, PomodoroSession(durationSecs), blink, color, ticks)
  {
    var stop;
    outcome, stop, writes := Run(PomodoroSession(durationSecs), blink, color, ticks);
    completed := outcome == TimeUp;
  }

  /** Every pass of every session fits the terminal. */
  ghost predicate SessionsFit(blink: bool, inputs: seq<SessionInput>) {
    forall k, j | 0 <= k < |inputs| && 0 <= j < |inputs[k].ticks| :: Fits(SessionMode(k), blink, inputs[k].ticks[j])
  }

  lemma SessionFits(blink: bool, inputs: seq<SessionInput>, k: nat, durationSecs: nat)
    requires SessionsFit(blink, inputs)
    requires k < |inputs| && SessionMode(k) == PomodoroSession(durationSecs)
    ensures forall j | 0 <= j < |inputs[k].ticks| :: Fits(PomodoroSession(durationSecs), blink, inputs[k].ticks[j])
  {
  }

  /** Sessions 2(c - 1) and 2(c - 1) + 1 are the work session and the break of cycle c. */
  lemma CycleSessions(config: Config, k: nat, cycle: nat)
    requires k == 2 * (cycle - 1) && cycle >= 1
    ensures NameOf(k) == WorkSession(cycle) && NameOf(k + 1) == BreakSession(cycle)
    ensures SessionMode(k) == PomodoroSession(WORK_SECS) && SessionMode(k + 1) == PomodoroSession(BREAK_SECS)
    ensures SessionColor(config, k) == CountdownColor(config) && SessionColor(config, k + 1) == StopwatchColor(config)
  {
  }

  /**
   * Session k of the cycle, run with the length and colour `run_pomodoro`
   * gives it: its name and what it drew extend those of the sessions before
   * it, and whether it completed moves the search for the first unfinished
   * session on or ends it here.
   */
  method StartSession(config: Config, inputs: seq<SessionInput>, k: nat, name: SessionName, durationSecs: nat, color: Color,
                      names: seq<SessionName>, screens: seq<seq<Write>>)
    returns (completed: bool, outcome: Outcome, namesAfter: seq<SessionName>, screensAfter: seq<seq<Write>>)
    requires SessionsFit(config.blinkSeparator, inputs)
    requires k < |inputs| && NameOf(k) == name
    requires SessionMode(k) == PomodoroSession(durationSecs) && SessionColor(config, k) == color
    requires names == Names(k) && screens == Screens(config, inputs, k)
    ensures namesAfter == Names(k + 1) && screensAfter == Screens(config, inputs, k + 1)
    ensures completed ==> FirstUnfinished(config.blinkSeparator, inputs, k) == FirstUnfinished(config.blinkSeparator, inputs, k + 1)
    ensures !completed ==> FirstUnfinished(config.blinkSeparator, inputs, k) == k
    ensures outcome == RunOutcome(SessionMode(k), config.blinkSeparator, inputs[k].ticks)
    ensures completed <==> outcome == TimeUp
  {
    SessionFits(config.blinkSeparator, inputs, k, durationSecs);
    NamesSnoc(k);
    namesAfter := names + [name];
    var writes;
    completed, outcome, writes := RunPomodoroSession(name, durationSecs, color, config.blinkSeparator, inputs[k].ticks);
    FirstUnfinishedStep(config.blinkSeparator, inputs, k);
    ScreensSnoc(config, inputs, k);
    screensAfter := screens + [writes];
  }

  /**
   * One pass of `run_pomodoro`'s loop, for cycle c (sessions 2(c - 1) and
   * 2(c - 1) + 1): the work session, the phase change, the break session and
   * the phase change. It stops the loop where a session does not complete
   * (or the input runs out); `next` counts the sessions started so far.
   */
  method RunCycle(config: Config, inputs: seq<SessionInput>, cycle: nat, names: seq<SessionName>, screens: seq<seq<Write>>)
    returns (stopped: bool, outcome: Outcome, next: nat, namesAfter: seq<SessionName>, screensAfter: seq<seq<Write>>)
    requires SessionsFit(config.blinkSeparator, inputs)
    requires cycle >= 1 && 2 * (cycle - 1) < |inputs|
    requires names == Names(2 * (cycle - 1)) && screens == Screens(config, inputs, 2 * (cycle - 1))
    ensures 2 * (cycle - 1) < next <= 2 * cycle && next <= |inputs|
    ensures namesAfter == Names(next) && screensAfter == Screens(config, inputs, next)
    ensures !stopped ==> next == 2 * cycle
    ensures !stopped ==>
      FirstUnfinished(config.blinkSeparator, inputs, 2 * (cycle - 1)) == FirstUnfinished(config.blinkSeparator, inputs, next)
    ensures stopped ==> var u := FirstUnfinished(config.blinkSeparator, inputs, 2 * (cycle - 1));
      || (u == next - 1 && outcome == RunOutcome(SessionMode(u), config.blinkSeparator, inputs[u].ticks))
      || (u == next == |inputs| == 2 * (cycle - 1) + 1 && outcome == InputEnds)
  {
    var k := 2 * (cycle - 1);
    CycleSessions(config, k, cycle);
    // Work session
    var completed;
    completed, outcome, namesAfter, screensAfter :=
      StartSession(config, inputs, k, WorkSession(cycle), WORK_SECS, CountdownColor(config), names, screens);
    if !completed {
      stopped, next := true, k + 1;
      return;
    }
    var continueRun := DisplayPhaseChange("Break Time!", inputs[k].phaseKey);
    if k + 1 == |inputs| {
      stopped, outcome, next := true, InputEnds, k + 1;
      return;
    }
    // Break session
    completed, outcome, namesAfter, screensAfter :=
      StartSession(config, inputs, k + 1, BreakSession(cycle), BREAK_SECS, StopwatchColor(config), namesAfter, screensAfter);
    stopped, next := !completed, k + 2;
    if stopped {
      return;
    }
    continueRun := DisplayPhaseChange("Back to Work!", inputs[k + 1].phaseKey);
  }

  /**
   * `run_pomodoro`: from cycle 1, a work session, the phase change, a break
   * session, the phase change, and the next cycle, until a session does not
   * complete. The answer of `display_phase_change` is ignored. The report
   * counts `cycle - 1` full cycles.
   */
  method RunPomodoro(config: Config, inputs: seq<SessionInput>)
    returns (cycles: nat, outcome: Outcome, names: seq<SessionName>, screens: seq<seq<Write>>, report: string)
    requires SessionsFit(config.blinkSeparator, inputs)
    ensures cycles == FirstUnfinished(config.blinkSeparator, inputs, 0) / 2
    ensures outcome == PomodoroOutcome(config.blinkSeparator, inputs)
    ensures names == Names(StartedSessions(config.blinkSeparator, inputs))
    ensures screens == Screens(config, inputs, StartedSessions(config.blinkSeparator, inputs))
    ensures report == "Pomodoro timer ended. Completed " + Decimal(cycles) + " full cycles."
  {
    var blink := config.blinkSeparator;
    var cycle := 1;
    var k := 0;
    outcome := InputEnds;
    names, screens := [], [];
    while k < |inputs|
      invariant k <= |inputs| && k == 2 * (cycle - 1) && cycle >= 1
      invariant FirstUnfinished(blink, inputs, k) == FirstUnfinished(blink, inputs, 0)
      invariant names == Names(k) && screens == Screens(config, inputs, k)
      invariant outcome == InputEnds
    {
      var stopped, result, next;
      stopped, result, next, names, screens := RunCycle(config, inputs, cycle, names, screens);
      if stopped {
        outcome := result;
        PomodoroStops(blink, inputs, FirstUnfinished(blink, inputs, 0));
        assert |names| == StartedSessions(blink, inputs);
        assert FirstUnfinished(blink, inputs, 0) / 2 == cycle - 1;
        break;
      }
      k := next;
      cycle := cycle + 1;
    }
    PomodoroStops(blink, inputs, FirstUnfinished(blink, inputs, 0));
    cycles := cycle - 1;
    report := "Pomodoro timer ended. Completed " + Decimal(cycles) + " full cycles.";
  }

  /** Where the first unfinished session is k, the run started k + 1 sessions (k if none was unfinished) and ended as session k did. */
  lemma PomodoroStops(blink: bool, inputs: seq<SessionInput>, k: nat)
    requires k <= |inputs| && FirstUnfinished(blink, inputs, 0) == k
    ensures StartedSessions(blink, inputs) == if k < |inputs| then k + 1 else k
    ensures PomodoroOutcome(blink, inputs) == if k < |inputs| then RunOutcome(SessionMode(k), blink, inputs[k].ticks) else InputEnds
  {
  }

  /** A Pomodoro run never ends by the clock: only a quit key (or the end of the input) stops it. */
  lemma PomodoroNeverTimesUp(blink: bool, inputs: seq<SessionInput>)
    ensures PomodoroOutcome(blink, inputs) != TimeUp
  {
    FirstUnfinishedIsFirst(blink, inputs, 0);
  }

  /**
   * A quit key in session k, after sessions 0 to k - 1 all ran to their end,
   * ends the whole Pomodoro run there: it is the last session started, and
   * the run ends as that session did.
   */
  lemma QuitEndsPomodoro(blink: bool, inputs: seq<SessionInput>, k: nat)
    requires k < |inputs|
    requires forall j | 0 <= j < k :: RunOutcome(SessionMode(j), blink, inputs[j].ticks) == TimeUp
    requires RunOutcome(SessionMode(k), blink, inputs[k].ticks) == UserQuit
    ensures FirstUnfinished(blink, inputs, 0) == k
    ensures StartedSessions(blink, inputs) == k + 1
    ensures PomodoroOutcome(blink, inputs) == UserQuit
  {
    FirstUnfinishedIsFirst(blink, inputs, 0);
  }

  /**
   * The cycle count covers whole cycles only: every cycle it counts had its
   * work session and its break run to their end.
   */
  lemma CountedCyclesComplete(blink: bool, inputs: seq<SessionInput>)
    ensures forall c | 0 <= c < FirstUnfinished(blink, inputs, 0) / 2 ::
      && RunOutcome(SessionMode(2 * c), blink, inputs[2 * c].ticks) == TimeUp
      && RunOutcome(SessionMode(2 * c + 1), blink, inputs[2 * c + 1].ticks) == TimeUp
  {
    FirstUnfinishedIsFirst(blink, inputs, 0);
  }

  /** A quit key in the break of cycle c + 1 counts c cycles: the finished work session before it is not counted. */
  lemma QuitInBreakNotCounted(blink: bool, inputs: seq<SessionInput>, c: nat)
    requires 2 * c + 1 < |inputs|
    requires forall j | 0 <= j <= 2 * c :: RunOutcome(SessionMode(j), blink, inputs[j].ticks) == TimeUp
    requires RunOutcome(SessionMode(2 * c + 1), blink, inputs[2 * c + 1].ticks) == UserQuit
    ensures FirstUnfinished(blink, inputs, 0) / 2 == c
  {
    QuitEndsPomodoro(blink, inputs, 2 * c + 1);
  }

  /** Whether a session completes depends on its passes alone. */
  lemma {:induction false} OnlyTicksMatter(blink: bool, a: seq<SessionInput>, b: seq<SessionInput>, i: nat)
    requires |a| == |b| && i <= |a|
    requires forall j | 0 <= j < |a| :: a[j].ticks == b[j].ticks
    ensures FirstUnfinished(blink, a, i) == FirstUnfinished(blink, b, i)
    decreases |a| - i
  {
    if i < |a| {
      OnlyTicksMatter(blink, a, b, i + 1);
    }
  }

  /**
   * The keys read at "… Complete!" and at the phase-change message change
   * nothing: not how far the run gets, how it ends, nor what it draws. In
   * particular a quit key at the phase change does not stop the cycle.
   */
  lemma PhaseKeysIgnored(config: Config, inputs: seq<SessionInput>, k: nat, acknowledge: Event, phaseKey: Event)
    requires k < |inputs|
    ensures var changed := inputs[k := SessionInput(inputs[k].ticks, acknowledge, phaseKey)];
      && FirstUnfinished(config.blinkSeparator, changed, 0) == FirstUnfinished(config.blinkSeparator, inputs, 0)
      && PomodoroOutcome(config.blinkSeparator, changed) == PomodoroOutcome(config.blinkSeparator, inputs)
      && StartedSessions(config.blinkSeparator, changed) == StartedSessions(config.blinkSeparator, inputs)
      && Screens(config, changed, |inputs|) == Screens(config, inputs, |inputs|)
  {
    var changed := inputs[k := SessionInput(inputs[k].ticks, acknowledge, phaseKey)];
    OnlyTicksMatter(config.blinkSeparator, changed, inputs, 0);
  }

  /** The command line: `-c TIME`, `-s`, `-p` and `--init-config`. */
  datatype Cli = Cli(countdown: Option<string>, stopwatch: bool, pomodoro: bool, initConfig: bool)

  /** What `main` goes on to do: print a message and stop, or start a mode. */
  datatype Action = Exit(message: string) | StartPomodoro | StartCountdown(totalSecs: nat) | StartStopwatch

  const INIT_MESSAGE := "Configuration file initialized."
  const ZERO_MESSAGE := "Please specify a valid countdown time greater than zero."
  const USAGE := "No valid command specified. Use -c/--countdown TIME, -s/--stopwatch, or -p/--pomodoro"

  function ParseErrorMessage(e: TimeError): string {
    "Error parsing time: " + Message(e) + ". Use format HH:MM:SS, MM:SS, or SS."
  }

  /**
   * `main`, after the configuration is loaded: `--init-config` first, then
   * `-p`, then `-c` (which stops with a message when the time does not parse
   * or is zero), then `-s`, and otherwise the usage line.
   */
  function Dispatch(cli: Cli): (a: Action)
    ensures a.StartPomodoro? <==> !cli.initConfig && cli.pomodoro
    ensures a.StartCountdown? <==>
      && !cli.initConfig && !cli.pomodoro && cli.countdown.Some?
      && ParseTimeString(cli.countdown.value).Success? && ParseTimeString(cli.countdown.value).value > 0
    ensures a.StartCountdown? ==> ParseTimeString(cli.countdown.value) == Success(a.totalSecs)
    ensures a.StartStopwatch? <==> !cli.initConfig && !cli.pomodoro && cli.countdown.None? && cli.stopwatch
    ensures a.Exit? && !cli.initConfig && cli.countdown.Some? && ParseTimeString(cli.countdown.value).Failure? ==>
      a.message == ParseErrorMessage(ParseTimeString(cli.countdown.value).error)
    ensures a.Exit? ==> a.message in {INIT_MESSAGE, ZERO_MESSAGE, USAGE} || exists e: TimeError :: a.message == ParseErrorMessage(e)
  {
    if cli.initConfig then Exit(INIT_MESSAGE)
    else if cli.pomodoro then StartPomodoro
    else if cli.countdown.Some? then
      match ParseTimeString(cli.countdown.value)
      case Success(totalSeconds) =>
        if totalSeconds == 0 then Exit(ZERO_MESSAGE) else StartCountdown(totalSeconds)
      case Failure(e) => Exit(ParseErrorMessage(e))
    else if cli.stopwatch then StartStopwatch
    else Exit(USAGE)
  }

  /** `-c` takes precedence over `-s`: a countdown that does not start does not fall back to the stopwatch. */
  lemma CountdownShadowsStopwatch(cli: Cli)
    requires !cli.initConfig && !cli.pomodoro && cli.countdown.Some?
    ensures !Dispatch(cli).StartStopwatch?
  {
  }

  /** `-c 0:75` starts a 75-second countdown, even with `-s` given too. */
  lemma CountdownExample()
    ensures Dispatch(Cli(Some("0:75"), true, false, false)) == StartCountdown(75)
  {
    ParseCarryExample();
  }

  /** `-c a:b` stops with the minutes error and the format hint. */
  lemma BadCountdownExample()
    ensures Dispatch(Cli(Some("a:b"), false, false, false)) == Exit(ParseErrorMessage(InvalidMinutes))
  {
    ParseLettersExample();
  }
}
