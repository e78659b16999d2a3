/**
 * The older program, clockit/src/main.rs: a countdown and a stopwatch with
 * fixed colours, no blink, no Pomodoro and no settings. Its time parsing,
 * `stable_display` and digit font are the same text as in the newer program
 * and are modelled once, by `TimeString`, `Screen` and `Digit`.
 */
module Legacy {
  import opened Wrappers
  import opened TimeString
  import opened Config
  import opened Screen
  import opened Session
  import Timer

  /** The older command line: `-c TIME` and `-s` only. */
  datatype Cli = Cli(countdown: Option<string>, stopwatch: bool)

  const USAGE := "No valid command specified. Use -c/--countdown TIME or -s/--stopwatch"

  /** The older `main`: `-c` first (a bad or zero time stops with a message), then `-s`, else the usage line. */
  function Dispatch(cli: Cli): (a: Timer.Action)
    ensures !a.StartPomodoro?
    ensures a.StartCountdown? <==>
      cli.countdown.Some? && ParseTimeString(cli.countdown.value).Success? && ParseTimeString(cli.countdown.value).value > 0
    ensures a.StartCountdown? ==> ParseTimeString(cli.countdown.value) == Success(a.totalSecs)
    ensures a.StartStopwatch? <==> cli.countdown.None? && cli.stopwatch
  {
    if cli.countdown.Some? then
      match ParseTimeString(cli.countdown.value)
      case Success(totalSeconds) =>
        if totalSeconds == 0 then Timer.Exit(Timer.ZERO_MESSAGE) else Timer.StartCountdown(totalSeconds)
      case Failure(e) => Timer.Exit(Timer.ParseErrorMessage(e))
    else if cli.stopwatch then Timer.StartStopwatch
    else Timer.Exit(USAGE)
  }

  /**
   * The newer `main`, given neither `-p` nor `--init-config`, decides as the
   * older one did; only the usage line, shown when neither `-c` nor `-s` is
   * given, grew the `-p` option.
   */
  lemma NewerDispatchAgrees(cli: Cli)
    ensures Timer.Dispatch(Timer.Cli(cli.countdown, cli.stopwatch, false, false)) ==
      if cli.countdown.None? && !cli.stopwatch then Timer.Exit(Timer.USAGE) else Dispatch(cli)
    ensures cli.countdown.None? && !cli.stopwatch ==> Dispatch(cli) == Timer.Exit(USAGE)
  {
  }

  /** The three lines of the "time's up" banner. */
  const BANNER: seq<string> := [
    "┌┬┐┬┌┬┐┌─┐ ┬┌─┐  ┬ ┬┌─┐┬",
    " │ ││││├┤  │└─┐  │ │├─┘│",
    " ┴ ┴┴ ┴└─┘ ┴└─┘  └─┘┴  o"
  ]

  /** The number of bytes a character takes in UTF-8. */
  function Utf8Width(c: char): nat {
    if c as int < 0x80 then 1 else if c as int < 0x800 then 2 else if c as int < 0x10000 then 3 else 4
  }

  /** Rust's `str::len`: the length of the text in UTF-8 bytes, not in characters. */
  function Utf8Len(s: string): (n: nat)
    ensures n >= |s|
  {
    if |s| == 0 then 0 else Utf8Len(s[..|s| - 1]) + Utf8Width(s[|s| - 1])
  }

  /** Byte lengths add up over concatenation. */
  lemma {:induction false} Utf8LenConcat(a: string, b: string)
    ensures Utf8Len(a + b) == Utf8Len(a) + Utf8Len(b)
    decreases |b|
  {
    if |b| > 0 {
      Utf8LenConcat(a, b[..|b| - 1]);
      assert (a + b)[..|a + b| - 1] == a + b[..|b| - 1];
      assert (a + b)[|a + b| - 1] == b[|b| - 1];
    } else {
      assert a + b == a;
    }
  }

  /** Text made only of box-drawing characters takes three bytes a character. */
  lemma {:induction false} Utf8LenBox(s: string)
    requires forall i | 0 <= i < |s| :: 0x2500 <= s[i] as int < 0x2580
    ensures Utf8Len(s) == 3 * |s|
  {
    if |s| > 0 {
      Utf8LenBox(s[..|s| - 1]);
    }
  }

  /** The banner is 24 characters wide, but its first line is 64 bytes long: 20 box-drawing characters and 4 spaces. */
  lemma BannerWidths()
    ensures |BANNER| == 3 && |BANNER[0]| == 24
    ensures Utf8Len(BANNER[0]) == 64
  {
    var a, b, c, d := "┌┬┐┬┌┬┐┌─┐", "┬┌─┐", "┬", "┬┌─┐┬";
    assert BANNER[0] == a + " " + b + "  " + c + " " + d;
    Utf8LenBox(a);
    Utf8LenBox(b);
    Utf8LenBox(c);
    Utf8LenBox(d);
    assert Utf8Len(" ") == 1;
    assert Utf8Len("  ") == 2;
    Utf8LenConcat(a, " ");
    Utf8LenConcat(a + " ", b);
    Utf8LenConcat(a + " " + b, "  ");
    Utf8LenConcat(a + " " + b + "  ", c);
    Utf8LenConcat(a + " " + b + "  " + c, " ");
    Utf8LenConcat(a + " " + b + "  " + c + " ", d);
  }

  /**
   * The banner column as written: `(term_width - time_up_text[0].len()) / 2`
   * in `u16`, with the byte length 64 as the width. Below 64 columns the
   * subtraction wraps (in a release build; a debug build panics).
   */
  function BannerXAsWritten(termWidth: nat): nat
    requires termWidth < 0x1_0000
  {
    ((termWidth - Utf8Len(BANNER[0])) % 0x1_0000) / 2
  }

  /**
   * On an 80-column terminal the banner starts at column 8 instead of 28, and
   * on a 40-column one the column wraps to 32756, off the screen.
   */
  lemma BannerOffCentre()
    ensures BannerXAsWritten(80) == 8 && BannerX(80) == 28
    ensures BannerXAsWritten(40) == 32756 && BannerX(40) == 8
  {
    BannerWidths();
  }

  /** The banner column as intended: centred on its width in characters, and 0 where it does not fit. */
  function BannerX(termWidth: nat): nat {
    if termWidth >= 24 then (termWidth - 24) / 2 else 0
  }

  /** The banner line, rounded down, also saturating at 0. */
  function BannerY(termHeight: nat): nat {
    if termHeight >= |BANNER| then (termHeight - |BANNER|) / 2 else 0
  }

  /**
   * The banner line as written: `(term_height - text_height) / 2` in `u16`,
   * which wraps (in a release build; a debug build panics) below 3 lines.
   */
  function BannerYAsWritten(termHeight: nat): nat
    requires termHeight < 0x1_0000
  {
    ((termHeight - |BANNER|) % 0x1_0000) / 2
  }

  /**
   * Where the banner's three lines fit, the line as written is the centred one;
   * on a terminal of fewer than 3 lines it wraps to line 32766 or beyond, off the screen.
   */
  lemma BannerRowAsWritten(termHeight: nat)
    requires termHeight < 0x1_0000
    ensures termHeight >= 3 ==> BannerYAsWritten(termHeight) == BannerY(termHeight)
    ensures termHeight < 3 ==> BannerYAsWritten(termHeight) >= 32766 && BannerY(termHeight) == 0
  {
  }

  /** The corrected banner line centres the three lines, with at most one more line below, and is 0 where they do not fit. */
  lemma BannerRowCentred(termHeight: nat)
    ensures termHeight >= 3 ==> BannerY(termHeight) + 3 <= termHeight
    ensures termHeight >= 3 ==> termHeight - (BannerY(termHeight) + 3) - BannerY(termHeight) in {0, 1}
    ensures termHeight < 3 ==> BannerY(termHeight) == 0
  {
  }

  /** Where it fits, the corrected banner is centred: equal margins, or one more column on the right. */
  lemma BannerCentred(termWidth: nat)
    ensures termWidth >= 24 ==> BannerX(termWidth) + 24 <= termWidth
    ensures termWidth >= 24 ==> termWidth - (BannerX(termWidth) + 24) - BannerX(termWidth) in {0, 1}
    ensures termWidth < 24 ==> BannerX(termWidth) == 0
  {
  }

  /**
   * The older `show_time_up`: five frames 500 ms apart, the banner on the even
   * ones, with no way to leave early and no final banner. The result lists
   * whether each frame showed the banner, and where it stands.
   */
  method ShowTimeUp(termWidth: nat, termHeight: nat) returns (frames: seq<bool>, x: nat, y: nat)
    ensures frames == Timer.Flashes(5)
    ensures x == BannerX(termWidth) && y == BannerY(termHeight)
  {
    x := BannerX(termWidth);
    y := BannerY(termHeight);
    frames := [];
    for i := 0 to 5
      invariant frames == Timer.Flashes(i)
    {
      frames := frames + [i % 2 == 0];
    }
  }

  /**
   * The older `run_countdown`: no blink, cyan digits; when the time is up the
   * banner flashes from inside the loop; then "Timer complete!".
   */
  method RunCountdown(totalSecs: nat, ticks: seq<Tick>, termWidth: nat, termHeight: nat)
    returns (outcome: Outcome, writes: seq<Write>, frames: seq<bool>, message: string)
    requires forall k | 0 <= k < |ticks| :: Fits(Countdown(totalSecs), false, ticks[k])
    ensures outcome == RunOutcome(Countdown(totalSecs), false, ticks)
    ensures writes == RunWrites(None, Countdown(totalSecs), false, Cyan, ticks)
    ensures frames == if outcome == TimeUp then [true, false, true, false, true] else []
    ensures message == "Timer complete!"
  {
    var stop;
    outcome, stop, writes := Run(Countdown(totalSecs), false, Cyan, ticks);
    frames := [];
    if outcome == TimeUp {
      var x, y;
      frames, x, y := ShowTimeUp(termWidth, termHeight);
      Timer.FlashPattern();
    }
    message := "Timer complete!";
  }

  /** The older `run_stopwatch`: no blink, green digits; only a quit key ends it. */
  method RunStopwatch(ticks: seq<Tick>) returns (outcome: Outcome, writes: seq<Write>, message: string)
    requires forall k | 0 <= k < |ticks| :: Fits(Stopwatch, false, ticks[k])
    ensures outcome == RunOutcome(Stopwatch, false, ticks)
    ensures outcome != TimeUp
    ensures writes == RunWrites(None, Stopwatch, false, Green, ticks)
    ensures message == "Stopwatch stopped!"
  {
    var stop;
    outcome, stop, writes := Run(Stopwatch, false, Green, ticks);
    StopwatchNeverTimesUp(false, ticks);
    message := "Stopwatch stopped!";
  }
}
