# Clockit: a verified model of the terminal timer

Clockit is a terminal clock with three modes: a countdown (`-c TIME`), a stopwatch (`-s`) and, in
the newer program, a Pomodoro cycle (`-p`). Each mode draws the time in large 5×5 glyphs, centred,
and repaints only the rows that changed. Two copies of the program exist. `src/` is the current one.
`clockit/src/` is an older one, with no blink, no Pomodoro mode and fixed colours.

This project models the decision logic of both programs and proves what it promises:

- `Text` covers the Rust library behaviour that parsing and formatting rely on:
  - `str::split` and `str::trim`, with the Unicode `White_Space` list;
  - `str::parse::<u64>`, with the optional `+` and the `u64` bound;
  - `{}` and `{:02}` formatting.
- `TimeString` holds:
  - `parse_time_string`;
  - the countdown, Pomodoro and stopwatch display formats;
  - the colon blink.
- `Digit` holds the glyph font and `render_time`/`combine_digits`. It also has a glyph reader, used
  to show that a rendered frame reads back as its text.
- `Screen` holds `stable_display` as a class keeping `last_display` and the row writes it has made.
  A cell-level terminal model gives those writes their meaning.
- `Session` holds the run loop shared by `run_countdown`, `run_pomodoro_session` and
  `run_stopwatch`: poll for a quit key, read the clock, format, render and draw. Time is the
  milliseconds since the loop started. Keys and the terminal size are inputs of each pass.
- `Config` holds `parse_color`, the colour accessors and the `Default` impls of `src/config.rs`.
  `LegacyConfig` holds those of `clockit/src/config.rs`.
- `Timer` holds:
  - the newer `main` dispatch;
  - `show_time_up` with its early exit;
  - the countdown and stopwatch entry points;
  - the Pomodoro cycle: `run_pomodoro`, `run_pomodoro_session` and `display_phase_change`.
- `Legacy` holds the older `main`, `run_countdown`, `run_stopwatch` and `show_time_up`.

`parse_time_string`, `stable_display` and the colour table are the same text in both programs.
The older run loops are the newer ones without the blink step, with the fixed colours cyan
(countdown) and green (stopwatch) instead of the configured ones, and with fixed 200 ms and 100 ms
refresh rates. Each of these is modelled once: the older program's modules reuse it, with the blink
turned off and the fixed colour passed in. Rows citing `clockit/` lines below name that shared
member.

Where the program and its design notes disagree, the model follows the code:

- An empty time string is one empty field, so the error is "Invalid seconds format".
- The Pomodoro loop has no cycle limit.
- Work and break lengths are fixed at 25 and 5 minutes; the `pomodoro` settings are never read.
- Sessions use the countdown and stopwatch colours, not the Pomodoro colours.
- A quit key at a phase-change message does not end the run.

## Model

| member | source | states |
|---|---|---|
| Text.Decimal | src/main.rs:249-251 | `{}` of n: a non-empty digit string whose value is n, with a leading 0 only for n = 0 |
| Text.Pad2 | src/main.rs:249-251 | `{:02}` of n: at least two digits, value n, exactly two when n < 100 |
| Text.TrimStartKeepsSuffix | src/main.rs:55 | trimming the start removes exactly a whitespace prefix and stops at a non-whitespace character |
| Text.TrimEndKeepsPrefix | src/main.rs:55 | trimming the end removes exactly a whitespace suffix and stops at a non-whitespace character |
| Text.TrimUnchanged | src/main.rs:55 | a string with non-whitespace ends is its own trim |
| Text.Split | src/main.rs:45 | `split(':')` gives at least one part, no part holds a colon, and joining the parts with colons gives back the input |
| Text.SplitPrefix | src/main.rs:45 | splitting `a:rest`, with no colon in a, gives a followed by the parts of rest |
| Text.SplitWhole | src/main.rs:45 | a string without a colon splits into itself alone |
| Text.SplitTwo | src/main.rs:45 | `a:b` splits into exactly [a, b] |
| Text.SplitThree | src/main.rs:45 | `a:b:c` splits into exactly [a, b, c] |
| Text.AccumulateDigitsValue | src/main.rs:55 | the `u64` digit loop succeeds exactly on all-digit strings whose value fits in 64 bits, with that value |
| Text.ParseU64Value | src/main.rs:55 | `parse::<u64>` succeeds iff, after an optional `+`, there are one or more digits whose value fits; the result is that value |
| Text.ParseDecimal | src/main.rs:55 | `{}` and `{:02}` output parses back to its value and is unchanged by trimming |
| Text.ParsePlusSign | src/main.rs:55 | a leading `+` is accepted and leaves the value unchanged |
| TimeString.FirstBadField | src/main.rs:52-89 | the index of the first field that does not parse: all fields before it parse and it does not |
| TimeString.Normalize | src/main.rs:93-102 | the seconds and minutes carries keep the total value and leave minutes and seconds below 60 |
| TimeString.FieldsValueSmall | src/main.rs:52-105 | the value of one, two or three fields is s, m*60+s or h*3600+m*60+s |
| TimeString.ParseTimeString | src/main.rs:44-106 | a format error iff there are more than three fields; otherwise success iff every trimmed field is a `u64`; on success the value is h*3600+m*60+s; the older copy, clockit/src/main.rs:34-96, is the same text |
| TimeString.ParseNamesFirstBadField | src/main.rs:52-88 | the error for 1 to 3 fields names the first bad field, left to right: hours, minutes or seconds by position from the end |
| TimeString.ParseThreeFields | src/main.rs:73-105 | three parsed fields h, m, s give h*3600+m*60+s, with or without carries |
| TimeString.ParseTwoFields | src/main.rs:61-105 | two parsed fields m, s give m*60+s |
| TimeString.ParseClockText | src/main.rs:73-105 | `H:MM:SS` text splits into its three fields and parses to h*3600+m*60+s |
| TimeString.ParseMinutesText | src/main.rs:61-105 | `M:SS` text splits into its two fields and parses to m*60+s, whatever the minutes |
| TimeString.ParseCarryExample | src/main.rs:93-96 | "0:75" parses to 75: seconds carry into minutes |
| TimeString.ParseSecondsExample | src/main.rs:54-58 | "61" parses to 61 |
| TimeString.ParseSignExample | src/main.rs:55 | " +5 " parses to 5 |
| TimeString.ParseEmptyExample | src/main.rs:54-58 | "" fails with "Invalid seconds format" |
| TimeString.ParseFourFieldsExample | src/main.rs:89 | "1:2:3:4" is a format error |
| TimeString.ParseLettersExample | src/main.rs:61-65 | "a:b" fails with "Invalid minutes format" |
| TimeString.CountdownText | src/main.rs:240-252 | plain definition of the countdown layout, `{}:{:02}` below 60 minutes and `{}:{:02}:{:02}` from then on; what it means is TimeString.CountdownRoundTrip and TimeString.CountdownHours |
| TimeString.PomodoroText | src/main.rs:518-524 | plain definition of the session layout `{}:{:02}`; what it means is TimeString.PomodoroRoundTrip |
| TimeString.StopwatchText | src/main.rs:619-625 | plain definition of the stopwatch layout `{}:{:02}.{:02}`; what it means is TimeString.StopwatchLayout and TimeString.StopwatchFields |
| TimeString.CountdownRoundTrip | src/main.rs:240-252 | the countdown text parses back to the remaining seconds, from two fields below an hour and three from an hour on |
| TimeString.CountdownHours | clockit/src/main.rs:210-222 | from an hour on, the countdown text has three fields and parses back to the remaining seconds |
| TimeString.PomodoroRoundTrip | src/main.rs:518-524 | the session text always has two fields and parses back to the remaining seconds, however many minutes |
| TimeString.StopwatchLayout | src/main.rs:619-625 | the stopwatch text is the `M:SS` of the whole seconds, a dot, and the two-digit centiseconds |
| TimeString.StopwatchFields | clockit/src/main.rs:319-327 | the stopwatch text ends in a dot and two digits CC with `10*CC <= millis < 10*CC+10`, and the text before the dot parses back to the whole elapsed seconds |
| TimeString.HideColons | src/main.rs:264 | `replace(':', " ")`: the length is kept, every colon becomes a space, and no other character changes |
| TimeString.WithBlink | src/main.rs:255-268 | with blink on, text containing a colon is kept unchanged iff `(elapsed/500)%2==0`; only colons ever change |
| TimeString.BlinkPeriod | src/main.rs:258 | the blink phase flips every 500 ms and depends only on the 500 ms window |
| Digit.GetDigit | src/digit.rs:6-86 | every glyph is 5 rows of 5 columns, and any value above 9 gives the blank glyph |
| Digit.Colon | src/digit.rs:89-97 | 5×5; marks on rows 1 and 3 only |
| Digit.Dot | src/digit.rs:100-108 | 5×5; its only mark is on the last row |
| Digit.CombineDigits | src/digit.rs:111-122 | height of the first glyph (0 for none); row i is the in-order concatenation of row i of every glyph |
| Digit.RenderTime | src/digit.rs:125-153 | the frame is the text's glyphs (one per character, in order: digit, colon, dot, or blank) combined row by row |
| Digit.RowOfConcat | src/digit.rs:115-119 | combining xs then ys gives row i of xs followed by row i of ys |
| Digit.RowOfGlyphs | src/digit.rs:115-119 | each combined row is 5 columns a glyph, and columns 5k..5k+5 hold glyph k's row |
| Digit.RenderedShape | src/digit.rs:125-153 | rendering a non-empty text gives 5 rows of length 5·|s| (none for the empty text); columns 5k..5k+5 are character k's glyph |
| Digit.RenderedConcat | src/digit.rs:125-153 | for non-empty a and b, each row of the rendering of a+b is a's row followed by b's |
| Digit.ChangeOneCharacter | src/digit.rs:125-153 | changing character k alters only columns 5k..5k+5 of each row |
| Digit.RecognizeGlyph | src/digit.rs:6-108 | the glyph of a digit, colon or dot reads back as that character, and every other character's glyph reads as a blank, so the glyphs are pairwise distinct |
| Digit.ReadBack | src/digit.rs:125-153 | reading a rendered frame glyph by glyph gives back the text, with unknown characters as blanks |
| Screen.FullPaintRows | src/main.rs:167-177 | the full repaint writes row i at (x, y+i), top to bottom, one write a row |
| Screen.DiffPaintWritesChanged | src/main.rs:181-193 | the partial repaint writes only rows whose text changed, each after clearing its line |
| Screen.DiffPaintCoversChanged | src/main.rs:181-193 | the partial repaint writes every row whose text changed |
| Screen.DiffPaintTopToBottom | src/main.rs:181-193 | the partial repaint's writes go top to bottom |
| Screen.Paint | src/main.rs:167-193 | plain definition of the writes `stable_display` makes: the full repaint when nothing was drawn or the row count changed, else the partial one; what they do to the terminal is Screen.PaintShowsFrame |
| Screen.Display.constructor | src/main.rs:205 | a run loop starts with no frame drawn and no output |
| Screen.Display.Show | src/main.rs:159-197 | `stable_display`: appends the full repaint when nothing was drawn or the row count changed, and the partial one otherwise; then keeps the frame as the one drawn last; the older copy, clockit/src/main.rs:129-167, is the same text |
| Screen.RepeatWritesNothing | src/main.rs:181-196 | drawing the frame drawn last writes nothing |
| Screen.FullPaintEffect | src/main.rs:167-177 | after the full repaint each row shows on its line from column x, and every other cell is unchanged |
| Screen.DiffPaintEffect | src/main.rs:181-193 | after the partial repaint unchanged rows' lines and lines outside the frame are untouched; a changed row's line shows the new text from column x |
| Screen.PaintShowsFrame | src/main.rs:159-197 | after `stable_display` the terminal shows the new frame at (x, y), given it showed the previous one there, and lines outside the frame are untouched |
| Session.RemainingSecs | src/main.rs:240-241 | `(end_time - now).as_secs()`: the whole seconds left, truncated, so that r·1000 <= remaining ms < r·1000 + 1000, and never more than the total |
| Session.StepOf | src/main.rs:224-268 | plain definition of one pass: a quit key first, then the clock, else the text to draw; its properties are Session.QuitEndsRun, Session.RunStops and Session.TimerEndsWithoutQuit |
| Session.StopIndexIsFirstStop | src/main.rs:222-286 | every pass before the stop index draws, and the pass at the index ends the run |
| Session.RunWritesDraw | src/main.rs:270-282 | a drawing pass paints its rendered frame centred, then hands it on as the frame drawn last |
| Session.RunStops | src/main.rs:224-238 | a pass that does not draw ends the run with no further output: UserQuit on a quit key, otherwise TimeUp |
| Session.DrawCentred | src/main.rs:270-282 | render, centre with `(term - size) / 2`, and draw through `stable_display` |
| Session.Run | src/main.rs:222-286 | the run loop's outcome, the pass it stops at and its output equal the pass-by-pass specification |
| Session.RunOutcomeAtStop | src/main.rs:222-238 | the run ends at its stop pass: UserQuit on a quit key there, TimeUp on an expired clock |
| Session.QuitEndsRun | src/main.rs:224-231 | a quit key ends the run by its pass, and the key is tested before the clock |
| Session.StopwatchNeverTimesUp | src/main.rs:606-658 | only a quit key ends the stopwatch |
| Session.TimerEndsWithoutQuit | src/main.rs:233-238 | with no quit key, a countdown ends with TimeUp by the first pass at or past its end |
| Session.DrawnTextOnGlyphs | src/main.rs:240-271 | every text a pass draws uses only digits, colons, dots and blanks |
| Session.DrawnFrameReadsBack | src/main.rs:270-271 | every drawn frame reads back, glyph by glyph, as the text it renders |
| Session.CountdownFrameShowsRemaining | src/main.rs:240-282 | the frame a countdown pass draws, read back and parsed, gives the whole seconds remaining, whenever the colons are shown |
| Session.SessionFrameShowsRemaining | src/main.rs:518-546 | the frame a Pomodoro pass draws, read back and parsed, gives the whole seconds remaining, whenever the colons are shown |
| Session.SteadyPassWritesNothing | src/main.rs:281-282 | a pass that draws the same text again writes nothing |
| Config.LowerChar | src/config.rs:242 | `to_lowercase` of a character: A-Z map to a-z, and the only other character that becomes ASCII is the Kelvin sign |
| Config.Lower | src/config.rs:242 | lowercasing keeps the length and lowercases each character |
| Config.ParseColor | src/config.rs:241-264 | plain definition: the table looked up on the lowercased name; its properties are Config.UnknownColorIsReset, Config.ColorNameRoundTrip and Config.ParseColorIgnoresCase |
| Config.UnknownColorIsReset | src/config.rs:259-262 | `parse_color` gives Reset exactly when the lowercased name is not in the table; the older table, clockit/src/config.rs:155-178, is the same |
| Config.UnlistedIsReset | src/config.rs:243-262 | the table gives Reset exactly for names it does not list |
| Config.ColorNameRoundTrip | src/config.rs:243-262 | every colour has a name that parses back to it: its table entry, and an unlisted name for Reset |
| Config.ParseColorIgnoresCase | src/config.rs:242 | upper-casing a name does not change its colour |
| Config.DarkGreyAlias | src/config.rs:249 | "dark_grey" and "dark_gray" both give DarkGrey |
| Config.GreyAlias | src/config.rs:254 | "grey" and "gray" both give Grey |
| Config.CountdownColor | src/config.rs:267-269 | plain definition: `parse_color` of the countdown field; its fallback is Config.AccessorsFallBack |
| Config.StopwatchColor | src/config.rs:272-274 | plain definition: `parse_color` of the stopwatch field; its fallback is Config.AccessorsFallBack |
| Config.TimesUpColor | src/config.rs:277-279 | plain definition: `parse_color` of the time's-up field; its fallback is Config.AccessorsFallBack |
| Config.UiTextColor | src/config.rs:282-284 | plain definition: `parse_color` of the interface-text field; its fallback is Config.AccessorsFallBack |
| Config.PomodoroWorkColor | src/config.rs:287-289 | plain definition: `parse_color` of the work-session field; its fallback is Config.AccessorsFallBack |
| Config.PomodoroBreakColor | src/config.rs:292-294 | plain definition: `parse_color` of the break field; its fallback is Config.AccessorsFallBack |
| Config.AccessorsFallBack | src/config.rs:267-294 | each of the six accessors gives Reset exactly when its field's lowercased name is not in the table |
| Config.DefaultColors | src/config.rs:138-149 | the default colours are cyan, green, red, grey, red and green |
| Config.DefaultSettings | src/config.rs:126-173 | blink is off by default, with 200 ms countdown and 100 ms stopwatch refresh, and the Pomodoro defaults are 25, 5, 0, false and 200 |
| LegacyConfig.LegacyAccessorsFallBack | clockit/src/config.rs:181-198 | each of the four older accessors gives Reset exactly when its field's lowercased name is not in the table |
| LegacyConfig.LegacyDefaults | clockit/src/config.rs:26-94 | the older defaults are cyan, green, red and grey, no blink, and 200 ms and 100 ms refresh |
| Timer.FirstQuitWindow | src/main.rs:339-350 | the first flash window with a quit key: none before it, and one at it |
| Timer.ShowTimeUp | src/main.rs:297-385 | a quit key during flash i ends after i+1 frames; otherwise 5 flashes and the final banner; it returns whether a quit key came |
| Timer.FlashPattern | src/main.rs:317-335 | the five flash frames are on, off, on, off, on: frame i shows the banner exactly when i is even |
| Timer.RunCountdown | src/main.rs:199-295 | the countdown loop in the countdown colour; the time-up banner is shown iff the time ran out, with exactly `show_time_up`'s frames (the flashes up to the window with a quit key, or all five and the final banner); then "Timer complete!" |
| Timer.RunStopwatch | src/main.rs:584-667 | the stopwatch loop in the stopwatch colour, never ending by time; then "Stopwatch stopped!" |
| Timer.FirstUnfinishedIsFirst | src/main.rs:402-423 | every session before it ran to its end, and it did not |
| Timer.RunPomodoroSession | src/main.rs:472-551 | the session loop; it completes exactly when its time runs out |
| Timer.StartSession | src/main.rs:402-423 | one session run appends its name and screens to those of the sessions before it; it completes exactly when its outcome is TimeUp, and then the first unfinished session lies further on, otherwise it is this one |
| Timer.RunCycle | src/main.rs:402-423 | one cycle runs the work session and, unless the input ends or a session is quit, the break; it stops exactly at the first unfinished session, with that session's outcome, and otherwise moves on by two sessions |
| Timer.PomodoroStops | src/main.rs:402-423 | when the first unfinished session is k, k+1 sessions were started and the run ends with session k's outcome; with every session finished, the input ran out |
| Timer.RunPomodoro | src/main.rs:387-432 | sessions run in work/break order until one is quit; the cycle count is half the finished sessions; the names, screens and `Completed N full cycles` report match |
| Timer.PomodoroNeverTimesUp | src/main.rs:402-423 | the Pomodoro loop never ends by time |
| Timer.QuitEndsPomodoro | src/main.rs:405-416 | a quit key in session k ends the run there: k+1 sessions started, outcome UserQuit |
| Timer.CountedCyclesComplete | src/main.rs:421-430 | every counted cycle had its work session and its break run to their end |
| Timer.QuitInBreakNotCounted | src/main.rs:414-430 | a quit in the break of cycle c+1 reports c cycles |
| Timer.OnlyTicksMatter | src/main.rs:402-423 | whether sessions complete depends only on their own passes |
| Timer.PhaseKeysIgnored | src/main.rs:410-419 | the keys at "Complete!" and at a phase change alter nothing: `display_phase_change` returns false for a quit key, but the loop discards that result, so the cycle goes on |
| Timer.Dispatch | src/main.rs:108-156 | `--init-config` first, then `-p`, then `-c`, then `-s`; a countdown starts iff the time parses to a non-zero value; a parse error prints its message |
| Timer.CountdownShadowsStopwatch | src/main.rs:132-151 | with `-c` given, the stopwatch never starts |
| Timer.CountdownExample | src/main.rs:132-146 | `-c 0:75 -s` starts a 75-second countdown |
| Timer.BadCountdownExample | src/main.rs:140-143 | `-c a:b` stops with the minutes parse error |
| Legacy.Dispatch | clockit/src/main.rs:98-126 | `-c` first, then `-s`; a countdown starts iff the time parses to a non-zero value; never a Pomodoro |
| Legacy.NewerDispatchAgrees | clockit/src/main.rs:98-126 | without `-p` or `--init-config`, the newer dispatch gives exactly the older one's action, except that with neither `-c` nor `-s` both print their own usage line |
| Legacy.Utf8Len | clockit/src/main.rs:259 | `str::len` counts UTF-8 bytes, at least one a character |
| Legacy.Utf8LenConcat | clockit/src/main.rs:259 | byte lengths add over concatenation |
| Legacy.BannerWidths | clockit/src/main.rs:252-259 | the banner's first line is 24 characters but 64 bytes |
| Legacy.BannerOffCentre | clockit/src/main.rs:258-263 | as written, the banner starts at column 8 on 80 columns instead of 28, and wraps to 32756 on 40 columns |
| Legacy.BannerCentred | clockit/src/main.rs:258-263 | the corrected column centres the 24-column banner with margins differing by at most one, and is 0 where it does not fit |
| Legacy.BannerRowAsWritten | clockit/src/main.rs:259-262 | as written, the banner line is the centred one where three lines fit, and wraps to line 32766 or beyond below 3 lines |
| Legacy.BannerRowCentred | clockit/src/main.rs:259-262 | the corrected line centres the three lines, with at most one more line below, and is 0 where they do not fit |
| Legacy.ShowTimeUp | clockit/src/main.rs:251-284 | exactly five frames, the banner on frames 0, 2 and 4, at the corrected column and line |
| Legacy.RunCountdown | clockit/src/main.rs:169-249 | the countdown loop with no blink in cyan; the five flashes iff the time ran out; then "Timer complete!" |
| Legacy.RunStopwatch | clockit/src/main.rs:286-354 | the stopwatch loop with no blink in green, never ending by time; then "Stopwatch stopped!" |

## Left out

- Terminal effects are not modelled: raw mode, the alternate screen, cursor visibility, full-screen clears and flushing. Drawing is modelled only as the row writes of `stable_display`.
- The instruction lines ("Press q or Ctrl+C to exit" and the others) and the "Current: …" session line are left out. So is the hard-coded `DarkGrey` of the older instruction line.
- `event::poll` and `event::read` become inputs: an optional event on each pass, and one event for each blocking read. Non-key events are kept as `OtherEvent`.
- `Instant::now` and `thread::sleep` become the elapsed milliseconds of each pass, so refresh rates and the polling timeouts have no effect in the model.
- `Config::load`, `create_default_config`, `get_config_path`, YAML and clap argument parsing are file and library I/O. The "Loaded configuration" lines `main` prints are output only.
- `clockit/src/config.rs` is not declared as a module by `clockit/src/main.rs`, so the older program never reads it. It is modelled on its own.
- `show_session_complete`'s message screen and `display_phase_change`'s message screen are left out. Only the key each one reads is modelled.
- The newer `show_time_up`'s banner centring (a fixed width of 27 with saturating subtraction) is not modelled; the model records only which frames show the banner.
- The message centring with `saturating_sub` in `display_phase_change` and `show_session_complete` is left out with those screens.
- Sound, the Pomodoro `cycles` and `refresh_rate` settings and the Pomodoro colour accessors are never used by the run loops, so they appear only as configuration values.
- `Session.Outcome.InputEnds` exists only in the model. The real loops run until a key or the clock ends them, and a finite list of passes can run out first.
- Session.Run: the centring subtraction `(term - size) / 2` is unsaturated `u16` arithmetic. The model requires that every drawn frame fits the terminal, rather than modelling the wrap or the debug-build panic; `y + i` past 65535 is not modelled either.
- Timer.RunCountdown, Timer.RunStopwatch, Legacy.RunCountdown, Legacy.RunStopwatch and Timer.RunPomodoroSession carry the same fit precondition as Session.Run.
- TimeString.ParseTimeString: the total `hours * 3600 + minutes * 60 + seconds` is computed on unbounded integers. For fields near the `u64` limit the program would overflow (a panic in a debug build, wrap-around in release); each field's own `u64` bound is modelled.
- Session.RemainingSecs: elapsed time and totals are unbounded, so `Duration` overflow for huge totals is not modelled.
- Config.LowerChar: `to_lowercase` is modelled for ASCII and the Kelvin sign, the only non-ASCII character whose lowercase is ASCII. Other characters are left as they are, which never changes which table entry matches.
- Digit.CombineDigits: requires that no glyph is taller than the first. The program would panic indexing `result[i]` at src/digit.rs:117 when a later glyph is taller. `render_time` never reaches that case, since every glyph has 5 rows.
- Timer.ShowTimeUp: the final wait for a quit key is modelled as a finite list of events, so `quit` may be false where the program would still be waiting.
- Timer.RunPomodoro: the loop has no end except a quit key, so the model runs over a finite list of sessions and may stop because the list ends.

## Findings

| source | as written | input that shows it | evidently intended | confidence | as-written member | corrected member |
|---|---|---|---|---|---|---|
| clockit/src/main.rs:258-263 | `show_time_up` centres the banner with `(term_width - time_up_text[0].len()) / 2` in `u16`. `len()` is the UTF-8 byte length (64), not the 24-column display width, and the subtraction is not saturating | an 80-column terminal puts the banner at column 8 instead of 28; a 40-column one wraps the column to 32756 (a debug build panics instead) | centre on the 24-column width, and use column 0 where the banner does not fit (the newer program uses a fixed width and `saturating_sub`) | not executed | Legacy.BannerOffCentre (over Legacy.BannerXAsWritten) | Legacy.BannerCentred (over Legacy.BannerX, used by Legacy.ShowTimeUp) |
| clockit/src/main.rs:259-262 | `show_time_up` places the banner on line `(term_height - text_height) / 2` in `u16`, and that subtraction is not saturating either | a terminal of 2 lines puts the banner on line 32767, off the screen (a debug build panics instead) | use line 0 where the three lines do not fit (the newer program uses `saturating_sub`) | not executed | Legacy.BannerRowAsWritten (over Legacy.BannerYAsWritten) | Legacy.BannerRowCentred (over Legacy.BannerY, used by Legacy.ShowTimeUp) |
