/**
 * Settings of src/config.rs: the colour-name lookup, the colour accessors and
 * the built-in defaults. Reading and writing the YAML file is not modelled.
 */
module Config {
  /** The terminal colours the lookup can produce (crossterm's `Color`). */
  datatype Color =
    | Black | Blue | Cyan | DarkBlue | DarkCyan | DarkGreen | DarkGrey | DarkMagenta
    | DarkRed | DarkYellow | Green | Grey | Magenta | Red | White | Yellow | Reset

  /**
   * One character of Rust's `to_lowercase`, as far as the colour table can
   * tell: ASCII capitals and the Kelvin sign (the one non-ASCII character whose
   * lower case is ASCII) become their ASCII lower case; every other character
   * is kept, which leaves a non-ASCII character non-ASCII as Rust does.
   */
  function LowerChar(c: char): (r: char)
    ensures 'A' <= c <= 'Z' ==> r as int == c as int + 32
    ensures r != c ==> ('A' <= c <= 'Z' || c == '\U{212A}') && 'a' <= r <= 'z'
  {
    if 'A' <= c <= 'Z' then (c as int + 32) as char
    else if c == '\U{212A}' then 'k'
    else c
  }

  /** `str::to_lowercase`, character by character. */
  function Lower(s: string): (r: string)
    ensures |r| == |s|
    ensures forall i | 0 <= i < |s| :: r[i] == LowerChar(s[i])
  {
    if |s| == 0 then [] else Lower(s[..|s| - 1]) + [LowerChar(s[|s| - 1])]
  }

  /** The names the table lists, aliases included. */
  const ColorNames: set<string> := {
    "black", "blue", "cyan", "dark_blue", "dark_cyan", "dark_green", "dark_grey", "dark_gray",
    "dark_magenta", "dark_red", "dark_yellow", "green", "grey", "gray", "magenta", "red",
    "white", "yellow"
  }

  /** `Config::parse_color`: the lower-cased name looked up in the table. */
  function ParseColor(colorName: string): Color {
    Lookup(Lower(colorName))
  }

  /** The lookup is total: a name the table does not list gives `Reset`, and a listed one never does. */
  lemma UnknownColorIsReset(colorName: string)
    ensures ParseColor(colorName) == Reset <==> Lower(colorName) !in ColorNames
  {
    UnlistedIsReset(Lower(colorName));
  }

  /** No arm of the table yields `Reset`; only the fall-through does. */
  lemma UnlistedIsReset(name: string)
    ensures Lookup(name) == Reset <==> name !in ColorNames
  {
  }

  /** The match arms of `parse_color`, tried on the lower-cased name. */
  function Lookup(name: string): Color {
    if name == "black" then Black
    else if name == "blue" then Blue
    else if name == "cyan" then Cyan
    else if name == "dark_blue" then DarkBlue
    else if name == "dark_cyan" then DarkCyan
    else if name == "dark_green" then DarkGreen
    else if name == "dark_grey" || name == "dark_gray" then DarkGrey
    else if name == "dark_magenta" then DarkMagenta
    else if name == "dark_red" then DarkRed
    else if name == "dark_yellow" then DarkYellow
    else if name == "green" then Green
    else if name == "grey" || name == "gray" then Grey
    else if name == "magenta" then Magenta
    else if name == "red" then Red
    else if name == "white" then White
    else if name == "yellow" then Yellow
    else Reset
  }

  /** A name for every colour, in the spelling of the table (`Reset` is not listed, so any unlisted name does). */
  function ColorName(c: Color): string {
    match c
    case Black => "black"
    case Blue => "blue"
    case Cyan => "cyan"
    case DarkBlue => "dark_blue"
    case DarkCyan => "dark_cyan"
    case DarkGreen => "dark_green"
    case DarkGrey => "dark_grey"
    case DarkMagenta => "dark_magenta"
    case DarkRed => "dark_red"
    case DarkYellow => "dark_yellow"
    case Green => "green"
    case Grey => "grey"
    case Magenta => "magenta"
    case Red => "red"
    case White => "white"
    case Yellow => "yellow"
    case Reset => "reset"
  }

  /** Lower-case text is its own lower case. */
  lemma {:induction false} LowerOfLower(s: string)
    requires forall i | 0 <= i < |s| :: !('A' <= s[i] <= 'Z') && s[i] != '\U{212A}'
    ensures Lower(s) == s
  {
    if |s| > 0 {
      LowerOfLower(s[..|s| - 1]);
      assert s == s[..|s| - 1] + [s[|s| - 1]];
    }
  }

  /** Names spelled with lower-case letters and underscores only. */
  predicate IsLowerName(s: string) {
    forall i | 0 <= i < |s| :: 'a' <= s[i] <= 'z' || s[i] == '_'
  }

  lemma ColorNameIsLower(c: Color)
    ensures IsLowerName(ColorName(c))
  {
  }

  /** Every colour is found again under its name: the table and the names agree. */
  lemma ColorNameRoundTrip(c: Color)
    ensures ParseColor(ColorName(c)) == c
  {
    ColorNameIsLower(c);
    LowerOfLower(ColorName(c));
    LookupColorName(c);
  }

  /** The table finds each colour under the name `ColorName` gives it. */
  lemma LookupColorName(c: Color)
    ensures Lookup(ColorName(c)) == c
  {
    if c.DarkBlue? || c.DarkCyan? || c.DarkGreen? || c.DarkGrey? || c.DarkMagenta? || c.DarkRed? || c.DarkYellow? {
      LookupDarkName(c);
    } else {
      LookupPlainName(c);
    }
  }

  lemma LookupDarkName(c: Color)
    requires c.DarkBlue? || c.DarkCyan? || c.DarkGreen? || c.DarkGrey? || c.DarkMagenta? || c.DarkRed? || c.DarkYellow?
    ensures Lookup(ColorName(c)) == c
  {
  }

  lemma LookupPlainName(c: Color)
    requires !(c.DarkBlue? || c.DarkCyan? || c.DarkGreen? || c.DarkGrey? || c.DarkMagenta? || c.DarkRed? || c.DarkYellow?)
    ensures Lookup(ColorName(c)) == c
  {
  }

  /** ASCII upper case of a character. */
  function UpperChar(c: char): char {
    if 'a' <= c <= 'z' then (c as int - 32) as char else c
  }

  /** Lower case undoes upper case, character for character. */
  lemma {:induction false} LowerOfUpper(s: string)
    ensures Lower(seq(|s|, i requires 0 <= i < |s| => UpperChar(s[i]))) == Lower(s)
  {
    var u := seq(|s|, i requires 0 <= i < |s| => UpperChar(s[i]));
    forall i | 0 <= i < |s|
      ensures LowerChar(u[i]) == LowerChar(s[i])
    {
    }
  }

  /** The lookup ignores case: a name in capitals finds the same colour (or `Reset`) as the name itself. */
  lemma ParseColorIgnoresCase(colorName: string)
    ensures ParseColor(seq(|colorName|, i requires 0 <= i < |colorName| => UpperChar(colorName[i]))) ==
      ParseColor(colorName)
  {
    LowerOfUpper(colorName);
  }

  /** Both spellings of dark grey give the same colour. */
  lemma DarkGreyAlias()
    ensures ParseColor("dark_grey") == ParseColor("dark_gray") == DarkGrey
  {
    ColorNameRoundTrip(DarkGrey);
    LowerOfLower("dark_gray");
  }

  /** Both spellings of grey give the same colour. */
  lemma GreyAlias()
    ensures ParseColor("grey") == ParseColor("gray") == Grey
  {
    LowerOfLower("grey");
    LowerOfLower("gray");
  }

  /** `ColorScheme`: one colour name per element of the display. */
  datatype ColorScheme = ColorScheme(
    countdown: string,
    stopwatch: string,
    timesUp: string,
    uiText: string,
    pomodoroWork: string,
    pomodoroBreak: string)

  /** `PomodoroSettings`: durations in minutes, cycle count (0 for no limit), sound, refresh rate in ms. */
  datatype PomodoroSettings = PomodoroSettings(
    workDuration: nat,
    breakDuration: nat,
    cycles: nat,
    soundEnabled: bool,
    refreshRate: nat)

  /** `Config`: colours, separator blink, refresh rates in ms, Pomodoro settings. */
  datatype Config = Config(
    colors: ColorScheme,
    blinkSeparator: bool,
    countdownRefreshRate: nat,
    stopwatchRefreshRate: nat,
    pomodoro: PomodoroSettings)

  /** `ColorScheme::default`. */
  function DefaultColorScheme(): ColorScheme {
    ColorScheme("cyan", "green", "red", "grey", "red", "green")
  }

  /** `PomodoroSettings::default`. */
  function DefaultPomodoroSettings(): PomodoroSettings {
    PomodoroSettings(25, 5, 0, false, 200)
  }

  /** `Config::default`. */
  function DefaultConfig(): Config {
    Config(DefaultColorScheme(), false, 200, 100, DefaultPomodoroSettings())
  }

  /** `Config::countdown_color`. */
  function CountdownColor(config: Config): Color {
    ParseColor(config.colors.countdown)
  }

  /** `Config::stopwatch_color`. */
  function StopwatchColor(config: Config): Color {
    ParseColor(config.colors.stopwatch)
  }

  /** `Config::times_up_color`. */
  function TimesUpColor(config: Config): Color {
    ParseColor(config.colors.timesUp)
  }

  /** `Config::ui_text_color`. */
  function UiTextColor(config: Config): Color {
    ParseColor(config.colors.uiText)
  }

  /** `Config::pomodoro_work_color`. */
  function PomodoroWorkColor(config: Config): Color {
    ParseColor(config.colors.pomodoroWork)
  }

  /** `Config::pomodoro_break_color`. */
  function PomodoroBreakColor(config: Config): Color {
    ParseColor(config.colors.pomodoroBreak)
  }

  /** Each accessor falls back to `Reset` exactly when its name, lower-cased, is not in the table. */
  lemma AccessorsFallBack(config: Config)
    ensures CountdownColor(config) == Reset <==> Lower(config.colors.countdown) !in ColorNames
    ensures StopwatchColor(config) == Reset <==> Lower(config.colors.stopwatch) !in ColorNames
    ensures TimesUpColor(config) == Reset <==> Lower(config.colors.timesUp) !in ColorNames
    ensures UiTextColor(config) == Reset <==> Lower(config.colors.uiText) !in ColorNames
    ensures PomodoroWorkColor(config) == Reset <==> Lower(config.colors.pomodoroWork) !in ColorNames
    ensures PomodoroBreakColor(config) == Reset <==> Lower(config.colors.pomodoroBreak) !in ColorNames
  {
    UnknownColorIsReset(config.colors.countdown);
    UnknownColorIsReset(config.colors.stopwatch);
    UnknownColorIsReset(config.colors.timesUp);
    UnknownColorIsReset(config.colors.uiText);
    UnknownColorIsReset(config.colors.pomodoroWork);
    UnknownColorIsReset(config.colors.pomodoroBreak);
  }

  /**
   * The default colours resolve through the table, none of them to `Reset`:
   * countdown cyan, stopwatch green, time's up red, interface text grey,
   * Pomodoro work red and break green.
   */
  lemma DefaultColors()
    ensures CountdownColor(DefaultConfig()) == Cyan
    ensures StopwatchColor(DefaultConfig()) == Green
    ensures TimesUpColor(DefaultConfig()) == Red
    ensures UiTextColor(DefaultConfig()) == Grey
    ensures PomodoroWorkColor(DefaultConfig()) == Red
    ensures PomodoroBreakColor(DefaultConfig()) == Green
  {
    ColorNameRoundTrip(Cyan);
    ColorNameRoundTrip(Green);
    ColorNameRoundTrip(Red);
    ColorNameRoundTrip(Grey);
  }

  /** The other defaults: no blink, 200 ms and 100 ms refresh, and a 25/5 minute Pomodoro without a cycle limit. */
  lemma DefaultSettings()
    ensures !DefaultConfig().blinkSeparator
    ensures DefaultConfig().countdownRefreshRate == 200 && DefaultConfig().stopwatchRefreshRate == 100
    ensures DefaultConfig().pomodoro == PomodoroSettings(25, 5, 0, false, 200)
  {
  }
}
