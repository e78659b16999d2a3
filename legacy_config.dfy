/**
 * Settings of clockit/src/config.rs, the older copy: four colours, no
 * Pomodoro settings. Its colour table is the same text as in src/config.rs
 * and is modelled once, by `Config.ParseColor`.
 */
module LegacyConfig {
  import opened Config

  /** The older `ColorScheme`: countdown, stopwatch, time's up and interface text. */
  datatype Scheme = Scheme(countdown: string, stopwatch: string, timesUp: string, uiText: string)

  /** The older `Config`: colours, separator blink and the two refresh rates in ms. */
  datatype Settings = Settings(
    colors: Scheme,
    blinkSeparator: bool,
    countdownRefreshRate: nat,
    stopwatchRefreshRate: nat)

  /** `ColorScheme::default`. */
  function DefaultScheme(): Scheme {
    Scheme("cyan", "green", "red", "grey")
  }

  /** `Config::default`. */
  function DefaultSettings(): Settings {
    Settings(DefaultScheme(), false, 200, 100)
  }

  /** `Config::countdown_color`: the colour table applied to the countdown name. */
  function CountdownColor(settings: Settings): Color {
    ParseColor(settings.colors.countdown)
  }

  /** `Config::stopwatch_color`. */
  function StopwatchColor(settings: Settings): Color {
    ParseColor(settings.colors.stopwatch)
  }

  /** `Config::times_up_color`. */
  function TimesUpColor(settings: Settings): Color {
    ParseColor(settings.colors.timesUp)
  }

  /** `Config::ui_text_color`. */
  function UiTextColor(settings: Settings): Color {
    ParseColor(settings.colors.uiText)
  }

  /** Each accessor falls back to `Reset` exactly when its name, lower-cased, is not in the table. */
  lemma LegacyAccessorsFallBack(settings: Settings)
    ensures CountdownColor(settings) == Reset <==> Lower(settings.colors.countdown) !in ColorNames
    ensures StopwatchColor(settings) == Reset <==> Lower(settings.colors.stopwatch) !in ColorNames
    ensures TimesUpColor(settings) == Reset <==> Lower(settings.colors.timesUp) !in ColorNames
    ensures UiTextColor(settings) == Reset <==> Lower(settings.colors.uiText) !in ColorNames
  {
    UnknownColorIsReset(settings.colors.countdown);
    UnknownColorIsReset(settings.colors.stopwatch);
    UnknownColorIsReset(settings.colors.timesUp);
    UnknownColorIsReset(settings.colors.uiText);
  }

  /**
   * The older defaults: cyan, green, red and grey, none of them `Reset`; no
   * blink, 200 ms countdown and 100 ms stopwatch refresh.
   */
  lemma LegacyDefaults()
    ensures CountdownColor(DefaultSettings()) == Cyan
    ensures StopwatchColor(DefaultSettings()) == Green
    ensures TimesUpColor(DefaultSettings()) == Red
    ensures UiTextColor(DefaultSettings()) == Grey
    ensures !DefaultSettings().blinkSeparator
    ensures DefaultSettings().countdownRefreshRate == 200 && DefaultSettings().stopwatchRefreshRate == 100
  {
    ColorNameRoundTrip(Cyan);
    ColorNameRoundTrip(Green);
    ColorNameRoundTrip(Red);
    ColorNameRoundTrip(Grey);
  }
}
