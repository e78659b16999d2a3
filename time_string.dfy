/**
 * Durations as text: `parse_time_string`, and the display strings that the
 * run loops build inline (countdown, Pomodoro session, stopwatch) together
 * with the separator blink. The parser and the countdown and stopwatch
 * formats are the same text in src/main.rs and clockit/src/main.rs.
 */
module TimeString {
  import opened Wrappers
  import opened Text

  /** The four error strings `parse_time_string` can return. */
  datatype TimeError = InvalidHours | InvalidMinutes | InvalidSeconds | InvalidFormat

  function Message(e: TimeError): string {
    match e
    case InvalidHours => "Invalid hours format"
    case InvalidMinutes => "Invalid minutes format"
    case InvalidSeconds => "Invalid seconds format"
    case InvalidFormat => "Invalid time format. Use HH:MM:SS, MM:SS, or SS"
  }

  /** One colon-separated field: trimmed, then parsed as a `u64`. */
  function Field(part: string): Option<nat> {
    ParseU64(Trim(part))
  }

  predicate AllFieldsParse(parts: seq<string>) {
    forall i | 0 <= i < |parts| :: Field(parts[i]).Some?
  }

  /** Index of the first field, left to right, that does not parse; |parts| when all do. */
  function FirstBadField(parts: seq<string>): (k: nat)
    ensures k <= |parts|
    ensures forall i | 0 <= i < k :: Field(parts[i]).Some?
    ensures k < |parts| ==> Field(parts[k]).None?
  {
    if |parts| == 0 || Field(parts[0]).None? then 0 else 1 + FirstBadField(parts[1..])
  }

  /**
   * The error named for field k of a time string with n fields: the last field
   * holds seconds, the one before it minutes, the one before that hours.
   */
  function FieldError(n: nat, k: nat): TimeError
    requires 1 <= n <= 3 && k < n
  {
    var unit := 3 - n + k;
    if unit == 0 then InvalidHours else if unit == 1 then InvalidMinutes else InvalidSeconds
  }

  /**
   * Positional base-60 value of the fields, all of which parse: the last counts
   * seconds, the one before it minutes, the one before that hours.
   */
  function FieldsValue(parts: seq<string>): nat
    requires AllFieldsParse(parts)
  {
    if |parts| == 0 then 0
    else FieldsValue(parts[..|parts| - 1]) * 60 + Field(parts[|parts| - 1]).value
  }

  datatype Clock = Clock(hours: nat, minutes: nat, seconds: nat)

  function TotalSeconds(c: Clock): nat {
    c.hours * 3600 + c.minutes * 60 + c.seconds
  }

  /**
   * The overflow handling of `parse_time_string`: seconds of 60 or more carry
   * into minutes, then minutes of 60 or more carry into hours. The carry keeps
   * the value and leaves minutes and seconds below 60.
   */
  function Normalize(hours: nat, minutes: nat, seconds: nat): (c: Clock)
    ensures c.minutes < 60 && c.seconds < 60
    ensures TotalSeconds(c) == hours * 3600 + minutes * 60 + seconds
  {
    var minutes', seconds' :=
      if seconds >= 60 then minutes + seconds / 60 else minutes,
      if seconds >= 60 then seconds % 60 else seconds;
    var hours', minutes'' :=
      if minutes' >= 60 then hours + minutes' / 60 else hours,
      if minutes' >= 60 then minutes' % 60 else minutes';
    assert minutes' * 60 + seconds' == minutes * 60 + seconds;
    assert hours' * 3600 + minutes'' * 60 == hours * 3600 + minutes' * 60;
    Clock(hours', minutes'', seconds')
  }

  /** The value of one, two or three fields, spelled out. */
  lemma FieldsValueSmall(parts: seq<string>)
    requires 1 <= |parts| <= 3 && AllFieldsParse(parts)
    ensures |parts| == 1 ==> FieldsValue(parts) == Field(parts[0]).value
    ensures |parts| == 2 ==> FieldsValue(parts) == Field(parts[0]).value * 60 + Field(parts[1]).value
    ensures |parts| == 3 ==>
      FieldsValue(parts) == Field(parts[0]).value * 3600 + Field(parts[1]).value * 60 + Field(parts[2]).value
  {
    assert FieldsValue(parts[..0]) == 0;
    if |parts| >= 2 {
      assert parts[..2][..1] == parts[..1];
    }
    if |parts| == 3 {
      assert parts[..3] == parts && parts[..2][..1] == parts[..1];
    }
  }

  /**
   * `parse_time_string`: `SS`, `MM:SS` or `HH:MM:SS` to total seconds. A field
   * count other than 1, 2 or 3 is a format error; otherwise the fields are read
   * left to right and the first one that is not a `u64` is named in the error.
   * On success the result is the base-60 value of the fields.
   */
  function ParseTimeString(s: string): (r: Result<nat, TimeError>)
    ensures r == Failure(InvalidFormat) <==> |Split(s, ':')| > 3
    ensures |Split(s, ':')| <= 3 ==> (r.Success? <==> AllFieldsParse(Split(s, ':')))
    ensures r.Success? ==> AllFieldsParse(Split(s, ':')) && r.value == FieldsValue(Split(s, ':'))
  {
    ParseFields(Split(s, ':'))
  }

  /** `parse_time_string` after the split on ':', given the fields. */
  function ParseFields(parts: seq<string>): (r: Result<nat, TimeError>)
    requires |parts| >= 1
    ensures r == Failure(InvalidFormat) <==> |parts| > 3
    ensures |parts| <= 3 ==> (r.Success? <==> AllFieldsParse(parts))
    ensures r.Success? ==> AllFieldsParse(parts) && r.value == FieldsValue(parts)
  {
    if |parts| == 1 then
      match Field(parts[0])
      case None => Failure(InvalidSeconds)
      case Some(seconds) =>
        FieldsValueSmall(parts);
        Success(TotalSeconds(Normalize(0, 0, seconds)))
    else if |parts| == 2 then
      match Field(parts[0])
      case None => Failure(InvalidMinutes)
      case Some(minutes) =>
        match Field(parts[1])
        case None => Failure(InvalidSeconds)
        case Some(seconds) =>
          FieldsValueSmall(parts);
          Success(TotalSeconds(Normalize(0, minutes, seconds)))
    else if |parts| == 3 then
      match Field(parts[0])
      case None => Failure(InvalidHours)
      case Some(hours) =>
        match Field(parts[1])
        case None => Failure(InvalidMinutes)
        case Some(minutes) =>
          match Field(parts[2])
          case None => Failure(InvalidSeconds)
          case Some(seconds) =>
            FieldsValueSmall(parts);
            Success(TotalSeconds(Normalize(hours, minutes, seconds)))
    else
      Failure(InvalidFormat)
  }

  /** An error for a well-shaped string names the first field, left to right, that is not a `u64`. */
  lemma ParseNamesFirstBadField(s: string)
    requires |Split(s, ':')| <= 3
    requires !AllFieldsParse(Split(s, ':'))
    ensures FirstBadField(Split(s, ':')) < |Split(s, ':')|
    ensures ParseTimeString(s) == Failure(FieldError(|Split(s, ':')|, FirstBadField(Split(s, ':'))))
  {
  }

  /** Three fields that parse give their base-60 value, normalised or not. */
  lemma ParseThreeFields(s: string, h: nat, m: nat, sec: nat)
    requires |Split(s, ':')| == 3
    requires Field(Split(s, ':')[0]) == Some(h)
    requires Field(Split(s, ':')[1]) == Some(m)
    requires Field(Split(s, ':')[2]) == Some(sec)
    ensures ParseTimeString(s) == Success(h * 3600 + m * 60 + sec)
  {
  }

  /** Two fields that parse give minutes * 60 + seconds. */
  lemma ParseTwoFields(s: string, m: nat, sec: nat)
    requires |Split(s, ':')| == 2
    requires Field(Split(s, ':')[0]) == Some(m)
    requires Field(Split(s, ':')[1]) == Some(sec)
    ensures ParseTimeString(s) == Success(m * 60 + sec)
  {
  }

  /** `HH:MM:SS` with minutes and seconds below 60 parses to h*3600 + m*60 + s. */
  lemma ParseClockText(h: nat, m: nat, s: nat)
    requires h <= U64_MAX && m < 60 && s < 60
    ensures Split(Decimal(h) + ":" + Pad2(m) + ":" + Pad2(s), ':') == [Decimal(h), Pad2(m), Pad2(s)]
    ensures ParseTimeString(Decimal(h) + ":" + Pad2(m) + ":" + Pad2(s)) == Success(h * 3600 + m * 60 + s)
  {
    var text := Decimal(h) + ":" + Pad2(m) + ":" + Pad2(s);
    DigitsExclude(Decimal(h), ':');
    DigitsExclude(Pad2(m), ':');
    DigitsExclude(Pad2(s), ':');
    SplitThree(Decimal(h), Pad2(m), Pad2(s), ':');
    ParseDecimal(h);
    ParseDecimal(m);
    ParseDecimal(s);
    ParseThreeFields(text, h, m, s);
  }

  lemma ClockTextAt(t: string, h: nat, m: nat, s: nat)
    requires h <= U64_MAX && m < 60 && s < 60
    requires t == Decimal(h) + ":" + Pad2(m) + ":" + Pad2(s)
    ensures |Split(t, ':')| == 3
    ensures ParseTimeString(t) == Success(h * 3600 + m * 60 + s)
  {
    ParseClockText(h, m, s);
  }

  /** `MM:SS` with seconds below 60 parses to m*60 + s, whatever the minutes. */
  lemma ParseMinutesText(m: nat, s: nat)
    requires m <= U64_MAX && s < 60
    ensures Split(Decimal(m) + ":" + Pad2(s), ':') == [Decimal(m), Pad2(s)]
    ensures ParseTimeString(Decimal(m) + ":" + Pad2(s)) == Success(m * 60 + s)
  {
    var text := Decimal(m) + ":" + Pad2(s);
    DigitsExclude(Decimal(m), ':');
    DigitsExclude(Pad2(s), ':');
    SplitTwo(Decimal(m), Pad2(s), ':');
    ParseDecimal(m);
    ParseDecimal(s);
    ParseTwoFields(text, m, s);
  }

  lemma FieldZero()
    ensures Field("0") == Some(0)
  {
    assert Trim("0") == "0";
    AccumulateDigitsValue("0");
  }

  lemma FieldSeventyFive()
    ensures Field("75") == Some(75)
  {
    assert Trim("75") == "75";
    assert DigitsValue("75") == 75 by { assert "75"[..1] == "7"; }
    AccumulateDigitsValue("75");
  }

  lemma SplitCarryExample()
    ensures Split("0:75", ':') == ["0", "75"]
  {
    assert "0:75" == "0" + [':'] + "75";
    SplitTwo("0", "75", ':');
  }

  /** Seconds of 60 or more carry into minutes and keep the value. */
  lemma ParseCarryExample()
    ensures ParseTimeString("0:75") == Success(75)
  {
    SplitCarryExample();
    FieldZero();
    FieldSeventyFive();
    ParseTwoFields("0:75", 0, 75);
  }

  /** A lone seconds field of 60 or more is accepted as it is. */
  lemma ParseSecondsExample()
    ensures ParseTimeString("61") == Success(61)
  {
    assert Field("61") == Some(61) by {
      assert Trim("61") == "61";
      assert DigitsValue("61") == 61 by { assert "61"[..1] == "6"; }
      AccumulateDigitsValue("61");
    }
    SplitWhole("61", ':');
  }

  /** Whitespace around a field and a leading `+` are accepted. */
  lemma ParseSignExample()
    ensures ParseTimeString(" +5 ") == Success(5)
  {
    SplitWhole(" +5 ", ':');
    assert TrimStart(" +5 ") == "+5 ";
    assert TrimEnd("+5 ") == "+5" by { assert "+5 "[..2] == "+5"; }
    assert "+5"[1..] == "5";
    AccumulateDigitsValue("5");
  }

  /** An empty string is one empty field, which is not a number of seconds. */
  lemma ParseEmptyExample()
    ensures ParseTimeString("") == Failure(InvalidSeconds)
  {
    assert Split("", ':') == [""];
  }

  /** Four fields are a format error, whatever they hold. */
  lemma ParseFourFieldsExample()
    ensures ParseTimeString("1:2:3:4") == Failure(InvalidFormat)
  {
    assert "1:2:3:4" == "1" + [':'] + "2:3:4";
    assert "2:3:4" == "2" + [':'] + "3" + [':'] + "4";
    SplitPrefix("1", ':', "2:3:4");
    SplitThree("2", "3", "4", ':');
  }

  /** With two fields, a bad first field is reported as the minutes. */
  lemma ParseLettersExample()
    ensures ParseTimeString("a:b") == Failure(InvalidMinutes)
  {
    assert Split("a:b", ':') == ["a", "b"] by {
      assert "a:b" == "a" + [':'] + "b";
      SplitTwo("a", "b", ':');
    }
    assert Field("a") == None by {
      assert Trim("a") == "a";
      AccumulateDigitsValue("a");
    }
  }

  /** Countdown display: `M:SS` while the remaining minutes are below 60, else `H:MM:SS`. */
  function CountdownText(remainingSecs: nat): string {
    var minutes := remainingSecs / 60;
    var seconds := remainingSecs % 60;
    if minutes >= 60 then Decimal(minutes / 60) + ":" + Pad2(minutes % 60) + ":" + Pad2(seconds)
    else Decimal(minutes) + ":" + Pad2(seconds)
  }

  /** Pomodoro session display: always `M:SS`, minutes unbounded. */
  function PomodoroText(remainingSecs: nat): string {
    Decimal(remainingSecs / 60) + ":" + Pad2(remainingSecs % 60)
  }

  /** Stopwatch display: `M:SS.CC`, CC the sub-second milliseconds divided by 10. */
  function StopwatchText(elapsedMs: nat): string {
    var secs := elapsedMs / 1000;
    Decimal(secs / 60) + ":" + Pad2(secs % 60) + "." + Pad2(elapsedMs % 1000 / 10)
  }

  /**
   * The countdown text reads back, through the parser, as the remaining seconds,
   * with two fields below an hour and three from an hour on.
   */
  lemma CountdownRoundTrip(remainingSecs: nat)
    requires remainingSecs <= U64_MAX
    ensures ParseTimeString(CountdownText(remainingSecs)) == Success(remainingSecs)
    ensures |Split(CountdownText(remainingSecs), ':')| == if remainingSecs < 3600 then 2 else 3
  {
    if remainingSecs >= 3600 {
      CountdownHours(remainingSecs);
    } else {
      assert CountdownText(remainingSecs) == PomodoroText(remainingSecs);
      PomodoroRoundTrip(remainingSecs);
    }
  }

  /** From an hour on, the countdown text is `H:MM:SS` and reads back as the remaining seconds. */
  lemma CountdownHours(remainingSecs: nat)
    requires 3600 <= remainingSecs <= U64_MAX
    ensures |Split(CountdownText(remainingSecs), ':')| == 3
    ensures ParseTimeString(CountdownText(remainingSecs)) == Success(remainingSecs)
  {
    var minutes, seconds := remainingSecs / 60, remainingSecs % 60;
    var h, m := minutes / 60, minutes % 60;
    assert h * 3600 + m * 60 + seconds == remainingSecs by {
      assert minutes * 60 + seconds == remainingSecs;
      assert h * 60 + m == minutes;
    }
    ClockTextAt(CountdownText(remainingSecs), h, m, seconds);
  }

  /** The Pomodoro text reads back as the remaining seconds, from two fields, at any magnitude. */
  lemma PomodoroRoundTrip(remainingSecs: nat)
    requires remainingSecs <= U64_MAX
    ensures ParseTimeString(PomodoroText(remainingSecs)) == Success(remainingSecs)
    ensures |Split(PomodoroText(remainingSecs), ':')| == 2
  {
    var m, s := remainingSecs / 60, remainingSecs % 60;
    assert m * 60 + s == remainingSecs;
    assert PomodoroText(remainingSecs) == Decimal(m) + ":" + Pad2(s);
    ParseMinutesText(m, s);
  }

  /** The stopwatch text is the Pomodoro text of the whole seconds, a dot, and two digits. */
  lemma StopwatchLayout(elapsedMs: nat)
    ensures StopwatchText(elapsedMs) == PomodoroText(elapsedMs / 1000) + "." + Pad2(elapsedMs % 1000 / 10)
  {
  }

  /**
   * The stopwatch text is `M:SS` of the whole elapsed seconds, a dot, and two
   * digits CC with 10*CC <= the sub-second milliseconds < 10*CC + 10 (truncated).
   */
  lemma StopwatchFields(elapsedMs: nat)
    requires elapsedMs / 1000 <= U64_MAX
    ensures var t := StopwatchText(elapsedMs);
      && |t| >= 7 && t[|t| - 3] == '.'
      && AllDigits(t[|t| - 2..])
      && DigitsValue(t[|t| - 2..]) * 10 <= elapsedMs % 1000 < DigitsValue(t[|t| - 2..]) * 10 + 10
      && ParseTimeString(t[..|t| - 3]) == Success(elapsedMs / 1000)
  {
    var head := PomodoroText(elapsedMs / 1000);
    var cc := Pad2(elapsedMs % 1000 / 10);
    var t := StopwatchText(elapsedMs);
    StopwatchLayout(elapsedMs);
    assert |cc| == 2 && |head| >= 4;
    assert t[|t| - 2..] == cc;
    assert t[..|t| - 3] == head;
    PomodoroRoundTrip(elapsedMs / 1000);
  }

  /** Rust's `replace(':', " ")`: every colon becomes a space, nothing else changes. */
  function HideColons(s: string): (r: string)
    ensures |r| == |s|
    ensures forall i | 0 <= i < |s| :: r[i] == if s[i] == ':' then ' ' else s[i]
  {
    if |s| == 0 then [] else HideColons(s[..|s| - 1]) + [if s[|s| - 1] == ':' then ' ' else s[|s| - 1]]
  }

  /** Blink phase: on during even half-second windows counted from the session start. */
  predicate BlinkOn(elapsedMs: nat) {
    (elapsedMs / 500) % 2 == 0
  }

  /**
   * The string handed to the glyph renderer. With blinking enabled the text is
   * kept as it is exactly in the "on" windows; in the others every colon is blanked.
   */
  function WithBlink(enabled: bool, elapsedMs: nat, text: string): (r: string)
    ensures |r| == |text|
    ensures forall i | 0 <= i < |text| :: text[i] != ':' ==> r[i] == text[i]
    ensures forall i | 0 <= i < |text| :: text[i] == ':' ==> (r[i] == ':' <==> !enabled || BlinkOn(elapsedMs))
    ensures ':' in text ==> (r == text <==> !enabled || BlinkOn(elapsedMs))
  {
    if enabled && !BlinkOn(elapsedMs) then
      var r := HideColons(text);
      assert ':' in text ==> r != text by {
        if ':' in text {
          var i :| 0 <= i < |text| && text[i] == ':';
          assert r[i] == ' ';
        }
      }
      r
    else text
  }

  /** The blink phase flips every 500 ms and is constant within each 500 ms window. */
  lemma BlinkPeriod(elapsedMs: nat)
    ensures BlinkOn(elapsedMs + 500) <==> !BlinkOn(elapsedMs)
    ensures BlinkOn(elapsedMs) <==> BlinkOn(elapsedMs / 500 * 500)
  {
    assert (elapsedMs + 500) / 500 == elapsedMs / 500 + 1;
    assert elapsedMs / 500 * 500 / 500 == elapsedMs / 500;
  }
}
