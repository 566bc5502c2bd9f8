/** The pure helpers of the focus module: the `MM:SS` clock text, the
    h/m/s worked-time text and the progress percentage. */
module FocusFormat {
  import opened Wrappers
  import opened JsText
  import opened Tasks
  import Timing

  // ----- formatTime -----

  /** `formatTime`: whole minutes and the remaining seconds, each padded
      with zeros to two digits, joined by a colon. */
  function FormatTime(seconds: nat): (r: string)
    ensures |r| >= 5 && r[|r| - 3] == ':'
    ensures seconds < 6000 ==> |r| == 5
  {
    var mins := seconds / 60;
    var secs := seconds % 60;
    NatToStringLength(secs);
    NatToStringLength(mins);
    assert seconds < 6000 ==> mins < 100;
    var m := PadStart2(NatToString(mins));
    var sec := PadStart2(NatToString(secs));
    ClockShape(m, sec);
    m + (":" + sec)
  }

  /** The minutes field has no leading zero beyond the padding: the clock
      text starts with `0` exactly below ten minutes, so 100 minutes read
      `100:00`. */
  lemma FormatTimeLeadingZero(seconds: nat)
    ensures FormatTime(seconds)[0] == '0' <==> seconds < 600
  {
    var m := PadStart2(NatToString(seconds / 60));
    var sec := PadStart2(NatToString(seconds % 60));
    NatToStringLength(seconds % 60);
    LeadingZeroOnlyBelowTen(seconds / 60);
    ClockShape(m, sec);
  }

  /** The layout of `<minutes>:<seconds>` with a two-digit seconds field. */
  lemma ClockShape(m: string, sec: string)
    requires |m| >= 2 && |sec| == 2
    ensures var r := m + (":" + sec);
            |r| == |m| + 3 && r[|r| - 3] == ':' && r[0] == m[0]
  {
  }

  /** The padded minutes field starts with a zero exactly for a one-digit
      count: `toString` writes no leading zero. */
  lemma LeadingZeroOnlyBelowTen(n: nat)
    ensures PadStart2(NatToString(n))[0] == '0' <==> n < 10
  {
    NatToStringLength(n);
    NatToStringSpec(n);
  }

  /** Reads a clock text back: digits, a colon and exactly two digits. */
  function ClockValue(r: string): Option<nat>
  {
    var k := DigitPrefixLength(r, 10);
    if 0 < k && k + 3 == |r| && r[k] == ':' && IsDigit(r[k + 1], 10) && IsDigit(r[k + 2], 10)
    then Some(DigitsValue(r[..k], 10) * 60 + DigitsValue(r[k + 1..], 10))
    else None
  }

  /** The value of the minutes field: the digits before the colon. */
  function ClockMinutes(r: string): nat
    requires |r| >= 3
  {
    DigitsValue(r[..|r| - 3], 10)
  }

  /** The value of the seconds field: the last two digits. */
  function ClockSeconds(r: string): nat
    requires |r| >= 2
  {
    DigitsValue(r[|r| - 2..], 10)
  }

  /** The minutes field of the clock text is `seconds / 60` and the seconds
      field `seconds % 60`, so reading the text back gives the seconds. */
  lemma FormatTimeFields(seconds: nat)
    ensures ClockMinutes(FormatTime(seconds)) == seconds / 60
    ensures ClockSeconds(FormatTime(seconds)) == seconds % 60 < 60
    ensures ClockValue(FormatTime(seconds)) == Some(seconds)
  {
    var mins := seconds / 60;
    var secs := seconds % 60;
    PaddedDigits(mins);
    PaddedDigits(secs);
    NatToStringLength(secs);
    var m := PadStart2(NatToString(mins));
    var sec := PadStart2(NatToString(secs));
    assert mins * 60 + secs == seconds;
    ClockReadsBack(FormatTime(seconds), m, sec, mins, secs);
  }

  /** A text made of two digit fields around a colon, the second of two
      digits, reads back as its fields' values. */
  lemma ClockReadsBack(r: string, m: string, sec: string, mv: nat, sv: nat)
    requires r == m + (":" + sec)
    requires |m| >= 1 && |sec| == 2
    requires forall i :: 0 <= i < |m| ==> IsDigit(m[i], 10)
    requires forall i :: 0 <= i < |sec| ==> IsDigit(sec[i], 10)
    requires DigitsValue(m, 10) == mv && DigitsValue(sec, 10) == sv
    ensures |r| >= 3 && ClockMinutes(r) == mv && ClockSeconds(r) == sv
    ensures ClockValue(r) == Some(mv * 60 + sv)
  {
    ClockFields(m, sec);
    ClockText(m, sec, mv, sv);
  }

  /** A number padded to two places is a digit string of at least two
      digits whose value is the number. */
  lemma PaddedDigits(n: nat)
    ensures |PadStart2(NatToString(n))| >= 2
    ensures forall i :: 0 <= i < |PadStart2(NatToString(n))| ==> IsDigit(PadStart2(NatToString(n))[i], 10)
    ensures DigitsValue(PadStart2(NatToString(n)), 10) == n
  {
    NatToStringSpec(n);
    PadStart2Value(NatToString(n));
    PadStart2Digits(NatToString(n));
  }

  /** Two digit fields joined by a colon, the second of two digits, read
      back as minutes and seconds: the fields' values `mv` and `sv`. */
  lemma ClockText(m: string, sec: string, mv: nat, sv: nat)
    requires |m| >= 1 && |sec| == 2
    requires forall i :: 0 <= i < |m| ==> IsDigit(m[i], 10)
    requires forall i :: 0 <= i < |sec| ==> IsDigit(sec[i], 10)
    requires DigitsValue(m, 10) == mv && DigitsValue(sec, 10) == sv
    ensures (m + (":" + sec))[..|m|] == m && (m + (":" + sec))[|m| + 1..] == sec
    ensures ClockValue(m + (":" + sec)) == Some(mv * 60 + sv)
  {
    ClockFields(m, sec);
    ClockValueOf(m + (":" + sec), |m|, mv, sv);
  }

  /** The minutes field is the longest run of digits, the colon follows
      it and two digits end the text. */
  lemma ClockFields(m: string, sec: string)
    requires |m| >= 1 && |sec| == 2
    requires forall i :: 0 <= i < |m| ==> IsDigit(m[i], 10)
    requires forall i :: 0 <= i < |sec| ==> IsDigit(sec[i], 10)
    ensures var r := m + (":" + sec);
            var k := |m|;
            k == DigitPrefixLength(r, 10) && 0 < k && k + 3 == |r| && r[k] == ':'
            && IsDigit(r[k + 1], 10) && IsDigit(r[k + 2], 10) && r[..k] == m && r[k + 1..] == sec
            && r[..|r| - 3] == m && r[|r| - 2..] == sec
  {
    ColonLayout(m, sec);
    DigitPrefixOfDigits(m, ":" + sec, 10);
  }

  /** Where the fields of `<minutes>:<seconds>` sit. */
  lemma ColonLayout(m: string, sec: string)
    requires |sec| == 2
    ensures var r := m + (":" + sec);
            |r| == |m| + 3 && r[..|m|] == m && r[|m|] == ':' && r[|m| + 1..] == sec
            && r[|m| + 1] == sec[0] && r[|m| + 2] == sec[1]
            && r[..|r| - 3] == m && r[|r| - 2..] == sec
  {
    var r := m + (":" + sec);
    assert r[..|m|] == m;
    assert r[|m| + 1..] == sec;
  }

  lemma ClockValueOf(r: string, k: nat, mv: nat, sv: nat)
    requires k == DigitPrefixLength(r, 10) && 0 < k && k + 3 == |r|
    requires r[k] == ':' && IsDigit(r[k + 1], 10) && IsDigit(r[k + 2], 10)
    requires DigitsValue(r[..k], 10) == mv && DigitsValue(r[k + 1..], 10) == sv
    ensures ClockValue(r) == Some(mv * 60 + sv)
  {
  }

  // ----- formatTimeWorked -----

  /** The seconds `formatTimeWorked` renders: the stored value, plus the
      running phase's seconds when asked to include them, the id is the
      selected task's (an absent id never equals a null selection), some
      time has accrued and the phase is not a break. */
  function WorkedSeconds(seconds: nat, includeCurrentSession: bool, taskId: Option<TaskId>,
                         selectedTaskId: Option<TaskId>, currentSessionTime: nat, isBreak: bool): nat
  {
    if includeCurrentSession && taskId.Some? && taskId == selectedTaskId && currentSessionTime > 0 && !isBreak
    then seconds + currentSessionTime
    else seconds
  }

  /** A count followed by its unit letter, as in `25m`. */
  function Quantity(n: nat, unit: char): string
  {
    NatToString(n) + [unit]
  }

  /** The three shapes of the worked-time text: `Hh Mm Ss` with hours,
      `Mm Ss` with minutes but no hours, `Ss` otherwise. */
  function RenderDuration(hours: nat, minutes: nat, secs: nat): string
  {
    if hours > 0 then Quantity(hours, 'h') + (" " + (Quantity(minutes, 'm') + (" " + Quantity(secs, 's'))))
    else if minutes > 0 then Quantity(minutes, 'm') + (" " + Quantity(secs, 's'))
    else Quantity(secs, 's')
  }

  /** The text names hours exactly when there are some, minutes exactly
      when there are hours or minutes, and always ends in seconds. */
  lemma RenderDurationUnits(hours: nat, minutes: nat, secs: nat)
    ensures var r := RenderDuration(hours, minutes, secs);
            (('h' in r) <==> hours > 0) && (('m' in r) <==> hours > 0 || minutes > 0)
            && r != [] && r[|r| - 1] == 's'
  {
    NatToStringAvoids(hours, 'm');
    NatToStringAvoids(minutes, 'h');
    NatToStringAvoids(secs, 'h');
    NatToStringAvoids(secs, 'm');
  }

  /** The h/m/s breakdown of `formatTimeWorked`. */
  function FormatDuration(total: nat): string
  {
    RenderDuration(total / 3600, (total % 3600) / 60, total % 60)
  }

  /** An hours field only from an hour up, a minutes field only from a
      minute up, and the seconds always. */
  lemma FormatDurationUnits(total: nat)
    ensures var r := FormatDuration(total);
            (('h' in r) <==> total >= 3600) && (('m' in r) <==> total >= 60)
            && r != [] && r[|r| - 1] == 's'
  {
    RenderDurationUnits(total / 3600, (total % 3600) / 60, total % 60);
  }

  /** `formatTimeWorked`. */
  function FormatTimeWorked(seconds: nat, includeCurrentSession: bool, taskId: Option<TaskId>,
                            selectedTaskId: Option<TaskId>, currentSessionTime: nat, isBreak: bool): string
  {
    FormatDuration(WorkedSeconds(seconds, includeCurrentSession, taskId, selectedTaskId, currentSessionTime, isBreak))
  }

  /** Reads `<digits><unit>` at the start of `s`: the count, the unit and
      what follows. A count written with a leading zero is refused, since
      `toString` never writes one. */
  function ReadField(s: string): Option<(nat, char, string)>
  {
    var k := DigitPrefixLength(s, 10);
    if 0 < k < |s| && (k == 1 || s[0] != '0') then Some((DigitsValue(s[..k], 10), s[k], s[k + 1..])) else None
  }

  /** `Ss` below a minute and nothing after it. */
  function ReadSeconds(s: string): Option<nat>
  {
    match ReadField(s)
    case Some((v, u, rest)) => if u == 's' && rest == [] && v < 60 then Some(v) else None
    case None => None
  }

  /** `Mm Ss` below an hour, as a number of seconds. */
  function ReadMinutes(s: string): Option<nat>
  {
    match ReadField(s)
    case Some((m, u, rest)) =>
      if u == 'm' && m < 60 && rest != [] && rest[0] == ' ' then
        match ReadSeconds(rest[1..])
        case Some(v) => Some(m * 60 + v)
        case None => None
      else None
    case None => None
  }

  /** Reads a worked-time text back into seconds; the first unit decides
      the shape. Only the texts `formatTimeWorked` writes are read: a
      leading hours or minutes field is not zero, and a minutes or seconds
      field is below 60. */
  function ParseDuration(s: string): Option<nat>
  {
    match ReadField(s)
    case Some((h, u, rest)) =>
      if u == 'h' then
        if h > 0 && rest != [] && rest[0] == ' ' then
          match ReadMinutes(rest[1..])
          case Some(v) => Some(h * 3600 + v)
          case None => None
        else None
      else if u == 'm' then
        if h > 0 then ReadMinutes(s) else None
      else ReadSeconds(s)
    case None => None
  }

  lemma ReadFieldOf(n: nat, unit: char, rest: string)
    requires !IsDigit(unit, 10)
    ensures ReadField(Quantity(n, unit) + rest) == Some((n, unit, rest))
  {
    var ds := NatToString(n);
    NatToStringSpec(n);
    var s := Quantity(n, unit) + rest;
    assert s == ds + ([unit] + rest);
    DigitPrefixOfDigits(ds, [unit] + rest, 10);
    assert s[..|ds|] == ds;
    assert s[0] == ds[0];
    assert s[|ds| + 1..] == rest;
  }

  /** A field that reads is its count's `toString`, its unit and the rest. */
  lemma FieldShape(s: string, v: nat, u: char, rest: string)
    requires ReadField(s) == Some((v, u, rest))
    ensures s == Quantity(v, u) + rest && !IsDigit(u, 10)
  {
    var k := DigitPrefixLength(s, 10);
    DigitPrefixDigits(s, 10);
    var ds := s[..k];
    assert ds[0] == s[0];
    NatToStringCanonical(ds);
    assert s == ds + [u] + rest;
  }

  /** The three fields add back up to the total. */
  lemma DurationFields(total: nat)
    ensures (total % 3600) / 60 < 60 && total % 60 < 60
    ensures (total / 3600) * 3600 + ((total % 3600) / 60) * 60 + total % 60 == total
  {
    var h := total / 3600;
    var rem := total % 3600;
    var m := rem / 60;
    var s := rem % 60;
    assert rem == m * 60 + s;
    assert total == (h * 60 + m) * 60 + s;
    Timing.LemmaModOfMultiplePlus(h * 60 + m, s, 60);
  }

  lemma ReadSecondsOf(secs: nat)
    requires secs < 60
    ensures ReadSeconds(Quantity(secs, 's')) == Some(secs)
  {
    ReadFieldOf(secs, 's', []);
    assert Quantity(secs, 's') + [] == Quantity(secs, 's');
  }

  /** The text after a separating space. */
  lemma AfterSpace(rest: string)
    ensures (" " + rest) != [] && (" " + rest)[0] == ' ' && (" " + rest)[1..] == rest
  {
  }

  lemma ReadMinutesOf(minutes: nat, secs: nat)
    requires minutes < 60 && secs < 60
    ensures ReadMinutes(Quantity(minutes, 'm') + (" " + Quantity(secs, 's'))) == Some(minutes * 60 + secs)
  {
    ReadFieldOf(minutes, 'm', " " + Quantity(secs, 's'));
    AfterSpace(Quantity(secs, 's'));
    ReadSecondsOf(secs);
  }

  /** An hours field, a space and a minutes shape worth `v` seconds. */
  lemma ParseHoursOf(s: string, hours: nat, mPart: string, v: nat, total: nat)
    requires hours > 0 && total == hours * 3600 + v
    requires s == Quantity(hours, 'h') + (" " + mPart)
    requires ReadMinutes(mPart) == Some(v)
    ensures ParseDuration(s) == Some(total)
  {
    ReadFieldOf(hours, 'h', " " + mPart);
    ParseAfterHours(s, hours, mPart, v, total);
  }

  /** A leading hours field followed by a space and a minutes shape. */
  lemma ParseAfterHours(s: string, hours: nat, mPart: string, v: nat, total: nat)
    requires hours > 0 && total == hours * 3600 + v
    requires ReadField(s) == Some((hours, 'h', " " + mPart))
    requires ReadMinutes(mPart) == Some(v)
    ensures ParseDuration(s) == Some(total)
  {
    AfterSpace(mPart);
  }

  lemma ParseMinutesOf(s: string, minutes: nat, secs: nat)
    requires 0 < minutes < 60 && secs < 60
    requires s == Quantity(minutes, 'm') + (" " + Quantity(secs, 's'))
    ensures ParseDuration(s) == Some(minutes * 60 + secs)
  {
    ReadFieldOf(minutes, 'm', " " + Quantity(secs, 's'));
    ReadMinutesOf(minutes, secs);
  }

  lemma ParseSecondsOf(s: string, secs: nat)
    requires secs < 60
    requires s == Quantity(secs, 's')
    ensures ParseDuration(s) == Some(secs)
  {
    ReadFieldOf(secs, 's', []);
    assert Quantity(secs, 's') + [] == Quantity(secs, 's');
    ReadSecondsOf(secs);
  }

  /** The three-field shape reads back as its hours, minutes and seconds. */
  lemma ParseRenderHours(hours: nat, minutes: nat, secs: nat)
    requires hours > 0 && minutes < 60 && secs < 60
    ensures ParseDuration(RenderDuration(hours, minutes, secs)) == Some(hours * 3600 + minutes * 60 + secs)
  {
    ParseThreeFieldsOf(RenderDuration(hours, minutes, secs), hours, minutes, secs);
  }

  lemma ParseThreeFieldsOf(s: string, hours: nat, minutes: nat, secs: nat)
    requires hours > 0 && minutes < 60 && secs < 60
    requires s == Quantity(hours, 'h') + (" " + (Quantity(minutes, 'm') + (" " + Quantity(secs, 's'))))
    ensures ParseDuration(s) == Some(hours * 3600 + minutes * 60 + secs)
  {
    var mPart := Quantity(minutes, 'm') + (" " + Quantity(secs, 's'));
    ReadMinutesOf(minutes, secs);
    ParseHoursOf(s, hours, mPart, minutes * 60 + secs, hours * 3600 + minutes * 60 + secs);
  }

  /** The two-field shape, without hours. */
  lemma ParseRenderMinutes(hours: nat, minutes: nat, secs: nat)
    requires hours == 0 && 0 < minutes < 60 && secs < 60
    ensures ParseDuration(RenderDuration(hours, minutes, secs)) == Some(hours * 3600 + minutes * 60 + secs)
  {
    FieldsSum(hours, minutes, secs);
    ParseMinutesOf(RenderDuration(hours, minutes, secs), minutes, secs);
  }

  /** The seconds-only shape. */
  lemma ParseRenderSeconds(hours: nat, minutes: nat, secs: nat)
    requires hours == 0 && minutes == 0 && secs < 60
    ensures ParseDuration(RenderDuration(hours, minutes, secs)) == Some(hours * 3600 + minutes * 60 + secs)
  {
    FieldsSum(hours, minutes, secs);
    ParseSecondsOf(RenderDuration(hours, minutes, secs), secs);
  }

  lemma FieldsSum(hours: nat, minutes: nat, secs: nat)
    ensures hours * 3600 + (minutes * 60 + secs) == hours * 3600 + minutes * 60 + secs
    ensures hours == 0 ==> minutes * 60 + secs == hours * 3600 + minutes * 60 + secs
    ensures hours == 0 && minutes == 0 ==> secs == hours * 3600 + minutes * 60 + secs
  {
  }

  /** The worked-time text reads back as the seconds it was made from:
      its minutes and seconds fields are below 60 and, with the hours, add
      up to the total. */
  lemma FormatDurationRoundTrip(total: nat)
    ensures ParseDuration(FormatDuration(total)) == Some(total)
  {
    DurationFields(total);
    RenderDurationReadsBack(total, total / 3600, (total % 3600) / 60, total % 60);
  }

  /** Each shape with minutes and seconds below 60 reads back as the
      seconds it spells out; the fields left out of a shorter shape are
      zero. */
  lemma RenderDurationReadsBack(total: nat, hours: nat, minutes: nat, secs: nat)
    requires minutes < 60 && secs < 60
    requires hours * 3600 + minutes * 60 + secs == total
    ensures ParseDuration(RenderDuration(hours, minutes, secs)) == Some(total)
  {
    if hours > 0 {
      ParseRenderHours(hours, minutes, secs);
    } else if minutes > 0 {
      ParseRenderMinutes(hours, minutes, secs);
    } else {
      ParseRenderSeconds(hours, minutes, secs);
    }
  }

  /** A seconds shape that reads is `toString` of a count below 60 and `s`. */
  lemma SecondsShape(s: string, v: nat)
    requires ReadSeconds(s) == Some(v)
    ensures v < 60 && s == Quantity(v, 's')
  {
    var (w, u, rest) := ReadField(s).value;
    FieldShape(s, w, u, rest);
    assert Quantity(w, u) + rest == Quantity(w, u);
  }

  /** A minutes shape that reads spells its value's minutes and seconds. */
  lemma MinutesShape(s: string, t: nat)
    requires ReadMinutes(s) == Some(t)
    ensures t < 3600 && s == Quantity(t / 60, 'm') + (" " + Quantity(t % 60, 's'))
  {
    var (m, u, rest) := ReadField(s).value;
    FieldShape(s, m, u, rest);
    var v := ReadSeconds(rest[1..]).value;
    SecondsShape(rest[1..], v);
    assert rest == " " + rest[1..];
    assert t == m * 60 + v;
    assert t / 60 == m && t % 60 == v;
  }

  /** After a non-zero hours count, the rest of the three-field shape. */
  lemma HoursShape(s: string, v: nat)
    requires ParseDuration(s) == Some(v)
    requires ReadField(s).Some? && ReadField(s).value.1 == 'h'
    ensures s == FormatDuration(v)
  {
    var (h, u, rest) := ReadField(s).value;
    FieldShape(s, h, u, rest);
    var mPart := rest[1..];
    var t := ReadMinutes(mPart).value;
    MinutesShape(mPart, t);
    assert rest == " " + mPart;
    HoursFields(h, t, v);
    assert FormatDuration(v) == RenderDuration(h, t / 60, t % 60);
  }

  /** The hours, minutes and seconds of `h` hours and `t` seconds below an hour. */
  lemma HoursFields(h: nat, t: nat, v: nat)
    requires t < 3600 && v == h * 3600 + t
    ensures v / 3600 == h && (v % 3600) / 60 == t / 60 && v % 60 == t % 60
  {
    assert v % 3600 == t;
    assert v == (h * 60 + t / 60) * 60 + t % 60;
  }

  /** A text that reads as `v` seconds is exactly what `formatTimeWorked`
      writes for `v`: no other spelling of the same time is read. */
  lemma ParseDurationCanonical(s: string, v: nat)
    requires ParseDuration(s) == Some(v)
    ensures s == FormatDuration(v)
  {
    var (h, u, rest) := ReadField(s).value;
    if u == 'h' {
      HoursShape(s, v);
    } else if u == 'm' {
      MinutesShape(s, v);
      assert v / 3600 == 0 && (v % 3600) / 60 == v / 60 && v / 60 > 0;
    } else {
      SecondsShape(s, v);
      assert v / 3600 == 0 && (v % 3600) / 60 == 0 && v % 60 == v;
    }
  }

  /** The worked-time text of `v` is the one text that reads as `v`. */
  lemma FormatDurationExactly(s: string, v: nat)
    ensures ParseDuration(s) == Some(v) <==> s == FormatDuration(v)
  {
    if ParseDuration(s) == Some(v) {
      ParseDurationCanonical(s, v);
    }
    if s == FormatDuration(v) {
      FormatDurationRoundTrip(v);
    }
  }

  /** What a task's time line shows is its stored time, plus the running
      phase exactly when that phase counts for the task. */
  lemma FormatTimeWorkedShows(seconds: nat, includeCurrentSession: bool, taskId: Option<TaskId>,
                              selectedTaskId: Option<TaskId>, currentSessionTime: nat, isBreak: bool)
    ensures var counts := includeCurrentSession && taskId.Some? && taskId == selectedTaskId
                          && currentSessionTime > 0 && !isBreak;
            ParseDuration(FormatTimeWorked(seconds, includeCurrentSession, taskId, selectedTaskId, currentSessionTime, isBreak))
              == Some(if counts then seconds + currentSessionTime else seconds)
  {
    FormatDurationRoundTrip(WorkedSeconds(seconds, includeCurrentSession, taskId, selectedTaskId, currentSessionTime, isBreak));
  }

  // ----- getProgress -----

  /** `Math.max(0, Math.min(100, x))` */
  function Clamp(x: real): real
  {
    if x < 0.0 then 0.0 else if x > 100.0 then 100.0 else x
  }

  /** `getProgress`: the elapsed share of the phase as a percentage. */
  function GetProgress(originalSessionTime: nat, timeLeft: nat, isRunning: bool): (p: real)
    ensures 0.0 <= p <= 100.0
    ensures originalSessionTime == 0 ==> p == 0.0
    ensures timeLeft == 0 && !isRunning ==> p == 0.0
  {
    if originalSessionTime == 0 then 0.0
    else if timeLeft == 0 && !isRunning then 0.0
    else Clamp((originalSessionTime as real - timeLeft as real) / originalSessionTime as real * 100.0)
  }

  /** While at most the phase's length is left, the clamp never bites: the
      bar shows exactly the elapsed fraction. */
  lemma ProgressIsElapsedShare(originalSessionTime: nat, timeLeft: nat, isRunning: bool)
    requires originalSessionTime > 0 && timeLeft <= originalSessionTime
    requires timeLeft > 0 || isRunning
    ensures GetProgress(originalSessionTime, timeLeft, isRunning) * originalSessionTime as real
            == (originalSessionTime - timeLeft) as real * 100.0
  {
    var o := originalSessionTime as real;
    var x := (o - timeLeft as real) / o;
    assert 0.0 <= x <= 1.0;
    assert x * o == o - timeLeft as real;
  }

  /** The bar never moves backwards while the countdown runs. */
  lemma ProgressMonotone(originalSessionTime: nat, before: nat, after: nat)
    requires after <= before
    ensures GetProgress(originalSessionTime, before, true) <= GetProgress(originalSessionTime, after, true)
  {
    if originalSessionTime > 0 {
      var o := originalSessionTime as real;
      assert (o - before as real) / o <= (o - after as real) / o;
    }
  }
}
