/**
 * `format_seconds` and `parse_duration`: the `h:mm:ss` clock display and the
 * `[Nh][Nm][Ns]` durations typed by the user.
 */
module TimeFormat {
  import opened Wrappers
  import opened Text

  /** The number an ASCII decimal numeral spells. */
  function DigitsValue(s: string): (n: nat)
    requires AllDigits(s)
  {
    if s == [] then 0 else 10 * DigitsValue(s[..|s| - 1]) + (s[|s| - 1] - '0') as nat
  }

  /** `str(n)` for a whole number: its decimal numeral, without leading zeros. */
  function NatToString(n: nat): (s: string)
    ensures |s| > 0 && AllDigits(s)
    ensures |s| > 1 ==> s[0] != '0'
    ensures n < 10 <==> |s| == 1
  {
    if n < 10 then [('0' as int + n) as char] else NatToString(n / 10) + [('0' as int + n % 10) as char]
  }

  /** Reading the numeral back gives the number. */
  lemma {:induction false} NatToStringValue(n: nat)
    ensures DigitsValue(NatToString(n)) == n
  {
    if n >= 10 {
      NatToStringValue(n / 10);
      var s := NatToString(n);
      assert s[..|s| - 1] == NatToString(n / 10);
    }
  }

  /** `f'{n:0>2}'`: right-aligned in two places, filled with `0`. */
  function Pad2(s: string): string {
    if |s| >= 2 then s else seq(2 - |s|, _ => '0') + s
  }

  /** Two digits that spell `n`, for `n` below 100. */
  lemma Pad2Value(n: nat)
    requires n < 100
    ensures |Pad2(NatToString(n))| == 2 && AllDigits(Pad2(NatToString(n)))
    ensures DigitsValue(Pad2(NatToString(n))) == n
  {
    NatToStringValue(n);
    var s := NatToString(n);
    if n < 10 {
      var p := Pad2(s);
      assert p == ['0'] + s;
      assert p[..1] == ['0'];
    } else {
      assert NatToString(n / 10) == [('0' as int + n / 10) as char];
    }
  }

  /** Lines 425-429: `format_seconds` for a whole number of seconds. */
  function FormatSeconds(totalSeconds: nat): string {
    var hours := totalSeconds / 3600;
    var minutes := (totalSeconds - hours * 3600) / 60;
    var seconds := totalSeconds % 60;
    NatToString(hours) + ":" + Pad2(NatToString(minutes)) + ":" + Pad2(NatToString(seconds))
  }

  /** `s` is `h:mm:ss` for `t` seconds: hours as a numeral, then minutes and
      seconds below 60 in two digits each, which read back to `t`. */
  predicate ClockReading(s: string, t: nat) {
    && |s| >= 7 && s[|s| - 3] == ':' && s[|s| - 6] == ':'
    && AllDigits(s[..|s| - 6]) && AllDigits(s[|s| - 5..|s| - 3]) && AllDigits(s[|s| - 2..])
    && DigitsValue(s[|s| - 5..|s| - 3]) < 60 && DigitsValue(s[|s| - 2..]) < 60
    && 3600 * DigitsValue(s[..|s| - 6]) + 60 * DigitsValue(s[|s| - 5..|s| - 3]) + DigitsValue(s[|s| - 2..]) == t
  }

  /** The fields of `h:mm:ss`, where `mm` and `ss` are two digits below 60,
      read back to the time they spell. */
  lemma ClockFields(hs: string, ms: string, ss: string, h: nat, m: nat, sec: nat, t: nat)
    requires AllDigits(hs) && |hs| > 0 && |ms| == 2 && AllDigits(ms) && |ss| == 2 && AllDigits(ss)
    requires DigitsValue(hs) == h && DigitsValue(ms) == m && DigitsValue(ss) == sec
    requires m < 60 && sec < 60 && 3600 * h + 60 * m + sec == t
    ensures ClockReading(hs + ":" + ms + ":" + ss, t)
  {
    var s := hs + ":" + ms + ":" + ss;
    assert s[..|hs|] == hs;
    assert s[|hs| + 1..|hs| + 3] == ms;
    assert s[|hs| + 4..] == ss;
  }

  /** `format_seconds(t)` joins the hours, the minutes below 60 and the
      seconds below 60 that add back up to `t`. */
  /** Division by 60 is determined by quotient and remainder. */
  lemma DivMod60(x: int, q: int, rem: int)
    requires x == 60 * q + rem && 0 <= rem < 60
    ensures x / 60 == q && x % 60 == rem
  {
  }

  /** Hours, minutes and seconds as `format_seconds` computes them. */
  lemma ClockArithmetic(t: nat)
    ensures var h := t / 3600; var m := (t - h * 3600) / 60;
      m < 60 && t % 60 < 60 && 3600 * h + 60 * m + t % 60 == t
  {
    var h := t / 3600;
    var r := t - h * 3600;
    assert 0 <= r < 3600;
    var m := r / 60;
    var rem := r % 60;
    DivMod60(r, m, rem);
    DivMod60(t, 60 * h + m, rem);
  }

  lemma ClockSplit(t: nat) returns (h: nat, m: nat, sec: nat)
    ensures m < 60 && sec < 60 && 3600 * h + 60 * m + sec == t
    ensures FormatSeconds(t) == NatToString(h) + ":" + Pad2(NatToString(m)) + ":" + Pad2(NatToString(sec))
  {
    var hours := t / 3600;
    var minutes := (t - hours * 3600) / 60;
    ClockArithmetic(t);
    h, m, sec := hours, minutes, t % 60;
  }

  /** The display reads `h:mm:ss` for the time it shows. */
  lemma FormatSecondsFields(t: nat)
    ensures ClockReading(FormatSeconds(t), t)
  {
    var h, m, sec := ClockSplit(t);
    NatToStringValue(h);
    Pad2Value(m);
    Pad2Value(sec);
    ClockFields(NatToString(h), Pad2(NatToString(m)), Pad2(NatToString(sec)), h, m, sec, t);
  }

  /** `int(s)` for the numerals `[+-]digits`; `None` where `int` raises
      `ValueError`. */
  function ParseInt(s: string): Option<int> {
    if |s| > 0 && (s[0] == '+' || s[0] == '-') then
      if |s| > 1 && AllDigits(s[1..]) then Some(if s[0] == '-' then -(DigitsValue(s[1..]) as int) else DigitsValue(s[1..]) as int)
      else None
    else if |s| > 0 && AllDigits(s) then Some(DigitsValue(s) as int)
    else None
  }

  /** `duration.find(unit)` where `unit` occurs: the index of its first
      occurrence. */
  function FirstIndex(duration: string, unit: char): (i: nat)
    requires unit in duration
    ensures i < |duration| && duration[i] == unit && unit !in duration[..i]
  {
    FindElement(duration, unit);
    Find(duration, [unit])
  }

  /** One step of `parse_duration`: when `unit` occurs, the number before its
      first occurrence and the text after it; otherwise 0 and the text
      unchanged. `None` when that number is not an integer. */
  function TakeUnit(duration: string, unit: char): Option<(int, string)> {
    if unit in duration then
      var i := FirstIndex(duration, unit);
      match ParseInt(duration[..i])
      case Some(v) => Some((v, duration[i + 1..]))
      case None => None
    else Some((0, duration))
  }

  /** What `parse_duration` returns, or `None` where it raises ValueError. */
  function Duration(duration: string): Option<int> {
    match TakeUnit(duration, 'h')
    case None => None
    case Some((hours, afterH)) =>
      match TakeUnit(afterH, 'm')
      case None => None
      case Some((minutes, afterM)) =>
        match TakeUnit(afterM, 's')
        case None => None
        case Some((seconds, _)) => Some(hours * 3600 + minutes * 60 + seconds)
  }

  /** One of the three `if unit in duration` blocks of `parse_duration`:
      the number before the first `unit` and the text after it. */
  method TakeStep(duration: string, unit: char) returns (r: Option<(int, string)>)
    ensures r == TakeUnit(duration, unit)
  {
    if unit in duration {
      var index := Find(duration, [unit]);
      assert index == FirstIndex(duration, unit);
      var value := ParseInt(duration[..index]);
      if value.None? {
        return None;
      }
      return Some((value.value, duration[index + 1..]));
    }
    return Some((0, duration));
  }

  /** Lines 432-448: `parse_duration`, the hours, minutes and seconds taken
      off in turn and added up. */
  method ParseDuration(input: string) returns (r: Option<int>)
    ensures r == Duration(input)
  {
    var durationSeconds := 0;
    var hours := TakeStep(input, 'h');
    if hours.None? {
      return None;
    }
    durationSeconds := durationSeconds + hours.value.0 * 3600;
    var minutes := TakeStep(hours.value.1, 'm');
    if minutes.None? {
      DurationFailsM(input, hours.value.0, hours.value.1);
      return None;
    }
    durationSeconds := durationSeconds + minutes.value.0 * 60;
    var seconds := TakeStep(minutes.value.1, 's');
    if seconds.None? {
      DurationFailsS(input, hours.value.0, hours.value.1, minutes.value.0, minutes.value.1);
      return None;
    }
    durationSeconds := durationSeconds + seconds.value.0;
    DurationSteps(input, hours.value.0, hours.value.1, minutes.value.0, minutes.value.1, seconds.value.0, seconds.value.1);
    return Some(durationSeconds);
  }

  /** `parse_duration` fails when the minutes are not a number. */
  lemma DurationFailsM(d: string, a: int, d1: string)
    requires TakeUnit(d, 'h') == Some((a, d1))
    requires TakeUnit(d1, 'm') == None
    ensures Duration(d) == None
  {
  }

  /** `parse_duration` fails when the seconds are not a number. */
  lemma DurationFailsS(d: string, a: int, d1: string, b: int, d2: string)
    requires TakeUnit(d, 'h') == Some((a, d1))
    requires TakeUnit(d1, 'm') == Some((b, d2))
    requires TakeUnit(d2, 's') == None
    ensures Duration(d) == None
  {
  }

  /** `c` first occurs in `d[from..]` at index `i` of `d`. */
  predicate FirstAt(d: string, c: char, from: nat, i: nat) {
    from <= i < |d| && d[i] == c && c !in d[from..i]
  }

  /** A block that finds its unit at `i` reads `d[from..i]` and leaves the
      text after `i`, or fails when that is not a number. */
  lemma TakeUnitAt(d: string, c: char, from: nat, i: nat)
    requires FirstAt(d, c, from, i)
    ensures ParseInt(d[from..i]).None? ==> TakeUnit(d[from..], c) == None
    ensures ParseInt(d[from..i]).Some? ==> TakeUnit(d[from..], c) == Some((ParseInt(d[from..i]).value, d[i + 1..]))
  {
    var t := d[from..];
    assert t[i - from] == c;
    assert FirstIndex(t, c) == i - from;
    assert t[..i - from] == d[from..i] && t[i - from + 1..] == d[i + 1..];
  }

  /** Text without any of the letters h, m and s parses as 0, whatever else
      it holds: every block is skipped. */
  lemma NoUnitsZero(d: string)
    requires 'h' !in d && 'm' !in d && 's' !in d
    ensures Duration(d) == Some(0)
  {
    DurationSteps(d, 0, d, 0, d, 0, d);
  }

  /** `parse_duration` fails when the text before the first `h` is not a
      number. */
  lemma UnreadableHours(d: string, i: nat)
    requires FirstAt(d, 'h', 0, i) && ParseInt(d[..i]).None?
    ensures Duration(d) == None
  {
    TakeUnitAt(d, 'h', 0, i);
    assert d[0..] == d && d[0..i] == d[..i];
  }

  /** The `h` block of a text whose `h` part ends at `j` (-1 without one)
      reads a number and leaves the text after `j`. */
  lemma HoursPart(d: string, j: int) returns (a: int)
    requires -1 <= j
    requires j == -1 ==> 'h' !in d
    requires j >= 0 ==> FirstAt(d, 'h', 0, j) && ParseInt(d[..j]).Some?
    ensures j + 1 <= |d| && TakeUnit(d, 'h') == Some((a, d[j + 1..]))
  {
    assert d[0..] == d;
    if j == -1 {
      a := 0;
    } else {
      TakeUnitAt(d, 'h', 0, j);
      assert d[0..j] == d[..j];
      a := ParseInt(d[..j]).value;
    }
  }

  /** The `m` block after an `h` part ending at `j`, for an `m` part ending
      at `k` (`k == j` without one), reads a number and leaves the text
      after `k`. */
  lemma MinutesPart(d: string, j: int, k: int) returns (b: int)
    requires -1 <= j <= k < |d|
    requires k == j ==> 'm' !in d[j + 1..]
    requires k > j ==> FirstAt(d, 'm', j + 1, k) && ParseInt(d[j + 1..k]).Some?
    ensures TakeUnit(d[j + 1..], 'm') == Some((b, d[k + 1..]))
  {
    if k == j {
      b := 0;
    } else {
      TakeUnitAt(d, 'm', j + 1, k);
      b := ParseInt(d[j + 1..k]).value;
    }
  }

  /** `parse_duration` fails when the text between the `h` part (at `j`, or
      -1 without one) and the first `m` after it is not a number; "3s2m" is
      one such text. */
  lemma UnreadableMinutes(d: string, j: int, i: nat)
    requires -1 <= j < i
    requires j == -1 ==> 'h' !in d
    requires j >= 0 ==> FirstAt(d, 'h', 0, j) && ParseInt(d[..j]).Some?
    requires FirstAt(d, 'm', j + 1, i) && ParseInt(d[j + 1..i]).None?
    ensures Duration(d) == None
  {
    var a := HoursPart(d, j);
    TakeUnitAt(d, 'm', j + 1, i);
    DurationFailsM(d, a, d[j + 1..]);
  }

  /** `parse_duration` fails when the text between the `m` part (ending at
      `k`, or at `j` without one) and the first `s` after it is not a
      number; the `h` part ends at `j`, or -1 without one. */
  lemma UnreadableSeconds(d: string, j: int, k: int, i: nat)
    requires -1 <= j <= k < i
    requires j == -1 ==> 'h' !in d
    requires j >= 0 ==> FirstAt(d, 'h', 0, j) && ParseInt(d[..j]).Some?
    requires k == j ==> 'm' !in d[j + 1..]
    requires k > j ==> FirstAt(d, 'm', j + 1, k) && ParseInt(d[j + 1..k]).Some?
    requires FirstAt(d, 's', k + 1, i) && ParseInt(d[k + 1..i]).None?
    ensures Duration(d) == None
  {
    var a := HoursPart(d, j);
    var b := MinutesPart(d, j, k);
    TakeUnitAt(d, 's', k + 1, i);
    DurationFailsS(d, a, d[j + 1..], b, d[k + 1..]);
  }

  /** `[Nh][Nm][Ns]`, with the parts that are present. */
  function Render(hours: Option<nat>, minutes: Option<nat>, seconds: Option<nat>): string {
    Part(hours, 'h') + (Part(minutes, 'm') + Part(seconds, 's'))
  }

  /** `N` followed by `unit`, or nothing. */
  function Part(n: Option<nat>, unit: char): string {
    if n.Some? then NatToString(n.value) + [unit] else ""
  }

  /** A numeral reads back through `int`. */
  lemma ParseNumeral(n: nat)
    ensures ParseInt(NatToString(n)) == Some(n)
  {
    NatToStringValue(n);
  }

  /** A numeral holds no letter. */
  lemma NumeralWithout(n: nat, c: char)
    requires !IsDigit(c)
    ensures c !in NatToString(n)
  {
  }

  /** A part for another unit holds no `c`. */
  lemma PartWithout(n: Option<nat>, unit: char, c: char)
    requires !IsDigit(c) && c != unit
    ensures c !in Part(n, unit)
  {
    if n.Some? {
      NumeralWithout(n.value, c);
    }
  }

  /** Taking a unit off the front of `N<unit>rest`. */
  lemma TakePart(n: Option<nat>, unit: char, rest: string)
    requires !IsDigit(unit)
    requires n.None? ==> unit !in rest
    ensures TakeUnit(Part(n, unit) + rest, unit) == Some((n.GetOr(0), rest))
  {
    if n.Some? {
      var text := Part(n, unit) + rest;
      NumeralWithout(n.value, unit);
      FindFirstElement(NatToString(n.value), unit, rest);
      assert text == NatToString(n.value) + [unit] + rest;
      assert text[..|NatToString(n.value)|] == NatToString(n.value);
      assert text[|NatToString(n.value)| + 1..] == rest;
      ParseNumeral(n.value);
    } else {
      assert Part(n, unit) + rest == rest;
    }
  }

  /** `parse_duration` adds up the three steps that succeed. */
  lemma DurationSteps(d: string, a: int, d1: string, b: int, d2: string, c: int, d3: string)
    requires TakeUnit(d, 'h') == Some((a, d1))
    requires TakeUnit(d1, 'm') == Some((b, d2))
    requires TakeUnit(d2, 's') == Some((c, d3))
    ensures Duration(d) == Some(3600 * a + 60 * b + c)
  {
  }

  /** The three steps of `parse_duration` on `[Nh][Nm][Ns]` each take off
      one part. */
  lemma RenderSteps(hours: Option<nat>, minutes: Option<nat>, seconds: Option<nat>)
    ensures TakeUnit(Render(hours, minutes, seconds), 'h')
      == Some((hours.GetOr(0), Part(minutes, 'm') + Part(seconds, 's')))
    ensures TakeUnit(Part(minutes, 'm') + Part(seconds, 's'), 'm') == Some((minutes.GetOr(0), Part(seconds, 's')))
    ensures TakeUnit(Part(seconds, 's'), 's') == Some((seconds.GetOr(0), ""))
  {
    var h, m, s := Part(hours, 'h'), Part(minutes, 'm'), Part(seconds, 's');
    PartWithout(minutes, 'm', 'h');
    PartWithout(seconds, 's', 'h');
    PartWithout(seconds, 's', 'm');
    TakePart(hours, 'h', m + s);
    TakePart(minutes, 'm', s);
    assert s == s + "";
    TakePart(seconds, 's', "");
  }

  /** The three steps, for parts that may be absent and so count 0. */
  lemma DurationOfParts(hours: Option<nat>, minutes: Option<nat>, seconds: Option<nat>, d: string, d1: string, d2: string)
    requires TakeUnit(d, 'h') == Some((hours.GetOr(0), d1))
    requires TakeUnit(d1, 'm') == Some((minutes.GetOr(0), d2))
    requires TakeUnit(d2, 's') == Some((seconds.GetOr(0), ""))
    ensures Duration(d) == Some(3600 * hours.GetOr(0) + 60 * minutes.GetOr(0) + seconds.GetOr(0))
  {
    DurationSteps(d, hours.GetOr(0), d1, minutes.GetOr(0), d2, seconds.GetOr(0), "");
  }

  /** `parse_duration` reads back any `[Nh][Nm][Ns]` as 3600 h + 60 m + s,
      the absent parts counting 0. */
  lemma DurationOfRender(hours: Option<nat>, minutes: Option<nat>, seconds: Option<nat>)
    ensures Duration(Render(hours, minutes, seconds))
      == Some(3600 * hours.GetOr(0) + 60 * minutes.GetOr(0) + seconds.GetOr(0))
  {
    RenderSteps(hours, minutes, seconds);
    DurationOfParts(hours, minutes, seconds, Render(hours, minutes, seconds),
                    Part(minutes, 'm') + Part(seconds, 's'), Part(seconds, 's'));
  }

  /** "1h2m3s" is an hour, two minutes and three seconds. */
  lemma FullDuration(t: string)
    requires t == "1h2m3s"
    ensures Duration(t) == Some(3723)
  {
    assert t == Render(Some(1), Some(2), Some(3));
    DurationOfRender(Some(1), Some(2), Some(3));
  }

  /** The units must come in the order h, m, s: in "3s2m", `int("3s2")` raises. */
  lemma SecondsBeforeMinutes(t: string)
    requires t == "3s2m"
    ensures Duration(t) == None
  {
    assert t[0..3] == "3s2";
    assert !AllDigits("3s2") by { assert !IsDigit("3s2"[1]); }
    UnreadableMinutes(t, -1, 3);
  }

  /** 3723 seconds are shown as "1:02:03". */
  lemma ClockOf(t: nat)
    requires t == 3723
    ensures FormatSeconds(t) == "1:02:03"
  {
    assert t / 3600 == 1 && (t - 3600) / 60 == 2 && t % 60 == 3;
    assert NatToString(1) == "1" && NatToString(2) == "2" && NatToString(3) == "3";
  }
}
