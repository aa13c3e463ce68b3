/**
 * The record normalizer and per-flight classifier of data_process/h.py: clock times,
 * operating days, the morning test and the aircraft-size bucket.
 */
module Normalize {
  import opened Wrappers
  import opened Text

  /** A parsed clock time. Hour and minute are NOT range-checked. */
  datatype TimeInfo = TimeInfo(hour: int, minute: int, isNextDay: bool, display: string)

  /** Appended to the display of a time before 06:00 ("next day"). */
  const NextDaySuffix: string := "次日"

  /** `f"{n:02d}"`: zero-padded to two characters, the minus sign counting toward the width. */
  function Pad2(n: int): string {
    if 0 <= n < 10 then "0" + Dec(n) else if n >= 0 then Dec(n) else "-" + Dec(-n)
  }

  /** A two-digit number pads to its own two digits. */
  lemma Pad2TwoDigits(n: int)
    requires 0 <= n < 100
    ensures |Pad2(n)| == 2 && AllDigits(Pad2(n)) && DigitsValue(Pad2(n)) == n
  {
    if n < 10 {
      DigitsValueAppend("0", Dec(n));
    } else {
      DecLength(n);
    }
  }

  /** The record built from an hour and a minute: a time before 06:00 is "next day". */
  function MakeTimeInfo(hour: int, minute: int): TimeInfo {
    var next := hour < 6;
    TimeInfo(hour, minute, next, Pad2(hour) + ":" + Pad2(minute) + (if next then NextDaySuffix else ""))
  }

  /** The characters of `s` before its first '.'. */
  function IntegerPart(s: string): (r: string)
    ensures |r| <= |s| && r == s[..|r|] && '.' !in r
    ensures |r| < |s| ==> s[|r|] == '.'
  {
    if s == [] || s[0] == '.' then [] else [s[0]] + IntegerPart(s[1..])
  }

  /** `s.replace('.', '').isdigit()`: only digits and dots, and at least one digit. */
  predicate IsDigitsAndDots(s: string) {
    && (forall k :: 0 <= k < |s| ==> IsDigit(s[k]) || s[k] == '.')
    && Remove(s, '.') != []
  }

  /**
   * `str(int(float(s)))` for digits-and-dots text, anything else kept as it is; `None` where
   * `float()` raises (two or more dots). For at most one dot this is the integer part with
   * its leading zeros dropped.
   */
  function NumericForm(s: string): Option<string> {
    if !IsDigitsAndDots(s) then Some(s)
    else if Count(s, '.') >= 2 then None
    else
      var ip := IntegerPart(s);
      assert AllDigits(ip) by {
        forall k | 0 <= k < |ip| ensures IsDigit(ip[k]) {
          assert ip[k] == s[k];
        }
      }
      Some(Dec(DigitsValue(ip)))
  }

  /** Both halves parsed by `int()`, or `None`. */
  function BothInts(a: string, b: string): Option<(int, int)> {
    match (PyInt(a), PyInt(b))
    case (Some(h), Some(m)) => Some((h, m))
    case _ => None
  }

  /** "HH:MM": exactly two pieces around ':' and both read by `int()`. */
  function ColonFields(t: string): Option<(int, int)> {
    var parts := SplitOn(t, ':');
    if |parts| != 2 then None else BothInts(parts[0], parts[1])
  }

  /** Fixed-width digits: up to 2 are minutes, 3 are H+MM, 4 or more are HH+rest. */
  function FixedWidthFields(u: string): Option<(int, int)> {
    if |u| <= 2 then
      (match PyInt(u) case Some(m) => Some((0, m)) case None => None)
    else if |u| == 3 then BothInts(u[..1], u[1..])
    else BothInts(u[..2], u[2..])
  }

  /** The hour and minute read from a stripped time text, or `None`. */
  function TimeFields(t: string): Option<(int, int)> {
    if ':' in t then ColonFields(t)
    else match NumericForm(t) case None => None case Some(u) => FixedWidthFields(u)
  }

  /** `parse_time`: a missing cell or any failure of `int()`, `float()` or unpacking gives `None`. */
  function ParseTime(cell: Option<string>): Option<TimeInfo> {
    match cell
    case None => None
    case Some(raw) =>
      match TimeFields(Strip(raw))
      case None => None
      case Some(f) => Some(MakeTimeInfo(f.0, f.1))
  }

  /** A parsed time is "next day" exactly before 06:00, and its display says so. */
  lemma ParseTimeNextDay(cell: Option<string>)
    requires ParseTime(cell).Some?
    ensures var r := ParseTime(cell).value;
      && r.isNextDay == (r.hour < 6)
      && |r.display| >= 5
      && (r.isNextDay <==> |r.display| >= 7 && r.display[|r.display| - 2..] == NextDaySuffix)
  {
    var r := ParseTime(cell).value;
    var base := Pad2(r.hour) + ":" + Pad2(r.minute);
    assert r.display == base + (if r.isNextDay then NextDaySuffix else "");
    if !r.isNextDay && |r.display| >= 7 {
      assert r.display == base;
      var tail := r.display[|r.display| - 2..];
      assert tail[0] == r.display[|r.display| - 2];
      assert r.display[|r.display| - 2] in base;
      PadHasNoSuffixChar(r.hour);
      PadHasNoSuffixChar(r.minute);
      assert tail != NextDaySuffix;
    }
  }

  /** The digits, '-' and ':' of a display never include the first character of the suffix. */
  lemma PadHasNoSuffixChar(n: int)
    ensures NextDaySuffix[0] !in Pad2(n)
  {
    var p := Pad2(n);
    forall k | 0 <= k < |p|
      ensures p[k] != NextDaySuffix[0]
    {
      if 0 <= n < 10 {
        assert k == 0 || p[k] == Dec(n)[k - 1];
      } else if n < 0 {
        assert k == 0 || p[k] == Dec(-n)[k - 1];
      }
    }
  }

  /** Fixed-width splitting of a digit string: at most two digits are minutes of hour 0. */
  lemma FixedWidthShort(u: string)
    requires u != [] && AllDigits(u) && |u| <= 2
    ensures FixedWidthFields(u) == Some((0, DigitsValue(u) as int))
  {
    PyIntOfDigits(u);
  }

  /** Three digits are H and MM. */
  lemma FixedWidthThree(u: string)
    requires AllDigits(u) && |u| == 3
    ensures FixedWidthFields(u) == Some((DigitsValue(u[..1]) as int, DigitsValue(u[1..]) as int))
  {
    var a, b := u[..1], u[1..];
    PyIntOfDigits(a);
    PyIntOfDigits(b);
    assert BothInts(a, b) == Some((DigitsValue(a) as int, DigitsValue(b) as int));
  }

  /** Four digits or more are HH and the rest. */
  lemma FixedWidthLong(u: string)
    requires AllDigits(u) && |u| >= 4
    ensures FixedWidthFields(u) == Some((DigitsValue(u[..2]) as int, DigitsValue(u[2..]) as int))
  {
    var a, b := u[..2], u[2..];
    PyIntOfDigits(a);
    PyIntOfDigits(b);
    assert BothInts(a, b) == Some((DigitsValue(a) as int, DigitsValue(b) as int));
  }

  /** Fixed-width splitting of a digit string never fails. */
  lemma FixedWidthOfDigits(u: string)
    requires u != [] && AllDigits(u)
    ensures FixedWidthFields(u).Some?
  {
    if |u| <= 2 {
      FixedWidthShort(u);
    } else if |u| == 3 {
      FixedWidthThree(u);
    } else {
      FixedWidthLong(u);
    }
  }

  /** A stripped text of plain digits goes through `float()`: its fields are the fixed-width reading of `str(value)`. */
  lemma DigitsTimeFields(s: string)
    requires s != [] && AllDigits(s)
    ensures TimeFields(Strip(s)) == FixedWidthFields(Dec(DigitsValue(s)))
  {
    StripIdle(s);
    assert ':' !in s;
    AbsentChar(s, '.');
    assert IsDigitsAndDots(s);
    assert IntegerPart(s) == s;
    assert NumericForm(s) == Some(Dec(DigitsValue(s)));
  }

  /** A cell of plain digits is read as the fixed-width spelling of its value (leading zeros dropped). */
  lemma ParseTimeOfDigits(s: string)
    requires s != [] && AllDigits(s)
    ensures var u := Dec(DigitsValue(s));
      FixedWidthFields(u).Some? &&
      ParseTime(Some(s)) == Some(MakeTimeInfo(FixedWidthFields(u).value.0, FixedWidthFields(u).value.1))
  {
    var u := Dec(DigitsValue(s));
    DigitsTimeFields(s);
    FixedWidthOfDigits(u);
    var (h, m) := FixedWidthFields(u).value;
    ParseTimeOfFields(s, h, m);
  }

  /**
   * Digits without a leading zero are read fixed-width: up to two are the minutes of hour 0
   * ("5" is 00:05), three are H and MM ("815" is 08:15), four or more are HH and the rest
   * ("2250" is 22:50).
   */
  lemma ParseTimeMinutesOnly(s: string)
    requires s != [] && AllDigits(s) && (s[0] != '0' || |s| == 1) && |s| <= 2
    ensures ParseTime(Some(s)) == Some(MakeTimeInfo(0, DigitsValue(s)))
  {
    CanonicalTimeFields(s);
    FixedWidthShort(s);
    ParseTimeOfFields(s, 0, DigitsValue(s) as int);
  }

  /** Three digits are H and MM. */
  lemma ParseTimeThreeDigits(s: string)
    requires |s| == 3 && AllDigits(s) && s[0] != '0'
    ensures ParseTime(Some(s)) == Some(MakeTimeInfo(DigitsValue(s[..1]), DigitsValue(s[1..])))
  {
    var h, m := DigitsValue(s[..1]) as int, DigitsValue(s[1..]) as int;
    ThreeDigitFields(s);
    ParseTimeOfFields(s, h, m);
  }

  lemma ThreeDigitFields(s: string)
    requires |s| == 3 && AllDigits(s) && s[0] != '0'
    ensures TimeFields(Strip(s)) == Some((DigitsValue(s[..1]) as int, DigitsValue(s[1..]) as int))
  {
    CanonicalTimeFields(s);
    FixedWidthThree(s);
  }

  /** Four digits or more are HH and the rest. */
  lemma ParseTimeFourOrMore(s: string)
    requires |s| >= 4 && AllDigits(s) && s[0] != '0'
    ensures ParseTime(Some(s)) == Some(MakeTimeInfo(DigitsValue(s[..2]), DigitsValue(s[2..])))
  {
    CanonicalTimeFields(s);
    FixedWidthLong(s);
    ParseTimeOfFields(s, DigitsValue(s[..2]) as int, DigitsValue(s[2..]) as int);
  }

  /** Without a leading zero, `str(int(float(s)))` gives `s` back. */
  lemma CanonicalTimeFields(s: string)
    requires s != [] && AllDigits(s) && (s[0] != '0' || |s| == 1)
    ensures TimeFields(Strip(s)) == FixedWidthFields(s)
  {
    DecOfDigits(s);
    DigitsTimeFields(s);
  }

  /** One to four digits, leading zeros or not, read as HHMM: the hour is value / 100, the minute value % 100. */
  lemma ParseTimeUpToFourDigits(s: string)
    requires 1 <= |s| <= 4 && AllDigits(s)
    ensures ParseTime(Some(s)).Some?
    ensures ParseTime(Some(s)).value.hour == DigitsValue(s) / 100
    ensures ParseTime(Some(s)).value.minute == DigitsValue(s) % 100
  {
    var v := DigitsValue(s);
    DigitsTimeFields(s);
    DigitsValueBounds(s);
    Pow10Monotone(|s|, 4);
    assert Pow10(4) == 10000;
    FixedWidthOfSmallValue(v);
    ParseTimeOfFields(s, v / 100, v % 100);
  }

  /** Below 10000, the fixed-width reading of `str(v)` is (v / 100, v % 100). */
  lemma FixedWidthOfSmallValue(v: nat)
    requires v < 10000
    ensures FixedWidthFields(Dec(v)) == Some((v / 100, v % 100))
  {
    var u := Dec(v);
    DecWidth(v);
    if |u| <= 2 {
      FixedWidthShort(u);
    } else if |u| == 3 {
      FixedWidthThree(u);
      HundredsSplit(u, 1);
    } else {
      FixedWidthLong(u);
      HundredsSplit(u, 2);
    }
  }

  /** Below 10000, `str(v)` has at most four digits, and at most two only below 100. */
  lemma DecWidth(v: nat)
    requires v < 10000
    ensures |Dec(v)| <= 4
    ensures |Dec(v)| <= 2 ==> v < 100
  {
    var n := |Dec(v)|;
    DecLength(v);
    assert Pow10(4) == 10000 && Pow10(2) == 100;
    if n >= 5 {
      Pow10Monotone(4, n - 1);
    }
    if n <= 2 {
      Pow10Monotone(n, 2);
    }
  }

  /** Cutting the last two digits off a number's spelling: quotient and remainder by 100. */
  lemma HundredsSplit(u: string, k: nat)
    requires AllDigits(u) && k + 2 == |u|
    ensures DigitsValue(u) / 100 == DigitsValue(u[..k])
    ensures DigitsValue(u) % 100 == DigitsValue(u[k..])
  {
    assert u == u[..k] + u[k..];
    DigitsValueAppend(u[..k], u[k..]);
    DigitsValueBounds(u[k..]);
    assert Pow10(2) == 100;
    DivMod100(DigitsValue(u), DigitsValue(u[..k]), DigitsValue(u[k..]));
  }

  lemma DivMod100(v: int, a: int, b: int)
    requires v == a * 100 + b && 0 <= b < 100
    ensures v / 100 == a && v % 100 == b
  {
  }

  lemma {:induction false} Pow10Monotone(a: nat, b: nat)
    requires a <= b
    ensures Pow10(a) <= Pow10(b)
  {
    if a < b {
      Pow10Monotone(a, b - 1);
    }
  }

  /** A parsed time's display, without the suffix, parses back to the same time (for two-digit fields). */
  lemma ParseTimeDisplayRoundTrip(cell: Option<string>)
    requires ParseTime(cell).Some?
    requires 0 <= ParseTime(cell).value.hour < 100 && 0 <= ParseTime(cell).value.minute < 100
    ensures |ParseTime(cell).value.display| >= 5
    ensures ParseTime(Some(ParseTime(cell).value.display[..5])) == ParseTime(cell)
  {
    var r := ParseTime(cell).value;
    assert r == MakeTimeInfo(r.hour, r.minute);
    Pad2TwoDigits(r.hour);
    Pad2TwoDigits(r.minute);
    assert r.display[..5] == ClockText(r.hour, r.minute);
    ClockTextParses(r.hour, r.minute);
  }

  /** "HH:MM" from two numbers. */
  function ClockText(h: int, m: int): string {
    Pad2(h) + ":" + Pad2(m)
  }

  /** "HH:MM" with two-digit fields parses to that hour and minute. */
  lemma ClockTextParses(h: int, m: int)
    requires 0 <= h < 100 && 0 <= m < 100
    ensures ParseTime(Some(ClockText(h, m))) == Some(MakeTimeInfo(h, m))
  {
    var a, b := Pad2(h), Pad2(m);
    Pad2TwoDigits(h);
    Pad2TwoDigits(m);
    ClockTimeFields(a, b);
    PyIntOfDigits(a);
    PyIntOfDigits(b);
    ParseTimeOfFields(ClockText(h, m), h, m);
  }

  /** Whatever text strips to fields (h, m) is read as h:m. */
  lemma ParseTimeOfFields(t: string, h: int, m: int)
    requires TimeFields(Strip(t)) == Some((h, m))
    ensures ParseTime(Some(t)) == Some(MakeTimeInfo(h, m))
    ensures ParseTime(Some(t)).value.hour == h && ParseTime(Some(t)).value.minute == m
  {
  }

  /** "aa:bb" is already stripped and reads as its two halves. */
  lemma ClockTimeFields(a: string, b: string)
    requires |a| == 2 && |b| == 2 && AllDigits(a) && AllDigits(b)
    ensures TimeFields(Strip(a + ":" + b)) == BothInts(a, b)
  {
    ClockTextStripped(a, b);
    ClockTextFields(a, b);
  }

  /** The two fields of "aa:bb" are `a` and `b`. */
  lemma ClockTextFields(a: string, b: string)
    requires |a| == 2 && |b| == 2 && AllDigits(a) && AllDigits(b)
    ensures ':' in a + ":" + b
    ensures ColonFields(a + ":" + b) == BothInts(a, b)
  {
    assert (a + ":" + b)[2] == ':';
    SplitOnTwo(a, b, ':');
  }

  lemma ClockTextStripped(a: string, b: string)
    requires |a| == 2 && |b| == 2 && AllDigits(a) && AllDigits(b)
    ensures Strip(a + ":" + b) == a + ":" + b
  {
    var t := a + ":" + b;
    assert IsDigit(t[0]) && IsDigit(t[4]);
    StripIdle(t);
  }

  predicate NoDigit(s: string) {
    forall k :: 0 <= k < |s| ==> !IsDigit(s[k])
  }

  /** `int()` fails on text without a digit. */
  lemma PyIntNeedsDigit(x: string)
    requires NoDigit(x)
    ensures PyInt(x) == None
  {
    var t := Strip(x);
    if t != [] {
      var i := StripSlice(x);
      assert forall k :: 0 <= k < |t| ==> t[k] == x[i + k];
      var body := if t[0] == '-' || t[0] == '+' then t[1..] else t;
      if body != [] {
        assert body[0] == t[|t| - |body|];
      }
    }
  }

  /** A cell without any digit never parses. */
  lemma ParseTimeNeedsDigit(s: string)
    requires NoDigit(s)
    ensures ParseTime(Some(s)) == None
  {
    var t := Strip(s);
    var i := StripSlice(s);
    assert NoDigit(t) by {
      forall k | 0 <= k < |t| ensures !IsDigit(t[k]) {
        assert t[k] == s[i + k];
      }
    }
    if ':' in t {
      var parts := SplitOn(t, ':');
      if |parts| == 2 {
        forall j, k | 0 <= j < 2 && 0 <= k < |parts[j]| ensures !IsDigit(parts[j][k]) {
          SplitOnChars(t, ':', j, k);
        }
        PyIntNeedsDigit(parts[0]);
      }
    } else {
      assert !IsDigitsAndDots(t) || Count(t, '.') >= 2 by {
        if IsDigitsAndDots(t) {
          OnlyDotsLeaveNothing(t);
        }
      }
      if !IsDigitsAndDots(t) {
        if |t| <= 2 {
          PyIntNeedsDigit(t);
        } else if |t| == 3 {
          PyIntNeedsDigit(t[..1]);
        } else {
          PyIntNeedsDigit(t[..2]);
        }
      }
    }
  }

  /** Text of dots alone has nothing left once the dots are removed. */
  lemma {:induction false} OnlyDotsLeaveNothing(t: string)
    requires forall k :: 0 <= k < |t| ==> t[k] == '.'
    ensures Remove(t, '.') == []
  {
    if t != [] {
      OnlyDotsLeaveNothing(t[..|t| - 1]);
    }
  }

  // ---------------------------------------------------------------------------
  // Operating days

  /** The decimal digits of `s`, in order, as numbers (duplicates kept). */
  function DigitsIn(s: string): (days: seq<int>)
    ensures |days| <= |s|
    ensures forall i :: 0 <= i < |days| ==> 0 <= days[i] <= 9
  {
    if s == [] then []
    else DigitsIn(s[..|s| - 1]) + (if IsDigit(s[|s| - 1]) then [DigitValue(s[|s| - 1]) as int] else [])
  }

  /** `parse_days`: every digit character of the stripped cell; nothing for a missing cell. */
  function ParseDays(cell: Option<string>): (days: seq<int>)
    ensures cell.None? ==> days == []
    ensures cell.Some? ==> |days| <= |Strip(cell.value)|
  {
    match cell
    case None => []
    case Some(s) => DigitsIn(Strip(s))
  }

  lemma {:induction false} DigitsInAppend(a: string, b: string)
    ensures DigitsIn(a + b) == DigitsIn(a) + DigitsIn(b)
  {
    if b != [] {
      assert (a + b)[..|a + b| - 1] == a + b[..|b| - 1];
      DigitsInAppend(a, b[..|b| - 1]);
    } else {
      assert a + b == a;
    }
  }

  lemma {:induction false} DigitsInSpace(s: string)
    requires AllSpace(s)
    ensures DigitsIn(s) == []
  {
    if s != [] {
      DigitsInSpace(s[..|s| - 1]);
    }
  }

  /** Stripping the cell first changes nothing: whitespace holds no digit. */
  lemma ParseDaysIgnoresStrip(s: string)
    ensures ParseDays(Some(s)) == DigitsIn(s)
  {
    var i := StripSlice(s);
    DigitsInAround(s, Strip(s), i);
  }

  /** Whitespace before and after the slice `t` of `s` at `i` adds no digit. */
  lemma DigitsInAround(s: string, t: string, i: nat)
    requires i + |t| <= |s| && t == s[i..i + |t|]
    requires AllSpace(s[..i]) && AllSpace(s[i + |t|..])
    ensures DigitsIn(s) == DigitsIn(t)
  {
    var before, after := s[..i], s[i + |t|..];
    assert s == before + t + after;
    DigitsInAppend(before + t, after);
    DigitsInAppend(before, t);
    DigitsInSpace(before);
    DigitsInSpace(after);
  }

  /** A day number is listed exactly when its digit occurs in the text. */
  lemma {:induction false} DigitsInMembership(s: string, d: int)
    ensures d in DigitsIn(s) <==> exists k :: 0 <= k < |s| && IsDigit(s[k]) && DigitValue(s[k]) == d
  {
    if s != [] {
      var t := s[..|s| - 1];
      DigitsInMembership(t, d);
      if exists k :: 0 <= k < |s| && IsDigit(s[k]) && DigitValue(s[k]) == d {
        var k :| 0 <= k < |s| && IsDigit(s[k]) && DigitValue(s[k]) == d;
        if k < |t| {
          assert t[k] == s[k];
        }
      }
      if d in DigitsIn(t) {
        var k :| 0 <= k < |t| && IsDigit(t[k]) && DigitValue(t[k]) == d;
        assert s[k] == t[k];
      }
    }
  }

  /** On a string of digits, every character gives one day, in order. */
  lemma {:induction false} DigitsInOfDigits(s: string)
    requires AllDigits(s)
    ensures |DigitsIn(s)| == |s|
    ensures forall k :: 0 <= k < |s| ==> DigitsIn(s)[k] == DigitValue(s[k]) as int
  {
    if s != [] {
      DigitsInOfDigits(s[..|s| - 1]);
    }
  }

  // ---------------------------------------------------------------------------
  // Morning flights

  /** `is_morning_flight`: false without a time, else 6 <= hour < 12. */
  function IsMorningFlight(t: Option<TimeInfo>): bool {
    t.Some? && 6 <= t.value.hour < 12
  }

  /** A one-to-four digit departure cell is a morning one exactly when its value lies in [600, 1200). */
  lemma MorningOfDigits(s: string)
    requires 1 <= |s| <= 4 && AllDigits(s)
    ensures IsMorningFlight(ParseTime(Some(s))) <==> 600 <= DigitsValue(s) < 1200
  {
    ParseTimeUpToFourDigits(s);
  }

  /** A morning departure is never flagged "next day", and no unparsed time is morning. */
  lemma MorningIsNotNextDay(cell: Option<string>)
    ensures IsMorningFlight(ParseTime(cell)) ==> !ParseTime(cell).value.isNextDay
    ensures ParseTime(cell).None? ==> !IsMorningFlight(ParseTime(cell))
  {
    if ParseTime(cell).Some? {
      ParseTimeNextDay(cell);
    }
  }

  // ---------------------------------------------------------------------------
  // Aircraft size

  datatype AircraftSize = Small | Medium | Large | Default

  /** The label the map shows for each bucket. */
  function SizeLabel(z: AircraftSize): string {
    match z
    case Small => "小型"
    case Medium => "中型"
    case Large => "大型"
    case Default => "默认"
  }

  const SmallCodes: seq<string> := ["E190", "E195"]
  const MediumCodes: seq<string> := ["A319", "A19N", "A320", "A20N", "A21N", "A321", "B737", "B738", "B38M"]
  const LargeCodes: seq<string> := ["A332", "A333", "B788", "B789"]

  /** `any(code in s for code in codes)` */
  predicate HasAny(s: string, codes: seq<string>) {
    HasAnyFrom(s, codes, 0)
  }

  /** Some code at position `i` or later of `codes` occurs in `s`. */
  predicate HasAnyFrom(s: string, codes: seq<string>, i: nat)
    decreases |codes| - i
  {
    i < |codes| && (Contains(s, codes[i]) || HasAnyFrom(s, codes, i + 1))
  }

  lemma {:induction false} HasAnyFromExists(s: string, codes: seq<string>, i: nat)
    ensures HasAnyFrom(s, codes, i) <==> exists k :: i <= k < |codes| && Contains(s, codes[k])
    decreases |codes| - i
  {
    if i < |codes| {
      HasAnyFromExists(s, codes, i + 1);
    }
  }

  /** `HasAny` is the existential reading of `any(...)`. */
  lemma HasAnyExists(s: string, codes: seq<string>)
    ensures HasAny(s, codes) <==> exists i :: 0 <= i < |codes| && Contains(s, codes[i])
  {
    HasAnyFromExists(s, codes, 0);
  }

  function Hit(b: bool): nat {
    if b then 1 else 0
  }

  /**
   * The bucket of a normalised type text, tested by substring against the three code lists:
   * exactly one list hit names its bucket; no hit, or hits in two or three lists, is the
   * default bucket.
   */
  function SizeOfText(s: string): (size: AircraftSize)
    ensures var small, medium, large := HasAny(s, SmallCodes), HasAny(s, MediumCodes), HasAny(s, LargeCodes);
      && (size == Small <==> small && !medium && !large)
      && (size == Medium <==> !small && medium && !large)
      && (size == Large <==> !small && !medium && large)
      && (size == Default <==> Hit(small) + Hit(medium) + Hit(large) != 1)
  {
    var small, medium, large := HasAny(s, SmallCodes), HasAny(s, MediumCodes), HasAny(s, LargeCodes);
    var count := Hit(small) + Hit(medium) + Hit(large);
    if count == 0 then Default
    else if count == 1 then (if small then Small else if medium then Medium else Large)
    else Default
  }

  /** `classify_aircraft_size`: a missing cell is the default bucket; text is stripped and upper-cased first. */
  function ClassifyAircraftSize(cell: Option<string>): (size: AircraftSize)
    ensures cell.None? ==> size == Default
  {
    match cell
    case None => Default
    case Some(raw) => SizeOfText(Upper(Strip(raw)))
  }

  lemma {:induction false} UpperIdempotent(s: string)
    ensures Upper(Upper(s)) == Upper(s)
  {
  }

  /** Upper-casing adds no whitespace at the ends. */
  lemma UpperKeepsStripped(s: string)
    requires s == [] || (!IsSpace(s[0]) && !IsSpace(s[|s| - 1]))
    ensures Strip(Upper(s)) == Upper(s)
  {
    if s != [] {
      UpperEnds(s);
    }
    StripIdle(Upper(s));
  }

  lemma UpperEnds(s: string)
    requires s != [] && !IsSpace(s[0]) && !IsSpace(s[|s| - 1])
    ensures !IsSpace(Upper(s)[0]) && !IsSpace(Upper(s)[|s| - 1])
  {
    UpperCharNotSpace(s[0]);
    UpperCharNotSpace(s[|s| - 1]);
  }

  lemma UpperCharNotSpace(c: char)
    requires !IsSpace(c)
    ensures !IsSpace(UpperChar(c))
  {
  }

  /** Case and surrounding whitespace do not matter: classifying the normalised text gives the same bucket. */
  lemma ClassifyNormalised(raw: string)
    ensures ClassifyAircraftSize(Some(Upper(Strip(raw)))) == ClassifyAircraftSize(Some(raw))
  {
    var s := Upper(Strip(raw));
    UpperKeepsStripped(Strip(raw));
    UpperIdempotent(Strip(raw));
    assert Upper(Strip(s)) == s;
  }

  /** Text already stripped and upper-case is classified as it stands. */
  lemma ClassifyPlain(s: string, size: AircraftSize)
    requires s != [] && !IsSpace(s[0]) && !IsSpace(s[|s| - 1]) && NoLowerFrom(s, 0)
    requires SizeOfText(s) == size
    ensures ClassifyAircraftSize(Some(s)) == size
  {
    StripIdle(s);
    UpperOfNoLower(s);
  }

  /** One code of the list occurring in `s` is a hit for the list. */
  lemma HasCodeAt(s: string, codes: seq<string>, i: nat)
    requires i < |codes| && Contains(s, codes[i])
    ensures HasAny(s, codes)
  {
    HasAnyExists(s, codes);
  }

  /** No small code occurs in `s`. */
  lemma NoSmallCode(s: string)
    requires !Contains(s, "E190") && !Contains(s, "E195")
    ensures !HasAny(s, SmallCodes)
  {
    assert !HasAnyFrom(s, SmallCodes, 1);
  }

  /** No medium code occurs in `s`, walked down the list a few codes at a time. */
  lemma NoMediumCode(s: string)
    requires !Contains(s, "A319") && !Contains(s, "A19N") && !Contains(s, "A320")
    requires !Contains(s, "A20N") && !Contains(s, "A21N") && !Contains(s, "A321")
    requires !Contains(s, "B737") && !Contains(s, "B738") && !Contains(s, "B38M")
    ensures !HasAny(s, MediumCodes)
  {
    assert !HasAnyFrom(s, MediumCodes, 6);
    assert !HasAnyFrom(s, MediumCodes, 3);
  }

  /** No large code occurs in `s`. */
  lemma NoLargeCode(s: string)
    requires !Contains(s, "A332") && !Contains(s, "A333") && !Contains(s, "B788") && !Contains(s, "B789")
    ensures !HasAny(s, LargeCodes)
  {
    assert !HasAnyFrom(s, LargeCodes, 2);
  }

  /** Two codes from the medium list only: medium. */
  lemma ClassifyOneListExample()
    ensures ClassifyAircraftSize(Some("A320/B738")) == Medium
  {
    OneListHits();
    ClassifyPlain("A320/B738", Medium);
  }

  lemma OneListHits()
    ensures !HasAny("A320/B738", SmallCodes) && HasAny("A320/B738", MediumCodes) && !HasAny("A320/B738", LargeCodes)
  {
    NoSmallCode("A320/B738");
    HasCodeAt("A320/B738", MediumCodes, 2);
    NoLargeCode("A320/B738");
  }

  /** Codes from the small and the large list: the default bucket. */
  lemma ClassifyMixedExample()
    ensures ClassifyAircraftSize(Some("E190/A332")) == Default
  {
    HasCodeAt("E190/A332", SmallCodes, 0);
    HasCodeAt("E190/A332", LargeCodes, 0);
    ClassifyPlain("E190/A332", Default);
  }

  /** A small-list code alone: small. */
  lemma ClassifySmallExample()
    ensures ClassifyAircraftSize(Some("E195")) == Small
  {
    HasCodeAt("E195", SmallCodes, 1);
    NoMediumCode("E195");
    NoLargeCode("E195");
    ClassifyPlain("E195", Small);
  }

  /** A large-list code alone: large. */
  lemma ClassifyLargeExample()
    ensures ClassifyAircraftSize(Some("B789")) == Large
  {
    NoSmallCode("B789");
    NoMediumCode("B789");
    HasCodeAt("B789", LargeCodes, 3);
    ClassifyPlain("B789", Large);
  }

  /** A type on none of the lists: the default bucket. */
  lemma ClassifyUnknownExample()
    ensures ClassifyAircraftSize(Some("C919")) == Default
  {
    NoSmallCode("C919");
    NoMediumCode("C919");
    NoLargeCode("C919");
    ClassifyPlain("C919", Default);
  }

  /** Containment, not equality: a longer code that contains a listed one takes its bucket. */
  lemma ClassifySubstringExample()
    ensures ClassifyAircraftSize(Some("A3201")) == Medium
  {
    NoSmallCode("A3201");
    HasCodeAt("A3201", MediumCodes, 2);
    NoLargeCode("A3201");
    ClassifyPlain("A3201", Medium);
  }

  /** A blank on each side of the text does not change the bucket. */
  lemma ClassifyIgnoresBlanks(s: string, a: char, b: char)
    requires IsSpace(a) && IsSpace(b)
    ensures ClassifyAircraftSize(Some([a] + s + [b])) == ClassifyAircraftSize(Some(s))
  {
    StripSpaceAround(s, a, b);
  }
}
