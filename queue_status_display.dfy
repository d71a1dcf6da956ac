/** The logic of the public queue display (client/src/components/QueueStatus.tsx):
    English ordinals, the 12-hour clock conversion used for "last called", the
    "coming up next" list and the current-number tile. */
module QueueStatusDisplay {
  import opened Common

  // ---------------------------------------------------------------- ordinals

  const Suffixes: seq<string> := ["th", "st", "nd", "rd"]

  /** `s[i]` on the suffix array: `undefined` outside its indices. */
  function SuffixAt(i: int): (t: Option<string>) {
    if 0 <= i < |Suffixes| then Some(Suffixes[i]) else None
  }

  /** `s[(v - 20) % 10] || s[v] || s[0]` with `v = n % 100`, JavaScript's
      remainder throughout; every entry of `s` is a non-empty, truthy string. */
  function OrdinalSuffix(n: int): (t: string)
    ensures t in Suffixes
  {
    var v := JsRem(n, 100);
    match SuffixAt(JsRem(v - 20, 10))
    case Some(t) => t
    case None =>
      match SuffixAt(v)
      case Some(t) => t
      case None => Suffixes[0]
  }

  /** The English rule: "th" for 11 to 13 modulo 100, otherwise by the last digit. */
  function EnglishSuffix(n: nat): (t: string) {
    if 11 <= n % 100 <= 13 then "th"
    else if n % 10 == 1 then "st"
    else if n % 10 == 2 then "nd"
    else if n % 10 == 3 then "rd"
    else "th"
  }

  /** Below 20 the first lookup misses or hits `s[0]`, and `s[v]` decides. */
  lemma SuffixBelowTwenty(v: int)
    requires 0 <= v < 20
    ensures OrdinalSuffix(v) == EnglishSuffix(v)
  {
    var w := JsRem(v - 20, 10);
    assert JsRem(v, 100) == v;
    assert w == -((20 - v) % 10);
    if v == 0 || v == 10 {
      assert w == 0;
    } else {
      assert w < 0;
      assert SuffixAt(w) == None;
    }
  }

  /** From 20 on the first lookup is `s[v % 10]`, which misses for digits above 3. */
  lemma SuffixFromTwenty(v: int)
    requires 20 <= v < 100
    ensures OrdinalSuffix(v) == EnglishSuffix(v)
  {
    var w := JsRem(v - 20, 10);
    assert JsRem(v, 100) == v;
    assert w == v % 10 by {
      assert v - 20 == 10 * ((v - 20) / 10) + (v - 20) % 10;
      assert v == 10 * ((v - 20) / 10 + 2) + (v - 20) % 10;
    }
    assert SuffixAt(v) == None;
  }

  /** For the last two digits `v`, the lookup agrees with the English rule. */
  lemma SuffixOfLastTwoDigits(v: int)
    requires 0 <= v < 100
    ensures OrdinalSuffix(v) == EnglishSuffix(v)
  {
    if v < 20 { SuffixBelowTwenty(v); } else { SuffixFromTwenty(v); }
  }

  lemma LastDigitOfLastTwo(n: nat)
    ensures (n % 100) % 10 == n % 10
  {
    var q, v := n / 100, n % 100;
    var a, b := v / 10, v % 10;
    assert n == 10 * (10 * q + a) + b;
  }

  /** `getOrdinal` follows the English rule on every non-negative number. */
  lemma OrdinalSuffixIsEnglish(n: int)
    requires n >= 0
    ensures OrdinalSuffix(n) == EnglishSuffix(n)
  {
    var v := n % 100;
    assert JsRem(n, 100) == v && JsRem(v, 100) == v;
    LastDigitOfLastTwo(n);
    SuffixOfLastTwoDigits(v);
  }

  /** A negative number always gets "th": both lookups fall outside the array
      or hit its first entry. */
  lemma NegativeOrdinalIsTh(n: int)
    requires n < 0
    ensures OrdinalSuffix(n) == "th"
  {
    var v := JsRem(n, 100);
    assert -100 < v <= 0;
    var w := JsRem(v - 20, 10);
    assert -10 < w <= 0;
  }

  /** `getOrdinal(n)`: the number followed by its suffix. */
  function Ordinal(n: int): (s: string)
    ensures n >= 0 ==> s == NatToString(n) + EnglishSuffix(n)
  {
    if n >= 0 then
      OrdinalSuffixIsEnglish(n);
      IntToString(n) + OrdinalSuffix(n)
    else IntToString(n) + OrdinalSuffix(n)
  }

  // ---------------------------------------------------------------- 12-hour clock

  /** The hour of `getTimeAgo`: `hourValue` after the PM and AM adjustments;
      `hour` is `parseInt` of the hour field, and NaN (`None`) passes through. */
  function ConvertHour(hour: Option<int>, period: string): (r: Option<int>)
    ensures r.None? <==> hour.None?
  {
    match hour
    case None => None
    case Some(h) =>
      var h1 := if period == "PM" && h < 12 then h + 12 else h;
      Some(if period == "AM" && h1 == 12 then 0 else h1)
  }

  predicate IsPeriod(period: string) { period == "AM" || period == "PM" }

  /** The 12-hour reading of a 24-hour hour, as a clock shows it. */
  function To12Hour(h: int): (r: (int, string))
    requires 0 <= h < 24
    ensures 1 <= r.0 <= 12 && IsPeriod(r.1)
  {
    if h == 0 then (12, "AM")
    else if h < 12 then (h, "AM")
    else if h == 12 then (12, "PM")
    else (h - 12, "PM")
  }

  /** Every 12-hour reading converts into a 24-hour hour. */
  lemma ConvertHourInRange(h: int, period: string)
    requires 1 <= h <= 12 && IsPeriod(period)
    ensures ConvertHour(Some(h), period).Some?
    ensures 0 <= ConvertHour(Some(h), period).value <= 23
  {
  }

  /** Converting the clock's 12-hour reading recovers the 24-hour hour. */
  lemma ConvertHourInvertsTo12Hour(h: int)
    requires 0 <= h < 24
    ensures ConvertHour(Some(To12Hour(h).0), To12Hour(h).1) == Some(h)
  {
  }

  /** ... and reading the converted hour on the 12-hour clock gives back the input. */
  lemma To12HourInvertsConvertHour(h: int, period: string)
    requires 1 <= h <= 12 && IsPeriod(period)
    ensures To12Hour(ConvertHour(Some(h), period).value) == (h, period)
  {
  }

  /** Outside a period the hour is left as parsed. */
  lemma ConvertHourWithoutPeriod(h: int, period: string)
    requires !IsPeriod(period)
    ensures ConvertHour(Some(h), period) == Some(h)
  {
  }

  // ---------------------------------------------------------------- the display

  /** One row of "Coming Up Next". */
  datatype Slot = Slot(number: int, caption: string)

  function Label(index: nat): (t: string) {
    if index == 0 then "Up next" else Ordinal(index + 1) + " in line"
  }

  const UpNextLength := 3

  /** `nextNumbers.slice(0, 3)` with their labels. */
  function UpNext(nextNumbers: seq<int>): (r: seq<Slot>)
    ensures |r| == if |nextNumbers| < UpNextLength then |nextNumbers| else UpNextLength
    ensures forall i :: 0 <= i < |r| ==> r[i].number == nextNumbers[i] && r[i].caption == Label(i)
  {
    var n := if |nextNumbers| < UpNextLength then |nextNumbers| else UpNextLength;
    seq(n, i requires 0 <= i < n => Slot(nextNumbers[i], Label(i)))
  }

  /** The three labels read "Up next", "2nd in line" and "3rd in line". */
  lemma UpNextLabels()
    ensures Label(0) == "Up next"
    ensures Label(1) == "2nd in line"
    ensures Label(2) == "3rd in line"
  {
    assert JsRem(2, 100) == 2 && JsRem(2 - 20, 10) == -8;
    assert JsRem(3, 100) == 3 && JsRem(3 - 20, 10) == -7;
    assert OrdinalSuffix(2) == "nd" && OrdinalSuffix(3) == "rd";
    assert NatToString(2) == "2" && NatToString(3) == "3";
  }

  /** The tile's text for no current number, as the file spells it: the UTF-8
      bytes of an em dash read back as Windows-1252. */
  const DashAsWritten := "\U{00E2}\U{20AC}\U{201D}"
  const Dash := "\U{2014}"

  function CurrentDisplayAsWritten(current: int): (s: string)
    ensures current > 0 ==> AllDigits(s) && DigitsValue(s) == current
    ensures current <= 0 ==> s == DashAsWritten
  {
    if current > 0 then
      NatToStringRoundTrip(current);
      IntToString(current)
    else DashAsWritten
  }

  /** The "Now Serving" tile shows the number when it is positive. */
  function CurrentDisplay(current: int): (s: string)
    ensures current > 0 ==> AllDigits(s) && DigitsValue(s) == current
    ensures current <= 0 ==> s == Dash
    ensures current > 0 ==> s == CurrentDisplayAsWritten(current)
  {
    if current > 0 then
      NatToStringRoundTrip(current);
      IntToString(current)
    else Dash
  }

  /** With no current number the tile shows three stray characters, not a dash. */
  lemma DashIsMisencoded(current: int)
    requires current <= 0
    ensures CurrentDisplayAsWritten(current) != CurrentDisplay(current)
    ensures |CurrentDisplayAsWritten(current)| == 3 && |Dash| == 1
  {
  }
}
