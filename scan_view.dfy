/** The decision logic of the customer's ticket page
    (client/src/pages/ScanView.tsx): recognising a QR-scan path, choosing the
    ticket number to show, the number of people ahead and the estimated wait
    text (in Swedish, as the page shows it). */
module ScanView {
  import opened Common
  import opened Schema

  /** `number === "qr" || number.startsWith("qr/")` on the route parameter,
      which is absent on the bare `/scan` route. */
  predicate IsQrScan(number: Option<string>)
    ensures IsQrScan(number) ==> number.Some? && StartsWith(number.value, "qr")
  {
    number == Some("qr") || (number.Some? && StartsWith(number.value, "qr/"))
  }

  /** `getEffectiveNumber`: the number in the URL when it is present, not a
      QR path and numeric (`parsed` is `parseInt` of it, `None` for NaN);
      otherwise the number just issued by the scan (`None` while there is none). */
  function EffectiveNumber(number: Option<string>, parsed: Option<int>, issued: Option<int>): (r: Option<int>)
    ensures IsQrScan(number) ==> r == issued
    ensures number.None? || number == Some("") || parsed.None? ==> r == issued
    ensures number.Some? && number.value != "" && !IsQrScan(number) && parsed.Some? ==> r == parsed
  {
    if IsQrScan(number) || number.None? || number.value == "" || parsed.None? then issued
    else parsed
  }

  /** A QR path never reads as a number of its own: the issued number is shown. */
  lemma QrPathShowsIssuedNumber(rest: string, parsed: Option<int>, issued: Option<int>)
    ensures EffectiveNumber(Some("qr/" + rest), parsed, issued) == issued
  {
    assert ("qr/" + rest)[..3] == "qr/";
  }

  /** The waiting numbers below `effective`: the people ahead. */
  function PeopleAhead(nextNumbers: seq<int>, effective: int): (n: nat)
    ensures n <= |nextNumbers|
  {
    |Filter(nextNumbers, x => x < effective)|
  }

  /** In the ascending waiting list, the people ahead of a waiting ticket are
      exactly those before it: the count is its position. */
  lemma PeopleAheadIsPosition(nextNumbers: seq<int>, i: nat)
    requires StrictlyAscending(nextNumbers)
    requires i < |nextNumbers|
    ensures PeopleAhead(nextNumbers, nextNumbers[i]) == i
  {
    var e := nextNumbers[i];
    FilterPrefix(nextNumbers, x => x < e, i);
  }

  const NextInLine := "Du är näst på tur!"
  const OneMinute := "~1 minut"
  const NoWait := "0 minuter"

  /** The estimated wait for `minutes` minutes. */
  function WaitText(minutes: int): (t: string)
    ensures t == NextInLine <==> minutes == 0
    ensures minutes != 0 ==> |t| > 0 && t[0] == '~'
  {
    if minutes == 0 then NextInLine
    else
      var t := "~" + Amount(minutes);
      assert t[0] != NextInLine[0];
      t
  }

  /** The estimate after the `~`: minutes below an hour, otherwise hours
      (`timme` for one, `timmar` for more) and the remaining minutes, if any. */
  function Amount(minutes: int): (t: string)
    ensures t == "1 minut" <==> minutes == 1
  {
    if minutes == 1 then "1 minut"
    else if minutes < 60 then
      IntToStringNonEmpty(minutes);
      IntToString(minutes) + " minuter"
    else
      var hours, rest := minutes / 60, minutes % 60;
      var d := IntToString(hours);
      var t := d + " timm" + (if hours != 1 then "ar" else "e")
        + (if rest > 0 then " " + IntToString(rest) + " min" else "");
      IntToStringNonEmpty(hours);
      assert |d| == 1 ==> t[2] == 't';
      t
  }

  lemma IntToStringNonEmpty(i: int)
    ensures |IntToString(i)| >= 1
  {
    NatToStringWellFormed(if i < 0 then -i else i);
  }

  /** The singular text appears for exactly one minute. */
  lemma {:induction false} OneMinuteOnlyForOne(minutes: int)
    ensures WaitText(minutes) == OneMinute <==> minutes == 1
  {
    var t := WaitText(minutes);
    if minutes != 0 && minutes != 1 {
      if minutes < 60 {
        IntToStringNonEmpty(minutes);
        assert |t| >= 10;
      } else {
        var hours := minutes / 60;
        IntToStringNonEmpty(hours);
        var d := IntToString(hours);
        if |d| == 1 {
          assert t[3] == 't';
        } else {
          assert |t| >= 9;
        }
      }
    }
  }

  /** Below an hour (and above one minute) the text is "~N minuter", and N
      reads back as the number of minutes. */
  lemma WaitTextBelowAnHour(minutes: int)
    requires 1 < minutes < 60
    ensures var t := WaitText(minutes);
              t[0] == '~' && EndsWith(t, " minuter")
              && AllDigits(t[1..|t| - 8]) && DigitsValue(t[1..|t| - 8]) == minutes
  {
    var d := IntToString(minutes);
    NatToStringRoundTrip(minutes);
    var t := WaitText(minutes);
    assert t == "~" + d + " minuter";
    assert t[1..|t| - 8] == d;
  }

  /** From an hour on the text starts with the hour count, which reads back;
      the word is "timme" (not "timmar") exactly for one hour, and the text
      ends in " min" exactly when minutes remain beyond the full hours. */
  lemma WaitTextInHours(minutes: int)
    requires minutes >= 60
    ensures var t, d := WaitText(minutes), IntToString(minutes / 60);
              StartsWith(t, "~" + d + " timm")
              && AllDigits(d) && DigitsValue(d) == minutes / 60
              && |t| > |d| + 6 && (t[|d| + 6] == 'e' <==> minutes / 60 == 1)
              && (EndsWith(t, " min") <==> minutes % 60 > 0)
  {
    var hours, rest := minutes / 60, minutes % 60;
    var word := if hours != 1 then "ar" else "e";
    var tail := if rest > 0 then " " + IntToString(rest) + " min" else "";
    HoursUnfold(minutes);
    NatToStringRoundTrip(hours);
    MinutesTail(rest);
    HourTextShape(IntToString(hours), word, tail);
  }

  lemma HoursUnfold(minutes: int)
    requires minutes >= 60
    ensures WaitText(minutes) == "~" + IntToString(minutes / 60) + " timm"
              + (if minutes / 60 != 1 then "ar" else "e")
              + (if minutes % 60 > 0 then " " + IntToString(minutes % 60) + " min" else "")
  {
  }

  lemma MinutesTail(rest: int)
    ensures rest > 0 ==> EndsWith(" " + IntToString(rest) + " min", " min")
  {
    var tail := " " + IntToString(rest) + " min";
    assert tail[|tail| - 4..] == " min";
  }

  /** The shape of "~H timm" + word + tail, position by position. */
  lemma HourTextShape(d: string, word: string, tail: string)
    requires word == "ar" || word == "e"
    requires tail == "" || EndsWith(tail, " min")
    ensures var t := "~" + d + " timm" + word + tail;
              StartsWith(t, "~" + d + " timm") && |t| > |d| + 6 && t[|d| + 6] == word[0]
              && (EndsWith(t, " min") <==> tail != "")
  {
    var t := "~" + d + " timm" + word + tail;
    assert t[..|d| + 6] == "~" + d + " timm";
    if tail != "" {
      assert t[|t| - 4..] == tail[|tail| - 4..];
    } else {
      assert t[|t| - 4..] == ("timm" + word)[|word|..];
    }
  }

  /** `{ peopleAhead, estimatedWaitTime }` */
  datatype Position = Position(peopleAhead: nat, estimatedWaitTime: string)

  /** `queuePosition`: nothing ahead while the status or the number is not
      known (a number 0 counts as unknown); otherwise the people ahead and
      two minutes for each of them. */
  function QueuePosition(status: Option<QueueStatus>, effective: Option<int>): (p: Position)
    ensures status.None? || effective.None? || effective == Some(0) ==> p == Position(0, NoWait)
    ensures status.Some? ==> p.peopleAhead <= |status.value.nextNumbers|
    ensures status.Some? && effective.Some? && effective.value != 0 ==>
              p.peopleAhead == PeopleAhead(status.value.nextNumbers, effective.value)
              && p.estimatedWaitTime == WaitText(2 * p.peopleAhead)
    ensures p.estimatedWaitTime != OneMinute
  {
    if status.None? || effective.None? || effective.value == 0 then Position(0, NoWait)
    else
      var ahead := PeopleAhead(status.value.nextNumbers, effective.value);
      OneMinuteOnlyForOne(2 * ahead);
      Position(ahead, WaitText(2 * ahead))
  }

  /** When the status and an effective number are known, the estimate is "next
      in line" exactly when nobody waits below that number. */
  lemma NextInLineWhenNobodyAhead(status: QueueStatus, effective: int)
    requires effective != 0
    ensures QueuePosition(Some(status), Some(effective)).estimatedWaitTime == NextInLine
            <==> forall n :: n in status.nextNumbers ==> effective <= n
  {
    FilterEmpty(status.nextNumbers, x => x < effective);
  }

  /** `isMyNumberCalled` as written: `effectiveNumber === queueStatus?.currentNumber`,
      where both sides may be `undefined`. */
  function IsMyNumberCalledAsWritten(effective: Option<int>, status: Option<QueueStatus>): (b: bool)
    ensures b <==> (effective.None? && status.None?)
                   || (effective.Some? && status.Some? && effective.value == status.value.currentNumber)
  {
    effective == (if status.Some? then Some(status.value.currentNumber) else None)
  }

  /** Before the status has loaded and before any number is known, both sides
      are `undefined` and the page treats the ticket as called. */
  lemma CalledBeforeAnythingIsKnown()
    ensures IsMyNumberCalledAsWritten(None, None)
  {
  }

  /** The intended test: a known ticket number equal to the known current number. */
  function IsMyNumberCalled(effective: Option<int>, status: Option<QueueStatus>): (b: bool)
    ensures b <==> status.Some? && effective == Some(status.value.currentNumber)
    ensures b ==> IsMyNumberCalledAsWritten(effective, status)
    ensures effective.Some? ==> (b <==> IsMyNumberCalledAsWritten(effective, status))
  {
    effective.Some? && status.Some? && effective.value == status.value.currentNumber
  }
}
