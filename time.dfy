/** utils/time.ts: `formatDateWithUTCOffset` and
    `formatLocalDateWithUTCOffset` over the components a `Date` reports in
    local time, and the `pad` helper they share. Each formatter has a parser
    beside it that reads its output back; the round-trip lemmas say what the
    printed text records. */
module Time {
  import opened Js

  /** What the formatters read from a `Date`: `getFullYear()`, `getMonth()`
      (0-based), `getDate()`, `getHours()`, `getMinutes()`, `getSeconds()`
      and `getTimezoneOffset()` (minutes behind UTC). */
  datatype DateParts = DateParts(
    year: int, month: nat, day: nat,
    hours: nat, minutes: nat, seconds: nat,
    timezoneOffset: int)

  /** `pad(n)`: `n.toString().padStart(2, "0")`. */
  function Pad(n: nat): string
  {
    PadStart(NatToString(n, 10), 2, '0')
  }

  /** `Math.abs(x)`. */
  function Abs(x: int): nat
  {
    if x < 0 then -x else x
  }

  /** `DD-MM-YYYY hh:mm:ss UTC±HH:MM`; the sign is `-` when the zone is
      behind UTC by a positive number of minutes. */
  function FormatDateWithUtcOffset(d: DateParts): string
  {
    var sign := if d.timezoneOffset > 0 then "-" else "+";
    var absOffset := Abs(d.timezoneOffset);
    Pad(d.day) + "-" + Pad(d.month + 1) + "-" + IntToString(d.year) + " "
      + Pad(d.hours) + ":" + Pad(d.minutes) + ":" + Pad(d.seconds)
      + " UTC" + sign + Pad(absOffset / 60) + ":" + Pad(absOffset % 60)
  }

  /** `DD-MM-YYYY hh:mm (UTC±HH:MM)` from the negated offset, with `:MM`
      left out when the minute part prints as `00`. */
  function FormatLocalDateWithUtcOffset(d: DateParts): string
  {
    var offsetMinutes := -d.timezoneOffset;
    var sign := if offsetMinutes >= 0 then "+" else "-";
    var offsetHours := Pad(Abs(offsetMinutes) / 60);
    var offsetMins := Pad(Abs(offsetMinutes) % 60);
    Pad(d.day) + "-" + Pad(d.month + 1) + "-" + IntToString(d.year) + " "
      + Pad(d.hours) + ":" + Pad(d.minutes)
      + " (UTC" + sign + offsetHours + (if offsetMins != "00" then ":" + offsetMins else "") + ")"
  }

  // ------------------------------------------------------------------ pad

  /** `pad` prints the decimal form of n, with a `0` in front only when
      that form is a single digit. */
  lemma PadDecimal(n: nat)
    ensures n >= 10 ==> Pad(n) == NatToString(n, 10)
    ensures n < 10 ==> Pad(n) == "0" + NatToString(n, 10)
  {
    if n < 10 {
      assert Repeat('0', 1) == ['0'] + Repeat('0', 0);
    }
  }

  /** Below 100, `pad` prints the tens digit and the units digit. */
  lemma PadTwo(n: nat)
    requires n < 100
    ensures Pad(n) == [DigitChar(n / 10), DigitChar(n % 10)]
  {
    var digits := NatToString(n, 10);
    if n < 10 {
      assert digits == [DigitChar(n)];
      assert Repeat('0', 1) == ['0'] + Repeat('0', 0);
      assert DigitChar(0) == '0';
    } else {
      assert n / 10 < 10;
      assert digits == NatToString(n / 10, 10) + [DigitChar(n % 10)];
    }
  }

  /** A two-digit field is `00` exactly when its value is zero. */
  lemma PadZero(n: nat)
    requires n < 100
    ensures Pad(n) == "00" <==> n == 0
  {
    PadTwo(n);
    assert DigitChar(0) == '0';
    DigitRoundTrip(n / 10);
    DigitRoundTrip(n % 10);
    DigitRoundTrip(0);
  }

  // ------------------------------------------------------ reading back

  /** The fields a formatted timestamp shows. */
  datatype Stamp = Stamp(
    day: nat, month: nat, year: int,
    hours: nat, minutes: nat, seconds: Option<nat>,
    sign: char, offsetHours: nat, offsetMinutes: nat)

  function TwoDigits(s: string): Option<nat>
  {
    if |s| == 2 && DigitOf(s[0]) < 10 && DigitOf(s[1]) < 10 then Some(10 * DigitOf(s[0]) + DigitOf(s[1]))
    else None
  }

  function ParseInt(s: string): Option<int>
  {
    if |s| >= 2 && s[0] == '-' && AllDigits(s[1..], 10) then Some(0 - ValueOf(s[1..], 10))
    else if |s| >= 1 && AllDigits(s, 10) then Some(ValueOf(s, 10))
    else None
  }

  /** What is in front of `suffix` when `s` ends with it. */
  function DropSuffix(s: string, suffix: string): Option<string>
  {
    if |suffix| <= |s| && s[|s| - |suffix|..] == suffix then Some(s[..|s| - |suffix|]) else None
  }

  /** The two-digit number `s` ends with, and what is in front of it. */
  function TakeTwoDigits(s: string): Option<(string, nat)>
  {
    if |s| >= 2 && TwoDigits(s[|s| - 2..]).Some? then Some((s[..|s| - 2], TwoDigits(s[|s| - 2..]).value))
    else None
  }

  /** The sign character `s` ends with, and what is in front of it. */
  function TakeSign(s: string): Option<(string, char)>
  {
    if |s| >= 1 && (s[|s| - 1] == '+' || s[|s| - 1] == '-') then Some((s[..|s| - 1], s[|s| - 1])) else None
  }

  /** Reads `DD-MM-YYYY`, the year of any length and possibly negative. */
  function ParseDate(s: string): Option<(nat, nat, int)>
  {
    if |s| < 7 || s[2] != '-' || s[5] != '-' then None
    else
      match (TwoDigits(s[..2]), TwoDigits(s[3..5]), ParseInt(s[6..]))
      case (Some(day), Some(month), Some(year)) => Some((day, month, year))
      case _ => None
  }

  /** Reads `DD-MM-YYYY hh:mm`, what both formatters print first. */
  function ParseDateTime(s: string): Option<(nat, nat, int, nat, nat)>
  {
    var minutes :- TakeTwoDigits(s);
    var beforeMinutes :- DropSuffix(minutes.0, ":");
    var hours :- TakeTwoDigits(beforeMinutes);
    var date :- DropSuffix(hours.0, " ");
    var ymd :- ParseDate(date);
    Some((ymd.0, ymd.1, ymd.2, hours.1, minutes.1))
  }

  /** Reads the text `formatDateWithUTCOffset` prints, from its end. */
  function ParseUtcStamp(s: string): Option<Stamp>
  {
    var offsetMinutes :- TakeTwoDigits(s);
    var beforeOffsetMinutes :- DropSuffix(offsetMinutes.0, ":");
    var offsetHours :- TakeTwoDigits(beforeOffsetMinutes);
    var sign :- TakeSign(offsetHours.0);
    var clock :- DropSuffix(sign.0, " UTC");
    var seconds :- TakeTwoDigits(clock);
    var dateTime :- DropSuffix(seconds.0, ":");
    var dt :- ParseDateTime(dateTime);
    Some(Stamp(dt.0, dt.1, dt.2, dt.3, dt.4, Some(seconds.1), sign.1, offsetHours.1, offsetMinutes.1))
  }

  /** The `:MM` of a local offset, zero when it is not shown. */
  function TakeOffsetMinutes(s: string): Option<(string, nat)>
  {
    if |s| >= 3 && s[|s| - 3] == ':' then
      var offsetMinutes :- TakeTwoDigits(s);
      var before :- DropSuffix(offsetMinutes.0, ":");
      Some((before, offsetMinutes.1))
    else Some((s, 0))
  }

  /** Reads the text `formatLocalDateWithUTCOffset` prints, from its end. */
  function ParseLocalStamp(s: string): Option<Stamp>
  {
    var offset :- DropSuffix(s, ")");
    var offsetMinutes :- TakeOffsetMinutes(offset);
    var offsetHours :- TakeTwoDigits(offsetMinutes.0);
    var sign :- TakeSign(offsetHours.0);
    var dateTime :- DropSuffix(sign.0, " (UTC");
    var dt :- ParseDateTime(dateTime);
    Some(Stamp(dt.0, dt.1, dt.2, dt.3, dt.4, None, sign.1, offsetHours.1, offsetMinutes.1))
  }

  /** The components fit the two-digit fields: always so for a real `Date`. */
  predicate Fits(d: DateParts)
  {
    d.day < 100 && d.month + 1 < 100 && d.hours < 100 && d.minutes < 100 && d.seconds < 100
    && Abs(d.timezoneOffset) < 6000
  }

  lemma IntRoundTrip(n: int)
    ensures ParseInt(IntToString(n)) == Some(n)
  {
    var digits := NatToString(if n < 0 then -n else n, 10);
    NatToStringRoundTrip(if n < 0 then -n else n, 10);
    if n < 0 {
      assert IntToString(n) == "-" + digits;
      assert IntToString(n)[1..] == digits;
    } else {
      assert IntToString(n) == digits;
      assert DigitOf(digits[0]) < 10;
    }
  }

  /** A number below 100 prints as two digits and reads back. */
  lemma TwoDigitsPad(n: nat)
    requires n < 100
    ensures |Pad(n)| == 2 && TwoDigits(Pad(n)) == Some(n)
  {
    PadTwo(n);
    DigitRoundTrip(n / 10);
    DigitRoundTrip(n % 10);
  }

  lemma DropSuffixAppend(front: string, suffix: string)
    ensures DropSuffix(front + suffix, suffix) == Some(front)
  {
    var s := front + suffix;
    assert s[|s| - |suffix|..] == suffix;
    assert s[..|s| - |suffix|] == front;
  }

  lemma TakeTwoDigitsAppend(front: string, digits: string)
    requires TwoDigits(digits).Some?
    ensures TakeTwoDigits(front + digits) == Some((front, TwoDigits(digits).value))
  {
    DropSuffixAppend(front, digits);
  }

  lemma TakeSignAppend(front: string, sign: string)
    requires sign == "+" || sign == "-"
    ensures TakeSign(front + sign) == Some((front, sign[0]))
  {
    DropSuffixAppend(front, sign);
  }

  /** The optional `:MM` is read back, or read as zero when absent, and the
      fourth character from the end of the whole text is `:` exactly when
      it is present. */
  lemma OffsetMinutesAppend(front: string, oh: string, opt: string, om: string)
    requires |oh| == 2 && |front| >= 1 && front[|front| - 1] != ':'
    requires TwoDigits(om).Some?
    requires opt == "" || opt == ":" + om
    ensures TakeOffsetMinutes(front + oh + opt) == Some((front + oh, if opt == "" then 0 else TwoDigits(om).value))
    ensures var s := front + oh + opt + ")"; |s| >= 4 && (s[|s| - 4] == ':' <==> opt != "")
  {
    var s := front + oh + opt;
    if opt == "" {
      assert s == front + oh;
      assert s[|s| - 3] == front[|front| - 1];
    } else {
      assert s == front + oh + ":" + om;
      TakeTwoDigitsAppend(front + oh + ":", om);
      DropSuffixAppend(front + oh, ":");
    }
  }

  lemma DateLayout(dd: string, mm: string, y: string)
    requires TwoDigits(dd).Some? && TwoDigits(mm).Some? && ParseInt(y).Some?
    ensures ParseDate(dd + "-" + mm + "-" + y)
      == Some((TwoDigits(dd).value, TwoDigits(mm).value, ParseInt(y).value))
  {
    var s := dd + "-" + mm + "-" + y;
    assert s[..2] == dd;
    assert s[3..5] == mm;
    assert s[6..] == y;
  }

  /** `DD-MM-YYYY hh:mm` reads back, whatever the field texts. */
  lemma DateTimeLayout(dd: string, mm: string, y: string, hh: string, mi: string)
    requires TwoDigits(dd).Some? && TwoDigits(mm).Some? && ParseInt(y).Some?
    requires TwoDigits(hh).Some? && TwoDigits(mi).Some?
    ensures ParseDateTime(dd + "-" + mm + "-" + y + " " + hh + ":" + mi)
      == Some((TwoDigits(dd).value, TwoDigits(mm).value, ParseInt(y).value, TwoDigits(hh).value, TwoDigits(mi).value))
  {
    var date := dd + "-" + mm + "-" + y;
    TakeTwoDigitsAppend(date + " " + hh + ":", mi);
    DropSuffixAppend(date + " " + hh, ":");
    TakeTwoDigitsAppend(date + " ", hh);
    DropSuffixAppend(date, " ");
    DateLayout(dd, mm, y);
  }

  /** The date and time texts read back to the fields of `st`. */
  predicate DateTimeRead(dd: string, mm: string, y: string, hh: string, mi: string, st: Stamp)
  {
    && TwoDigits(dd) == Some(st.day) && TwoDigits(mm) == Some(st.month) && ParseInt(y) == Some(st.year)
    && TwoDigits(hh) == Some(st.hours) && TwoDigits(mi) == Some(st.minutes)
  }

  /** The sign and offset-hours texts read back to the fields of `st`. */
  predicate OffsetRead(sign: string, oh: string, st: Stamp)
  {
    sign == [st.sign] && (st.sign == '+' || st.sign == '-') && TwoDigits(oh) == Some(st.offsetHours)
  }

  /** The layout of `formatDateWithUTCOffset`, whatever the field texts. */
  lemma UtcLayout(s: string, dd: string, mm: string, y: string, hh: string, mi: string, ss: string,
                  sign: string, oh: string, om: string, st: Stamp)
    requires s == dd + "-" + mm + "-" + y + " " + hh + ":" + mi + ":" + ss + " UTC" + sign + oh + ":" + om
    requires DateTimeRead(dd, mm, y, hh, mi, st) && OffsetRead(sign, oh, st)
    requires st.seconds.Some? && TwoDigits(ss) == Some(st.seconds.value)
    requires TwoDigits(om) == Some(st.offsetMinutes)
    ensures ParseUtcStamp(s) == Some(st)
  {
    var dateTime := dd + "-" + mm + "-" + y + " " + hh + ":" + mi;
    var clock := dateTime + ":" + ss;
    var beforeOffset := clock + " UTC" + sign + oh;
    TakeTwoDigitsAppend(beforeOffset + ":", om);
    DropSuffixAppend(beforeOffset, ":");
    TakeTwoDigitsAppend(clock + " UTC" + sign, oh);
    TakeSignAppend(clock + " UTC", sign);
    DropSuffixAppend(clock, " UTC");
    TakeTwoDigitsAppend(dateTime + ":", ss);
    DropSuffixAppend(dateTime, ":");
    DateTimeLayout(dd, mm, y, hh, mi);
  }

  /** The layout of `formatLocalDateWithUTCOffset`, whatever the field texts. */
  lemma LocalLayout(s: string, dd: string, mm: string, y: string, hh: string, mi: string,
                    sign: string, oh: string, om: string, opt: string, st: Stamp)
    requires s == dd + "-" + mm + "-" + y + " " + hh + ":" + mi + " (UTC" + sign + oh + opt + ")"
    requires DateTimeRead(dd, mm, y, hh, mi, st) && OffsetRead(sign, oh, st) && st.seconds.None?
    requires TwoDigits(om).Some?
    requires opt == "" || opt == ":" + om
    requires st.offsetMinutes == if opt == "" then 0 else TwoDigits(om).value
    ensures |s| >= 4 && (s[|s| - 4] == ':' <==> opt != "")
    ensures ParseLocalStamp(s) == Some(st)
  {
    var dateTime := dd + "-" + mm + "-" + y + " " + hh + ":" + mi;
    var hours := dateTime + " (UTC" + sign + oh;
    DropSuffixAppend(hours + opt, ")");
    OffsetMinutesAppend(dateTime + " (UTC" + sign, oh, opt, om);
    TakeTwoDigitsAppend(dateTime + " (UTC" + sign, oh);
    TakeSignAppend(dateTime + " (UTC", sign);
    DropSuffixAppend(dateTime, " (UTC");
    DateTimeLayout(dd, mm, y, hh, mi);
  }

  /** The fields a timestamp of `d` should show: the 1-based month, the
      offset's sign (`-` exactly when the zone is behind UTC by a positive
      number of minutes) and its size split into hours and minutes. */
  function StampOf(d: DateParts, seconds: Option<nat>): Stamp
  {
    var a := Abs(d.timezoneOffset);
    Stamp(d.day, d.month + 1, d.year, d.hours, d.minutes, seconds,
          if d.timezoneOffset > 0 then '-' else '+', a / 60, a % 60)
  }

  /** The offset fields determine the offset: `|offset| = 60 * hours +
      minutes` with minutes below 60, and the sign gives its direction. */
  lemma StampOffset(d: DateParts, seconds: Option<nat>)
    ensures var st := StampOf(d, seconds);
      && 60 * st.offsetHours + st.offsetMinutes == Abs(d.timezoneOffset)
      && st.offsetMinutes < 60
      && (st.sign == '-' <==> d.timezoneOffset > 0)
      && (st.sign == '+' <==> d.timezoneOffset <= 0)
  {
  }

  /** The date and time fields of `d` as both formatters print them read
      back. */
  lemma DateTimeFieldsOf(d: DateParts, seconds: Option<nat>)
    requires Fits(d)
    ensures DateTimeRead(Pad(d.day), Pad(d.month + 1), IntToString(d.year), Pad(d.hours), Pad(d.minutes),
                         StampOf(d, seconds))
  {
    TwoDigitsPad(d.day); TwoDigitsPad(d.month + 1); IntRoundTrip(d.year);
    TwoDigitsPad(d.hours); TwoDigitsPad(d.minutes);
  }

  /** The sign and offset hours of `d` as each formatter prints them read
      back. */
  lemma OffsetFieldsOf(d: DateParts, seconds: Option<nat>)
    requires Fits(d)
    ensures OffsetRead(if d.timezoneOffset > 0 then "-" else "+", Pad(Abs(d.timezoneOffset) / 60),
                       StampOf(d, seconds))
    ensures OffsetRead(if -d.timezoneOffset >= 0 then "+" else "-", Pad(Abs(-d.timezoneOffset) / 60),
                       StampOf(d, seconds))
  {
    assert Abs(-d.timezoneOffset) == Abs(d.timezoneOffset);
    TwoDigitsPad(Abs(d.timezoneOffset) / 60);
  }

  /** The pieces `formatLocalDateWithUTCOffset` joins for a whole-hour
      offset. */
  lemma LocalFormatWholeHours(d: DateParts)
    requires Abs(d.timezoneOffset) % 60 == 0
    ensures
      var a := Abs(-d.timezoneOffset);
      FormatLocalDateWithUtcOffset(d) ==
        Pad(d.day) + "-" + Pad(d.month + 1) + "-" + IntToString(d.year) + " " + Pad(d.hours) + ":" + Pad(d.minutes)
        + " (UTC" + (if -d.timezoneOffset >= 0 then "+" else "-") + Pad(a / 60) + "" + ")"
  {
    PadZero(Abs(-d.timezoneOffset) % 60);
  }

  /** The pieces `formatLocalDateWithUTCOffset` joins when the offset has
      a minute part. */
  lemma LocalFormatWithMinutes(d: DateParts)
    requires Abs(d.timezoneOffset) % 60 != 0
    ensures
      var a := Abs(-d.timezoneOffset);
      FormatLocalDateWithUtcOffset(d) ==
        Pad(d.day) + "-" + Pad(d.month + 1) + "-" + IntToString(d.year) + " " + Pad(d.hours) + ":" + Pad(d.minutes)
        + " (UTC" + (if -d.timezoneOffset >= 0 then "+" else "-") + Pad(a / 60) + (":" + Pad(a % 60)) + ")"
  {
    PadZero(Abs(-d.timezoneOffset) % 60);
  }

  /** Everything `formatDateWithUTCOffset` prints reads back, seconds
      included. */
  lemma UtcStampRoundTrip(d: DateParts)
    requires Fits(d)
    ensures ParseUtcStamp(FormatDateWithUtcOffset(d)) == Some(StampOf(d, Some(d.seconds)))
  {
    var a := Abs(d.timezoneOffset);
    var s := FormatDateWithUtcOffset(d);
    assert s == Pad(d.day) + "-" + Pad(d.month + 1) + "-" + IntToString(d.year) + " "
      + Pad(d.hours) + ":" + Pad(d.minutes) + ":" + Pad(d.seconds)
      + " UTC" + (if d.timezoneOffset > 0 then "-" else "+") + Pad(a / 60) + ":" + Pad(a % 60);
    DateTimeFieldsOf(d, Some(d.seconds));
    OffsetFieldsOf(d, Some(d.seconds));
    TwoDigitsPad(d.seconds);
    TwoDigitsPad(a % 60);
    UtcLayout(s, Pad(d.day), Pad(d.month + 1), IntToString(d.year),
              Pad(d.hours), Pad(d.minutes), Pad(d.seconds),
              if d.timezoneOffset > 0 then "-" else "+", Pad(a / 60), Pad(a % 60), StampOf(d, Some(d.seconds)));
  }

  lemma LocalRoundTripWholeHours(d: DateParts)
    requires Fits(d) && Abs(d.timezoneOffset) % 60 == 0
    ensures ParseLocalStamp(FormatLocalDateWithUtcOffset(d)) == Some(StampOf(d, None))
    ensures var s := FormatLocalDateWithUtcOffset(d); |s| >= 4 && s[|s| - 4] != ':'
  {
    var a := Abs(-d.timezoneOffset);
    LocalFormatWholeHours(d);
    DateTimeFieldsOf(d, None);
    OffsetFieldsOf(d, None);
    TwoDigitsPad(a % 60);
    LocalLayout(FormatLocalDateWithUtcOffset(d), Pad(d.day), Pad(d.month + 1), IntToString(d.year),
                Pad(d.hours), Pad(d.minutes), if -d.timezoneOffset >= 0 then "+" else "-",
                Pad(a / 60), Pad(a % 60), "", StampOf(d, None));
  }

  lemma LocalRoundTripWithMinutes(d: DateParts)
    requires Fits(d) && Abs(d.timezoneOffset) % 60 != 0
    ensures ParseLocalStamp(FormatLocalDateWithUtcOffset(d)) == Some(StampOf(d, None))
    ensures var s := FormatLocalDateWithUtcOffset(d); |s| >= 4 && s[|s| - 4] == ':'
  {
    var a := Abs(-d.timezoneOffset);
    LocalFormatWithMinutes(d);
    DateTimeFieldsOf(d, None);
    OffsetFieldsOf(d, None);
    assert a == Abs(d.timezoneOffset);
    TwoDigitsPad(a % 60);
    LocalLayout(FormatLocalDateWithUtcOffset(d), Pad(d.day), Pad(d.month + 1), IntToString(d.year),
                Pad(d.hours), Pad(d.minutes), if -d.timezoneOffset >= 0 then "+" else "-",
                Pad(a / 60), Pad(a % 60), ":" + Pad(a % 60), StampOf(d, None));
  }

  /** What `formatLocalDateWithUTCOffset` prints reads back to the same
      fields as `formatDateWithUTCOffset`, without the seconds: in
      particular the same sign for the same offset, `+` for a zero one. It
      shows `:MM` exactly when the offset is not a whole number of hours. */
  lemma LocalStampRoundTrip(d: DateParts)
    requires Fits(d)
    ensures ParseLocalStamp(FormatLocalDateWithUtcOffset(d)) == Some(StampOf(d, None))
    ensures var s := FormatLocalDateWithUtcOffset(d);
      |s| >= 4 && (s[|s| - 4] == ':' <==> Abs(d.timezoneOffset) % 60 != 0)
  {
    if Abs(d.timezoneOffset) % 60 == 0 {
      LocalRoundTripWholeHours(d);
    } else {
      LocalRoundTripWithMinutes(d);
    }
  }

  /** The two formatters agree on every field they both print. */
  lemma FormattersAgree(d: DateParts)
    requires Fits(d)
    ensures ParseUtcStamp(FormatDateWithUtcOffset(d)).Some?
    ensures ParseLocalStamp(FormatLocalDateWithUtcOffset(d)) ==
      Some(ParseUtcStamp(FormatDateWithUtcOffset(d)).value.(seconds := None))
  {
    UtcStampRoundTrip(d);
    LocalStampRoundTrip(d);
  }

}
