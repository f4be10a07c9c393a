/** The `created_at` string format `%Y-%m-%d %H:%M` (written with
    `strftime`, read back with `strptime`) and `format_chat_timestamp`,
    which turns such a string into "Today", "Yesterday" or a weekday name. */
module Timestamps {
  import opened Wrappers
  import opened Calendar
  import opened TextOrder

  /** Why `format_chat_timestamp` raises instead of returning a label. */
  datatype FormatError =
    | MalformedTimestamp  // `strptime` rejects the string (ValueError)
    | DateUnderflow       // `today - timedelta(days=1)` falls before `date.min` (OverflowError)

  /** What the system clock can return when the store calls `datetime.now()`:
      a valid minute in a year `strftime("%Y")` writes with four digits. */
  predicate ClockReading(now: DateTime) {
    ValidDateTime(now) && now.date.year >= 1000
  }

  predicate IsDigit(c: char) {
    '0' <= c <= '9'
  }

  predicate AllDigits(s: string) {
    forall i :: 0 <= i < |s| ==> IsDigit(s[i])
  }

  function Pow10(w: nat): nat {
    if w == 0 then 1 else 10 * Pow10(w - 1)
  }

  function DigitChar(n: int): (c: char)
    requires 0 <= n < 10
    ensures IsDigit(c)
  {
    ('0' as int + n) as char
  }

  /** The last `w` decimal digits of `n`, zero-padded: `%0<w>d`. */
  function Pad(n: nat, w: nat): (s: string)
    ensures |s| == w && AllDigits(s)
  {
    if w == 0 then [] else Pad(n / 10, w - 1) + [DigitChar(n % 10)]
  }

  /** The number a string of decimal digits spells. */
  function DigitsValue(s: string): nat
    requires AllDigits(s)
  {
    if s == [] then 0 else DigitsValue(s[..|s| - 1]) * 10 + (s[|s| - 1] as int - '0' as int)
  }

  lemma {:induction false} PadValue(n: nat, w: nat)
    requires n < Pow10(w)
    ensures DigitsValue(Pad(n, w)) == n
  {
    if w > 0 {
      PadValue(n / 10, w - 1);
      var s := Pad(n, w);
      assert s[..|s| - 1] == Pad(n / 10, w - 1);
    }
  }

  lemma {:induction false} DigitsValuePad(s: string)
    requires AllDigits(s)
    ensures DigitsValue(s) < Pow10(|s|)
    ensures Pad(DigitsValue(s), |s|) == s
  {
    if s != [] {
      var init := s[..|s| - 1];
      DigitsValuePad(init);
      var d := s[|s| - 1] as int - '0' as int;
      assert DigitsValue(s) / 10 == DigitsValue(init) && DigitsValue(s) % 10 == d;
      assert s == init + [s[|s| - 1]];
    }
  }

  lemma DivideBound(n: nat, p: nat)
    requires n < 10 * p
    ensures n / 10 < p
  {
  }

  lemma DigitOrder(i: int, j: int)
    requires 0 <= i < 10 && 0 <= j < 10
    ensures StrLe([DigitChar(i)], [DigitChar(j)]) <==> i <= j
  {
    assert [DigitChar(i)][1..] == [] && [DigitChar(j)][1..] == [];
  }

  lemma LexDecimal(n: nat, m: nat)
    ensures n <= m <==> n / 10 < m / 10 || (n / 10 == m / 10 && n % 10 <= m % 10)
  {
  }

  /** Two same-width zero-padded numbers compare as strings the way the
      numbers compare. */
  lemma {:induction false} PadOrder(n: nat, m: nat, w: nat)
    requires n < Pow10(w) && m < Pow10(w)
    ensures StrLe(Pad(n, w), Pad(m, w)) <==> n <= m
  {
    if w == 0 {
      assert n == 0 && m == 0;
    } else {
      var pn, pm := Pad(n / 10, w - 1), Pad(m / 10, w - 1);
      var cn, cm := [DigitChar(n % 10)], [DigitChar(m % 10)];
      DivideBound(n, Pow10(w - 1));
      DivideBound(m, Pow10(w - 1));
      PadOrder(n / 10, m / 10, w - 1);
      PadValue(n / 10, w - 1);
      PadValue(m / 10, w - 1);
      StrLeConcat(pn, cn, pm, cm);
      DigitOrder(n % 10, m % 10);
      LexDecimal(n, m);
    }
  }

  /** A zero-padded field followed by a separator and the rest of the
      string: compare the fields, and on a tie the rests. */
  lemma FieldOrder(n: nat, m: nat, w: nat, sep: string, ra: string, rb: string)
    requires n < Pow10(w) && m < Pow10(w)
    ensures StrLe(Pad(n, w) + (sep + ra), Pad(m, w) + (sep + rb)) <==> n < m || (n == m && StrLe(ra, rb))
  {
    PadValue(n, w);
    PadValue(m, w);
    StrLeConcat(Pad(n, w), sep + ra, Pad(m, w), sep + rb);
    StrLeConcat(sep, ra, sep, rb);
    PadOrder(n, m, w);
  }

  /** `strftime("%Y-%m-%d %H:%M")`. */
  function RenderTimestamp(t: DateTime): (s: string)
    requires ValidDateTime(t)
  {
    Pad(t.date.year, 4) + ("-" + (Pad(t.date.month, 2) + ("-" + (Pad(t.date.day, 2)
      + (" " + (Pad(t.hour, 2) + (":" + Pad(t.minute, 2))))))))
  }

  /** `strptime(s, "%Y-%m-%d %H:%M")` on the zero-padded form that
      `RenderTimestamp` writes; `None` where Python raises ValueError. */
  function ParseTimestamp(s: string): Option<DateTime> {
    if |s| == 16 && s[4] == '-' && s[7] == '-' && s[10] == ' ' && s[13] == ':'
      && AllDigits(s[0..4]) && AllDigits(s[5..7]) && AllDigits(s[8..10])
      && AllDigits(s[11..13]) && AllDigits(s[14..16])
    then
      var t := DateTime(Date(DigitsValue(s[0..4]), DigitsValue(s[5..7]), DigitsValue(s[8..10])),
                        DigitsValue(s[11..13]), DigitsValue(s[14..16]));
      if ValidDateTime(t) then Some(t) else None
    else None
  }

  /** Where each field sits in a rendered timestamp. */
  lemma RenderFields(t: DateTime)
    requires ValidDateTime(t)
    ensures var s := RenderTimestamp(t);
      && |s| == 16 && s[4] == '-' && s[7] == '-' && s[10] == ' ' && s[13] == ':'
      && s[0..4] == Pad(t.date.year, 4) && s[5..7] == Pad(t.date.month, 2)
      && s[8..10] == Pad(t.date.day, 2) && s[11..13] == Pad(t.hour, 2)
      && s[14..16] == Pad(t.minute, 2)
  {
    var s := RenderTimestamp(t);
    var r3 := Pad(t.hour, 2) + (":" + Pad(t.minute, 2));
    var r2 := Pad(t.date.day, 2) + (" " + r3);
    var r1 := Pad(t.date.month, 2) + ("-" + r2);
    FieldAt(Pad(t.date.year, 4), "-", r1);
    FieldAt(Pad(t.date.month, 2), "-", r2);
    FieldAt(Pad(t.date.day, 2), " ", r3);
    FieldAt(Pad(t.hour, 2), ":", Pad(t.minute, 2));
    assert s[5..] == r1;
    assert s[5..7] == r1[..2];
    assert s[8..] == r2;
    assert s[8..10] == r2[..2];
    assert s[11..] == r3;
    assert s[11..13] == r3[..2];
    assert s[14..16] == r3[3..];
  }

  lemma FieldAt(field: string, sep: string, rest: string)
    requires |sep| == 1
    ensures var s := field + (sep + rest);
      s[..|field|] == field && s[|field|] == sep[0] && s[|field| + 1..] == rest
  {
  }

  /** Reading back what was written gives the same minute. */
  lemma ParseRenderRoundTrip(t: DateTime)
    requires ValidDateTime(t)
    ensures ParseTimestamp(RenderTimestamp(t)) == Some(t)
  {
    RenderFields(t);
    PadValue(t.date.year, 4);
    PadValue(t.date.month, 2);
    PadValue(t.date.day, 2);
    PadValue(t.hour, 2);
    PadValue(t.minute, 2);
  }

  /** Every string the parser accepts is the rendering of what it parsed to:
      the format has one spelling per minute. */
  lemma RenderParseRoundTrip(s: string)
    requires ParseTimestamp(s).Some?
    ensures RenderTimestamp(ParseTimestamp(s).value) == s
  {
    DigitsValuePad(s[0..4]);
    DigitsValuePad(s[5..7]);
    DigitsValuePad(s[8..10]);
    DigitsValuePad(s[11..13]);
    DigitsValuePad(s[14..16]);
    var r := RenderTimestamp(ParseTimestamp(s).value);
    assert r == s[0..4] + ([s[4]] + (s[5..7] + ([s[7]] + (s[8..10] + ([s[10]] + (s[11..13] + ([s[13]] + s[14..16]))))))) ;
    assert s == s[0..4] + ([s[4]] + (s[5..7] + ([s[7]] + (s[8..10] + ([s[10]] + (s[11..13] + ([s[13]] + s[14..16]))))))) ;
  }

  /** Minutes since the start of 0001-01-01, the chronological position of a reading. */
  function MinuteOf(t: DateTime): int
    requires ValidDateTime(t)
  {
    ((Ordinal(t.date) - 1) * 24 + t.hour) * 60 + t.minute
  }

  lemma MinuteOfOrder(a: DateTime, b: DateTime)
    requires ValidDateTime(a) && ValidDateTime(b)
    ensures MinuteOf(a) <= MinuteOf(b) <==>
      (DateBefore(a.date, b.date)
       || (a.date == b.date && (a.hour < b.hour || (a.hour == b.hour && a.minute <= b.minute))))
  {
    if DateBefore(a.date, b.date) {
      OrdinalMonotone(a.date, b.date);
    } else if DateBefore(b.date, a.date) {
      OrdinalMonotone(b.date, a.date);
    } else {
      assert a.date == b.date;
    }
  }

  /** Comparing two stored timestamps as strings is comparing them in time:
      the reason sorting `created_at` strings sorts sessions by age. */
  lemma RenderOrderIsChronological(a: DateTime, b: DateTime)
    requires ValidDateTime(a) && ValidDateTime(b)
    ensures StrLe(RenderTimestamp(a), RenderTimestamp(b)) <==> MinuteOf(a) <= MinuteOf(b)
  {
    MinuteOfOrder(a, b);
    var ta := Pad(a.hour, 2) + (":" + Pad(a.minute, 2));
    var tb := Pad(b.hour, 2) + (":" + Pad(b.minute, 2));
    var da := Pad(a.date.month, 2) + ("-" + (Pad(a.date.day, 2) + (" " + ta)));
    var db := Pad(b.date.month, 2) + ("-" + (Pad(b.date.day, 2) + (" " + tb)));
    PadOrder(a.minute, b.minute, 2);
    FieldOrder(a.hour, b.hour, 2, ":", Pad(a.minute, 2), Pad(b.minute, 2));
    FieldOrder(a.date.day, b.date.day, 2, " ", ta, tb);
    FieldOrder(a.date.month, b.date.month, 2, "-", Pad(a.date.day, 2) + (" " + ta), Pad(b.date.day, 2) + (" " + tb));
    FieldOrder(a.date.year, b.date.year, 4, "-", da, db);
  }

  /** `format_chat_timestamp(ts)` with the clock reading `now` passed in. */
  function FormatChatTimestamp(ts: string, now: DateTime): Result<string, FormatError>
    requires ValidDateTime(now)
  {
    match ParseTimestamp(ts)
    case None => Err(MalformedTimestamp)
    case Some(t) =>
      var today := now.date;
      if today == MinDate then Err(DateUnderflow)
      else
        var yesterday := PrevDate(today);
        if t.date == today then Ok("Today")
        else if t.date == yesterday then Ok("Yesterday")
        else Ok(DayName(t.date))
  }

  /** The label depends on the day count between the stored date and today
      only: "Today" for the same day, "Yesterday" for exactly one day
      earlier, otherwise the stored date's weekday name; hours and minutes
      play no part. */
  lemma FormatChatTimestampLabels(ts: string, now: DateTime)
    requires ValidDateTime(now)
    ensures ParseTimestamp(ts).None? ==> FormatChatTimestamp(ts, now) == Err(MalformedTimestamp)
    ensures ParseTimestamp(ts).Some? && now.date == MinDate ==>
      FormatChatTimestamp(ts, now) == Err(DateUnderflow)
    ensures ParseTimestamp(ts).Some? && now.date != MinDate ==>
      var d := ParseTimestamp(ts).value.date;
      (FormatChatTimestamp(ts, now) == Ok("Today") <==> Ordinal(d) == Ordinal(now.date))
      && (FormatChatTimestamp(ts, now) == Ok("Yesterday") <==> Ordinal(d) + 1 == Ordinal(now.date))
      && (Ordinal(d) != Ordinal(now.date) && Ordinal(d) + 1 != Ordinal(now.date) ==>
            FormatChatTimestamp(ts, now) == Ok(DayName(d)))
  {
    if ParseTimestamp(ts).Some? && now.date != MinDate {
      var d := ParseTimestamp(ts).value.date;
      PrevDateIsOneDayEarlier(now.date);
      OrdinalInjective(d, now.date);
      OrdinalInjective(d, PrevDate(now.date));
    }
  }

  /** A stored timestamp reads as "Today" against the clock reading it was
      written from, so a new session whose timestamp and `display_time` come
      from one clock reading shows "Today". */
  lemma FormatOwnTimestampIsToday(now: DateTime)
    requires ValidDateTime(now) && now.date != MinDate
    ensures FormatChatTimestamp(RenderTimestamp(now), now) == Ok("Today")
  {
    ParseRenderRoundTrip(now);
  }

  /** Examples of the formatter on stored timestamps. Same day
      ("2024-01-05 08:30" at noon that day): */
  lemma FormatTodayExample()
    ensures FormatChatTimestamp(RenderTimestamp(DateTime(Date(2024, 1, 5), 8, 30)), DateTime(Date(2024, 1, 5), 12, 0))
      == Ok("Today")
  {
    ParseRenderRoundTrip(DateTime(Date(2024, 1, 5), 8, 30));
  }

  /** A session from one minute before midnight ("2023-12-31 23:59"), viewed
      a quarter past midnight across a year boundary, is already "Yesterday". */
  lemma FormatYesterdayExample()
    ensures FormatChatTimestamp(RenderTimestamp(DateTime(Date(2023, 12, 31), 23, 59)), DateTime(Date(2024, 1, 1), 0, 15))
      == Ok("Yesterday")
  {
    ParseRenderRoundTrip(DateTime(Date(2023, 12, 31), 23, 59));
  }

  /** Two days back gives the weekday name: 2024-01-03 was a Wednesday. */
  lemma FormatWeekdayExample()
    ensures FormatChatTimestamp(RenderTimestamp(DateTime(Date(2024, 1, 3), 10, 0)), DateTime(Date(2024, 1, 5), 12, 0))
      == Ok("Wednesday")
  {
    var t, now := DateTime(Date(2024, 1, 3), 10, 0), DateTime(Date(2024, 1, 5), 12, 0);
    ParseRenderRoundTrip(t);
    WednesdayExample();
    assert PrevDate(now.date) == Date(2024, 1, 4);
  }

  lemma WednesdayExample()
    ensures DayName(Date(2024, 1, 3)) == "Wednesday"
  {
    assert Ordinal(Date(2024, 1, 3)) == 738888;
  }

  /** A date the calendar does not have is refused like strptime refuses it. */
  lemma FormatMalformedExample()
    ensures FormatChatTimestamp("2024-02-30 10:00", DateTime(Date(2024, 1, 5), 12, 0)) == Err(MalformedTimestamp)
  {
    var s := "2024-02-30 10:00";
    assert s[5..7] == "02" && s[8..10] == "30";
    TwoDigits(s[5..7]);
    TwoDigits(s[8..10]);
  }

  lemma TwoDigits(s: string)
    requires |s| == 2 && AllDigits(s)
    ensures DigitsValue(s) == (s[0] as int - '0' as int) * 10 + (s[1] as int - '0' as int)
  {
    var first := s[..1];
    assert first[..0] == [] && first[0] == s[0];
    assert DigitsValue(first) == s[0] as int - '0' as int;
  }
}
