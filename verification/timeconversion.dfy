/**
 * Time-of-day conversion between a community's local wall clock and UTC.
 *
 * The source builds an aware `datetime` on today's date at a fixed offset and
 * converts it; only the time of day is kept, so the conversion is arithmetic
 * on the minute of the day modulo 1440. Offsets are whole minutes here
 * (540 stands for the source's +9.0 hours).
 */
module TimeConversion {
  import opened Wrappers
  import opened TextUtil

  const MinutesPerDay: int := 1440
  /** DEFAULT_TIMEZONE_OFFSET, +9.0 hours. */
  const DefaultOffsetMinutes: int := 540
  /** DEFAULT_ANNOUNCE_HOUR_UTC and DEFAULT_ANNOUNCE_MINUTE_UTC. */
  const DefaultHourUtc: int := 0
  const DefaultMinuteUtc: int := 0
  /** The text shown when a stored time cannot be converted. */
  const UnknownTime: string := "不明"

  datatype ClockTime = ClockTime(hour: int, minute: int)

  /** `datetime` accepts an hour in 0..23 and a minute in 0..59. */
  predicate ValidClock(hour: int, minute: int) {
    0 <= hour < 24 && 0 <= minute < 60
  }

  /** `datetime.timezone` accepts offsets strictly inside one day. */
  predicate ValidOffset(offset: int) {
    -MinutesPerDay < offset < MinutesPerDay
  }

  function MinuteOfDay(t: ClockTime): int {
    t.hour * 60 + t.minute
  }

  function FromMinuteOfDay(n: int): (t: ClockTime)
    requires 0 <= n < MinutesPerDay
    ensures ValidClock(t.hour, t.minute) && MinuteOfDay(t) == n
  {
    ClockTime(n / 60, n % 60)
  }

  /** `strftime("%H:%M")`, and equally `f"{hour:02}:{minute:02}"`. */
  function ClockText(t: ClockTime): (s: string)
    requires ValidClock(t.hour, t.minute)
    ensures |s| == 5 && s[2] == ':'
  {
    Pad2(t.hour) + ":" + Pad2(t.minute)
  }

  /**
   * convert_local_to_utc: the UTC time of day that is `offset` minutes behind
   * the given local time; any ValueError (hour, minute or offset out of range)
   * yields 00:00.
   */
  function LocalToUtc(hour: int, minute: int, offset: int): (r: ClockTime)
    ensures ValidClock(r.hour, r.minute)
    ensures ValidClock(hour, minute) && ValidOffset(offset) ==>
              MinuteOfDay(r) == (hour * 60 + minute - offset) % MinutesPerDay
    ensures !(ValidClock(hour, minute) && ValidOffset(offset)) ==> r == ClockTime(0, 0)
  {
    if ValidClock(hour, minute) && ValidOffset(offset) then
      WrapDayIsMod(hour * 60 + minute - offset);
      FromMinuteOfDay(WrapDay(hour * 60 + minute - offset))
    else
      ClockTime(0, 0)
  }

  /**
   * convert_utc_to_local_str: a missing offset means +9.0 hours; a missing hour
   * or minute means both fall back to 00:00 UTC; an invalid combination gives
   * the "unknown" text.
   */
  function UtcToLocalText(hourUtc: Option<int>, minuteUtc: Option<int>, offset: Option<int>): (s: string)
    ensures s == UnknownTime <==>
              var off := offset.GetOr(DefaultOffsetMinutes);
              !(ValidOffset(off) && (hourUtc.None? || minuteUtc.None? || ValidClock(hourUtc.value, minuteUtc.value)))
    ensures s != UnknownTime ==> |s| == 5 && s[2] == ':'
    ensures hourUtc.Some? && minuteUtc.Some? ==>
              s == ShowLocal(ClockTime(hourUtc.value, minuteUtc.value), offset.GetOr(DefaultOffsetMinutes))
    ensures hourUtc.None? || minuteUtc.None? ==>
              s == ShowLocal(ClockTime(DefaultHourUtc, DefaultMinuteUtc), offset.GetOr(DefaultOffsetMinutes))
  {
    var off := offset.GetOr(DefaultOffsetMinutes);
    var utc := if hourUtc.None? || minuteUtc.None? then ClockTime(DefaultHourUtc, DefaultMinuteUtc)
               else ClockTime(hourUtc.value, minuteUtc.value);
    ShowLocal(utc, off)
  }

  /** The local rendering of a UTC time of day, or the "unknown" text on a ValueError. */
  function ShowLocal(utc: ClockTime, offset: int): (s: string)
    ensures s == UnknownTime <==> !(ValidClock(utc.hour, utc.minute) && ValidOffset(offset))
    ensures ValidClock(utc.hour, utc.minute) && ValidOffset(offset) ==>
              s == ClockText(FromMinuteOfDay((MinuteOfDay(utc) + offset) % MinutesPerDay))
  {
    if ValidClock(utc.hour, utc.minute) && ValidOffset(offset) then
      ClockText(UtcToLocal(utc, offset))
    else
      UnknownTime
  }

  /** The local time of day `offset` minutes ahead of a valid UTC time of day. */
  function UtcToLocal(utc: ClockTime, offset: int): (t: ClockTime)
    requires ValidClock(utc.hour, utc.minute) && ValidOffset(offset)
    ensures ValidClock(t.hour, t.minute)
    ensures MinuteOfDay(t) == (MinuteOfDay(utc) + offset) % MinutesPerDay
  {
    WrapDayIsMod(MinuteOfDay(utc) + offset);
    FromMinuteOfDay(WrapDay(MinuteOfDay(utc) + offset))
  }

  /**
   * The minute of the day for a value at most one day outside 0..1439: the
   * datetime arithmetic never needs to move by more than one day here.
   */
  function WrapDay(n: int): (r: int)
    requires -MinutesPerDay < n < 2 * MinutesPerDay
    ensures 0 <= r < MinutesPerDay
    ensures r == n || r == n + MinutesPerDay || r == n - MinutesPerDay
  {
    if n < 0 then n + MinutesPerDay else if n >= MinutesPerDay then n - MinutesPerDay else n
  }

  lemma WrapDayIsMod(n: int)
    requires -MinutesPerDay < n < 2 * MinutesPerDay
    ensures WrapDay(n) == n % MinutesPerDay
  {
  }

  /** A minute of the day splits back into the hour and minute it was built from. */
  lemma SplitMinuteOfDay(hour: int, minute: int)
    requires ValidClock(hour, minute)
    ensures FromMinuteOfDay(hour * 60 + minute) == ClockTime(hour, minute)
  {
    var x := hour * 60 + minute;
    assert x == 60 * (x / 60) + x % 60;
    assert x / 60 == hour;
  }

  /** Converting a valid local time to UTC and back at the same offset gives the local time again. */
  lemma ClockRoundTrip(hour: int, minute: int, offset: int)
    requires ValidClock(hour, minute) && ValidOffset(offset)
    ensures UtcToLocal(LocalToUtc(hour, minute, offset), offset) == ClockTime(hour, minute)
  {
    var local := hour * 60 + minute;
    var u := LocalToUtc(hour, minute, offset);
    assert MinuteOfDay(u) == WrapDay(local - offset);
    assert WrapDay(MinuteOfDay(u) + offset) == local;
    SplitMinuteOfDay(hour, minute);
  }

  /** Showing a valid UTC time locally and converting that back to UTC gives the UTC time again. */
  lemma ClockRoundTripBack(utc: ClockTime, offset: int)
    requires ValidClock(utc.hour, utc.minute) && ValidOffset(offset)
    ensures var l := UtcToLocal(utc, offset);
            LocalToUtc(l.hour, l.minute, offset) == utc
  {
    var l := UtcToLocal(utc, offset);
    assert MinuteOfDay(l) == WrapDay(MinuteOfDay(utc) + offset);
    assert WrapDay(MinuteOfDay(l) - offset) == MinuteOfDay(utc);
    SplitMinuteOfDay(utc.hour, utc.minute);
  }

  /** A valid UTC time shows as a local time exactly when it is that local time's conversion. */
  lemma LocalMatchesUtc(utc: ClockTime, hour: int, minute: int, offset: int)
    requires ValidClock(utc.hour, utc.minute) && ValidClock(hour, minute) && ValidOffset(offset)
    ensures UtcToLocal(utc, offset) == ClockTime(hour, minute) <==> utc == LocalToUtc(hour, minute, offset)
  {
    ClockRoundTrip(hour, minute, offset);
    ClockRoundTripBack(utc, offset);
  }

  /** A community with no schedule and no offset is shown the default 09:00. */
  lemma UnsetScheduleShowsNine()
    ensures UtcToLocalText(None, None, None) == "09:00"
  {
    UnsetScheduleIsNine();
    NineText();
  }

  lemma UnsetScheduleIsNine()
    ensures UtcToLocalText(None, None, None) == ClockText(ClockTime(9, 0))
  {
    var u := ClockTime(DefaultHourUtc, DefaultMinuteUtc);
    assert UtcToLocalText(None, None, None) == ShowLocal(u, DefaultOffsetMinutes);
    ShowLocalAt(u, DefaultOffsetMinutes, 9, 0);
  }

  lemma NineText()
    ensures ClockText(ClockTime(9, 0)) == "09:00"
  {
    assert Pad2(9) == "09" && Pad2(0) == "00";
  }

  /** A valid UTC time whose minute of the day plus the offset falls on `hour`:`minute` shows as that time. */
  lemma ShowLocalAt(utc: ClockTime, offset: int, hour: int, minute: int)
    requires ValidClock(utc.hour, utc.minute) && ValidOffset(offset) && ValidClock(hour, minute)
    requires MinuteOfDay(utc) + offset == hour * 60 + minute
    ensures ShowLocal(utc, offset) == ClockText(ClockTime(hour, minute))
  {
    SplitMinuteOfDay(hour, minute);
    WrapDayIsMod(MinuteOfDay(utc) + offset);
  }


  /**
   * Converting a valid local time to UTC and displaying it back at the same
   * offset shows the local time that was entered.
   */
  lemma RoundTrip(hour: int, minute: int, offset: int)
    requires ValidClock(hour, minute) && ValidOffset(offset)
    ensures var u := LocalToUtc(hour, minute, offset);
            UtcToLocalText(Some(u.hour), Some(u.minute), Some(offset)) == ClockText(ClockTime(hour, minute))
  {
    var u := LocalToUtc(hour, minute, offset);
    ClockRoundTrip(hour, minute, offset);
    assert ShowLocal(u, offset) == ClockText(UtcToLocal(u, offset));
  }
}
