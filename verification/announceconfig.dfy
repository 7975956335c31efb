/**
 * The per-community announcement settings (the `server_settings` table) and
 * the three commands that write them.
 *
 * `guild_id` is an INTEGER PRIMARY KEY, so the table holds at most one row per
 * community and a scan returns rows in ascending community id; the table is a
 * sequence strictly ascending by id. Every command reads the current row,
 * keeps the columns it does not own and writes the whole row back with
 * INSERT OR REPLACE.
 */
module AnnounceConfig {
  import opened Wrappers
  import opened TimeConversion

  /** One row's columns besides the key. The channel column is NOT NULL; the rest may be NULL. */
  datatype Config = Config(
    channel: int,
    hourUtc: Option<int>,
    minuteUtc: Option<int>,
    offset: Option<int>,      // whole minutes east of UTC
    template: Option<string>)

  datatype ConfigRow = ConfigRow(guild: int, config: Config)

  predicate Ascending(t: seq<ConfigRow>) {
    forall i, j :: 0 <= i < j < |t| ==> t[i].guild < t[j].guild
  }

  type ConfigTable = t: seq<ConfigRow> | Ascending(t) witness []

  /** The longest template the message command accepts, in code points. */
  const MaxTemplateLength: int := 1000

  datatype ConfigError =
    | ChannelNotConfigured   // no row yet, or its channel is 0
    | TemplateTooLong

  /** `SELECT … WHERE guild_id = ?` followed by `fetchone()`. */
  function Find(t: seq<ConfigRow>, g: int): (r: Option<Config>)
    ensures r.Some? ==> ConfigRow(g, r.value) in t
    ensures r.None? ==> forall i :: 0 <= i < |t| ==> t[i].guild != g
  {
    if |t| == 0 then None
    else if t[0].guild == g then Some(t[0].config)
    else Find(t[1..], g)
  }

  /** `INSERT OR REPLACE`: the row for `g` becomes `c`, in its place in key order. */
  function Put(t: seq<ConfigRow>, g: int, c: Config): (r: seq<ConfigRow>)
    requires Ascending(t)
    ensures Ascending(r)
    ensures ConfigRow(g, c) in r
    ensures forall i :: 0 <= i < |r| ==> r[i] == ConfigRow(g, c) || (r[i] in t && r[i].guild != g)
    ensures forall i :: 0 <= i < |t| && t[i].guild != g ==> t[i] in r
  {
    if |t| == 0 then [ConfigRow(g, c)]
    else if t[0].guild == g then
      assert Find(t[1..], g).None?;
      [ConfigRow(g, c)] + t[1..]
    else if g < t[0].guild then
      assert forall i :: 0 <= i < |t| ==> t[i].guild != g;
      [ConfigRow(g, c)] + t
    else
      var rest := Put(t[1..], g, c);
      assert forall i :: 0 <= i < |rest| ==> t[0].guild < rest[i].guild;
      [t[0]] + rest
  }

  /** A row of an ascending table is what a lookup of its key finds. */
  lemma {:induction false} FindRow(t: ConfigTable, row: ConfigRow)
    requires row in t
    ensures Find(t, row.guild) == Some(row.config)
  {
    if t[0] != row {
      assert row in t[1..];
      assert t[0].guild < row.guild;
      FindRow(t[1..], row);
    }
  }

  /** After `Put`, the key holds the new columns and every other key reads as before. */
  lemma PutFind(t: ConfigTable, g: int, c: Config, h: int)
    ensures Find(Put(t, g, c), h) == if h == g then Some(c) else Find(t, h)
  {
    var r: ConfigTable := Put(t, g, c);
    if h == g {
      FindRow(r, ConfigRow(g, c));
    } else {
      match Find(t, h)
      case Some(x) =>
        FindRow(r, ConfigRow(h, x));
      case None =>
    }
  }

  /** Two tables that answer every lookup alike are the same table. */
  lemma {:induction false} TableExtensional(a: ConfigTable, b: ConfigTable)
    requires forall g :: Find(a, g) == Find(b, g)
    ensures a == b
  {
    if |a| == 0 || |b| == 0 {
      if |a| > 0 {
        var k := Find(a, a[0].guild);
        assert false;
      } else if |b| > 0 {
        var k := Find(b, b[0].guild);
        assert false;
      }
    } else {
      FindRow(a, a[0]);
      FindRow(b, b[0]);
      // The smallest key of each table is a key of the other, so they coincide.
      var ga, gb := a[0].guild, b[0].guild;
      assert Find(b, ga).Some?;
      var ia :| 0 <= ia < |b| && b[ia].guild == ga;
      assert Find(a, gb).Some?;
      var ib :| 0 <= ib < |a| && a[ib].guild == gb;
      assert ga == gb;
      assert a[0] == b[0];
      var a', b' := a[1..], b[1..];
      forall g
        ensures Find(a', g) == Find(b', g)
      {
        if g != ga {
          assert Find(a, g) == Find(a', g);
          assert Find(b, g) == Find(b', g);
        } else {
          assert Find(a', g).None?;
          assert Find(b', g).None?;
        }
      }
      TableExtensional(a', b');
      assert a == [a[0]] + a' && b == [b[0]] + b';
    }
  }

  /** Writing back the row that is already there changes nothing. */
  lemma PutExisting(t: ConfigTable, g: int, c: Config)
    requires Find(t, g) == Some(c)
    ensures Put(t, g, c) == t
  {
    forall h
      ensures Find(Put(t, g, c), h) == Find(t, h)
    {
      PutFind(t, g, c, h);
    }
    TableExtensional(Put(t, g, c), t);
  }

  /** A later write to the same key replaces an earlier one entirely. */
  lemma PutPut(t: ConfigTable, g: int, c1: Config, c2: Config)
    ensures Put(Put(t, g, c1), g, c2) == Put(t, g, c2)
  {
    var once: ConfigTable := Put(t, g, c1);
    forall h
      ensures Find(Put(once, g, c2), h) == Find(Put(t, g, c2), h)
    {
      PutFind(once, g, c2, h);
      PutFind(t, g, c1, h);
      PutFind(t, g, c2, h);
    }
    TableExtensional(Put(once, g, c2), Put(t, g, c2));
  }

  /** Whether the community has a usable channel: a row whose channel id is not 0. */
  predicate HasChannel(t: ConfigTable, g: int) {
    Find(t, g).Some? && Find(t, g).value.channel != 0
  }

  /**
   * set_announce_channel: stores the channel and keeps the time, offset and
   * template already stored, or leaves them NULL when there was no row.
   */
  function SetAnnounceChannel(t: ConfigTable, g: int, channel: int): (r: ConfigTable)
    ensures Find(r, g).Some? && Find(r, g).value.channel == channel
    ensures Find(t, g).Some? ==> Find(r, g) == Some(Find(t, g).value.(channel := channel))
    ensures Find(t, g).None? ==> Find(r, g) == Some(Config(channel, None, None, None, None))
    ensures forall h :: h != g ==> Find(r, h) == Find(t, h)
  {
    var current := Find(t, g);
    var c := if current.Some? then current.value.(channel := channel)
             else Config(channel, None, None, None, None);
    PutFindAll(t, g, c);
    Put(t, g, c)
  }

  lemma PutFindAll(t: ConfigTable, g: int, c: Config)
    ensures Find(Put(t, g, c), g) == Some(c)
    ensures forall h :: h != g ==> Find(Put(t, g, c), h) == Find(t, h)
  {
    PutFind(t, g, c, g);
    forall h | h != g
      ensures Find(Put(t, g, c), h) == Find(t, h)
    {
      PutFind(t, g, c, h);
    }
  }

  /**
   * set_announce_time: converts the local time at the given offset (default
   * +9.0 hours) to UTC and stores the UTC time and the offset, keeping the
   * channel and template; refused when no channel is configured yet.
   */
  function SetAnnounceTime(t: ConfigTable, g: int, hour: int, minute: int, offset: Option<int>)
    : (r: Result<ConfigTable, ConfigError>)
    ensures r.Failure? <==> !HasChannel(t, g)
    ensures r.Failure? ==> r.error == ChannelNotConfigured
    ensures r.Success? ==>
              && Find(r.value, g).Some?
              && var before := Find(t, g).value;
              var after := Find(r.value, g).value;
              var eff := offset.GetOr(DefaultOffsetMinutes);
              && after.channel == before.channel && after.template == before.template
              && after.offset == Some(eff)
              && after.hourUtc.Some? && after.minuteUtc.Some?
              && ClockTime(after.hourUtc.value, after.minuteUtc.value) == LocalToUtc(hour, minute, eff)
    ensures r.Success? ==> forall h :: h != g ==> Find(r.value, h) == Find(t, h)
  {
    var eff := offset.GetOr(DefaultOffsetMinutes);
    var utc := LocalToUtc(hour, minute, eff);
    if !HasChannel(t, g) then Failure(ChannelNotConfigured)
    else
      var current := Find(t, g).value;
      var c := current.(hourUtc := Some(utc.hour), minuteUtc := Some(utc.minute), offset := Some(eff));
      PutFindAll(t, g, c);
      Success(Put(t, g, c))
  }

  /**
   * set_announce_message: refuses a template over 1000 characters before
   * anything else, then requires a configured channel, and stores the
   * template keeping every other column.
   */
  function SetAnnounceMessage(t: ConfigTable, g: int, template: string): (r: Result<ConfigTable, ConfigError>)
    ensures r.Failure? <==> |template| > MaxTemplateLength || !HasChannel(t, g)
    ensures r.Failure? ==> (r.error == TemplateTooLong <==> |template| > MaxTemplateLength)
    ensures r.Success? ==> Find(r.value, g) == Some(Find(t, g).value.(template := Some(template)))
    ensures r.Success? ==> forall h :: h != g ==> Find(r.value, h) == Find(t, h)
  {
    if |template| > MaxTemplateLength then Failure(TemplateTooLong)
    else if !HasChannel(t, g) then Failure(ChannelNotConfigured)
    else
      var c := Find(t, g).value.(template := Some(template));
      PutFindAll(t, g, c);
      Success(Put(t, g, c))
  }

  // ---- Properties ----

  /**
   * After setting a valid time, the settings display shows exactly the local
   * time that was entered, at the stored offset.
   */
  lemma SetTimeShowsEnteredTime(t: ConfigTable, g: int, hour: int, minute: int, offset: Option<int>)
    requires HasChannel(t, g)
    requires ValidClock(hour, minute) && ValidOffset(offset.GetOr(DefaultOffsetMinutes))
    ensures var r := SetAnnounceTime(t, g, hour, minute, offset);
            && r.Success?
            && var c := Find(r.value, g).value;
               UtcToLocalText(c.hourUtc, c.minuteUtc, c.offset) == ClockText(ClockTime(hour, minute))
  {
    var eff := offset.GetOr(DefaultOffsetMinutes);
    var u := LocalToUtc(hour, minute, eff);
    var c := Find(t, g).value.(hourUtc := Some(u.hour), minuteUtc := Some(u.minute), offset := Some(eff));
    PutFindAll(t, g, c);
    RoundTrip(hour, minute, eff);
  }

  /** Setting the channel never disturbs the time or the template already stored. */
  lemma ChannelKeepsSchedule(t: ConfigTable, g: int, hour: int, minute: int, offset: Option<int>, channel: int)
    requires HasChannel(t, g) && channel != 0
    ensures var timed := SetAnnounceTime(t, g, hour, minute, offset);
            && timed.Success?
            && var moved := SetAnnounceChannel(timed.value, g, channel);
               var r := SetAnnounceTime(SetAnnounceChannel(t, g, channel), g, hour, minute, offset);
               r.Success? && r.value == moved
  {
    var timed := SetAnnounceTime(t, g, hour, minute, offset).value;
    var moved := SetAnnounceChannel(timed, g, channel);
    var first := SetAnnounceChannel(t, g, channel);
    var r := SetAnnounceTime(first, g, hour, minute, offset);
    assert r.Success?;
    forall h
      ensures Find(r.value, h) == Find(moved, h)
    {
    }
    TableExtensional(r.value, moved);
  }

  /** Setting the time twice keeps only the second one. */
  lemma SetTimeTwice(t: ConfigTable, g: int, h1: int, m1: int, o1: Option<int>, h2: int, m2: int, o2: Option<int>)
    requires HasChannel(t, g)
    ensures var first := SetAnnounceTime(t, g, h1, m1, o1);
            && first.Success?
            && SetAnnounceTime(first.value, g, h2, m2, o2) == SetAnnounceTime(t, g, h2, m2, o2)
  {
    var first := SetAnnounceTime(t, g, h1, m1, o1).value;
    var second := SetAnnounceTime(first, g, h2, m2, o2);
    var direct := SetAnnounceTime(t, g, h2, m2, o2);
    assert second.Success? && direct.Success?;
    forall h
      ensures Find(second.value, h) == Find(direct.value, h)
    {
    }
    TableExtensional(second.value, direct.value);
  }

  /** Storing the template that is already stored leaves the table as it was. */
  lemma SetMessageUnchanged(t: ConfigTable, g: int)
    requires HasChannel(t, g) && Find(t, g).value.template.Some?
    requires |Find(t, g).value.template.value| <= MaxTemplateLength
    ensures SetAnnounceMessage(t, g, Find(t, g).value.template.value) == Success(t)
  {
    var c := Find(t, g).value;
    assert c.(template := Some(c.template.value)) == c;
    PutExisting(t, g, c);
  }
}
