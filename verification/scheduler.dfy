/**
 * One run of the once-a-minute announcement task, as a pure function of the
 * stored tables, the current UTC time of day, today's date in Japan and an
 * oracle for what the chat platform answers.
 *
 * The announcement task reads every settings row (ascending community id). A community
 * is due when the current UTC hour equals its target hour and the current
 * minute lies in [target minute, target minute + 1). For a due community the
 * day's celebrants are queried; with none, the community is marked
 * processed; otherwise, when the community, the channel id and the channel
 * all resolve, the message is rendered and sent, and the community is
 * marked processed only if the send succeeded. A database error ends the
 * run (dispatches already made stand); a formatting error other than a
 * KeyError escapes the run the same way. A failed send is only logged.
 */
module Scheduler {
  import opened Wrappers
  import opened TimeConversion
  import opened DateText
  import opened TemplateFormat
  import opened Renderer
  import opened AnnounceConfig
  import opened BirthdayStore

  /** The width of the due window, in minutes: the announcement loop's interval. */
  const LoopIntervalMinutes: int := 1

  /** What the chat platform answers, fixed for one run. */
  datatype Platform = Platform(
    guildExists: int -> bool,               // bot.get_guild(g) is not None
    channelExists: (int, int) -> bool,      // guild.get_channel(c) is not None
    member: (int, int) -> Option<string>,   // guild.get_member(u), as its mention text
    sendOk: (int, int, string) -> bool)     // channel.send(text) raised nothing

  /** Which database statements of the run fail. */
  datatype DbFaults = DbFaults(
    connectFails: bool,         // get_db_connection() returned None
    scanFails: bool,            // the settings query raised sqlite3.Error
    queryFails: int -> bool)    // the celebrants query for a community raised sqlite3.Error

  /** The inputs one run sees besides the tables. */
  datatype Env = Env(platform: Platform, faults: DbFaults, hour: int, minute: int, today: string)

  /** One `channel.send` attempt. */
  datatype Dispatch = Dispatch(guild: int, channel: int, text: string, delivered: bool)

  /** Why a run ended before reading every row. */
  datatype Halt = NoConnection | DbError | FormatError

  datatype TickState = TickState(sent: seq<Dispatch>, processed: set<int>, halt: Option<Halt>)

  /** What one settings row leads to. */
  datatype GuildOutcome =
    | NotDue
    | QueryFailed
    | NobodyToday
    | Unreachable            // community, channel id or channel missing: skipped
    | Sent(dispatch: Dispatch)
    | TemplateFailed

  /** The stored target time, each part defaulting to 00 UTC on its own. */
  function TargetHour(c: Config): int { c.hourUtc.GetOr(DefaultHourUtc) }
  function TargetMinute(c: Config): int { c.minuteUtc.GetOr(DefaultMinuteUtc) }

  /** The due test of the announcement loop. */
  predicate Due(c: Config, hour: int, minute: int) {
    hour == TargetHour(c) && TargetMinute(c) <= minute < TargetMinute(c) + LoopIntervalMinutes
  }

  /** The names of the celebrants, in query order. */
  function Names(rows: seq<Birthday>): (r: seq<string>)
    ensures |r| == |rows|
    ensures forall i :: 0 <= i < |rows| ==> r[i] == rows[i].name
  {
    if |rows| == 0 then [] else [rows[0].name] + Names(rows[1..])
  }

  /** The mention of a celebrant, when a non-zero user id is stored and the member is found. */
  function MentionOf(b: Birthday, g: int, platform: Platform): Option<string> {
    if b.mention.Some? && b.mention.value != 0 then platform.member(g, b.mention.value) else None
  }

  /** The mentions that resolve, in query order. */
  function Mentions(rows: seq<Birthday>, g: int, platform: Platform): (r: seq<string>)
    ensures |r| <= |rows|
    ensures forall m :: m in r <==> exists i :: 0 <= i < |rows| && MentionOf(rows[i], g, platform) == Some(m)
  {
    if |rows| == 0 then []
    else
      var rest := Mentions(rows[1..], g, platform);
      assert forall i :: 1 <= i < |rows| ==> rows[i] == rows[1..][i - 1];
      match MentionOf(rows[0], g, platform)
      case Some(m) => [m] + rest
      case None => rest
  }

  /** The message for a community's celebrants, as the announcement loop builds it. */
  function Message(c: Config, rows: seq<Birthday>, g: int, env: Env): RenderResult {
    Render(c.template, Names(rows), Mentions(rows, g, env.platform), env.today)
  }

  /** The celebrants query can reach the community's channel. */
  predicate Reachable(c: Config, g: int, platform: Platform) {
    platform.guildExists(g) && c.channel != 0 && platform.channelExists(g, c.channel)
  }

  /** The body of the loop for one settings row, before the processed check. */
  function Outcome(row: ConfigRow, birthdays: seq<Birthday>, env: Env): (r: GuildOutcome)
    ensures r.Sent? ==> r.dispatch.guild == row.guild && r.dispatch.channel == row.config.channel != 0
  {
    var c, g := row.config, row.guild;
    if !Due(c, env.hour, env.minute) then NotDue
    else if env.faults.queryFails(g) then QueryFailed
    else
      var rows := Celebrants(birthdays, g, env.today);
      if |rows| == 0 then NobodyToday
      else if !env.platform.guildExists(g) then Unreachable
      else if c.channel == 0 then Unreachable
      else if !env.platform.channelExists(g, c.channel) then Unreachable
      else match Message(c, rows, g, env)
        case Raised => TemplateFailed
        case Rendered(text) => Sent(Dispatch(g, c.channel, text, env.platform.sendOk(g, c.channel, text)))
  }

  /** When each outcome happens, stated through the conditions the announcement loop checks. */
  lemma OutcomeTable(row: ConfigRow, birthdays: seq<Birthday>, env: Env)
    ensures var r := Outcome(row, birthdays, env);
            var c, g := row.config, row.guild;
            var rows := Celebrants(birthdays, g, env.today);
            && (r == NotDue <==> !Due(c, env.hour, env.minute))
            && (r == QueryFailed <==> Due(c, env.hour, env.minute) && env.faults.queryFails(g))
            && (r == NobodyToday <==> Due(c, env.hour, env.minute) && !env.faults.queryFails(g) && |rows| == 0)
            && (r == Unreachable <==>
                  Due(c, env.hour, env.minute) && !env.faults.queryFails(g) && |rows| > 0
                  && !Reachable(c, g, env.platform))
            && (r.Sent? <==>
                  Due(c, env.hour, env.minute) && !env.faults.queryFails(g) && |rows| > 0
                  && Reachable(c, g, env.platform) && Message(c, rows, g, env).Rendered?)
            && (r == TemplateFailed <==>
                  Due(c, env.hour, env.minute) && !env.faults.queryFails(g) && |rows| > 0
                  && Reachable(c, g, env.platform) && Message(c, rows, g, env).Raised?)
            && (r.Sent? ==>
                  var text := Message(c, rows, g, env).text;
                  r.dispatch == Dispatch(g, c.channel, text, env.platform.sendOk(g, c.channel, text)))
  {
  }

  /** One iteration of the loop over the settings rows. */
  function Step(s: TickState, row: ConfigRow, birthdays: seq<Birthday>, env: Env): TickState {
    if s.halt.Some? || row.guild in s.processed then s
    else match Outcome(row, birthdays, env)
      case NotDue => s
      case Unreachable => s
      case NobodyToday => s.(processed := s.processed + {row.guild})
      case Sent(d) =>
        s.(sent := s.sent + [d], processed := if d.delivered then s.processed + {row.guild} else s.processed)
      case QueryFailed => s.(halt := Some(DbError))
      case TemplateFailed => s.(halt := Some(FormatError))
  }

  const Start: TickState := TickState([], {}, None)

  /** The loop over the first `|rows|` settings rows. */
  function Run(rows: seq<ConfigRow>, birthdays: seq<Birthday>, env: Env): TickState
    decreases |rows|
  {
    if |rows| == 0 then Start
    else Step(Run(rows[..|rows| - 1], birthdays, env), rows[|rows| - 1], birthdays, env)
  }

  /** One run of the announcement task. */
  function Tick(settings: ConfigTable, birthdays: BirthdayTable, env: Env): (r: TickState)
    ensures env.faults.connectFails ==> r == TickState([], {}, Some(NoConnection))
    ensures !env.faults.connectFails && env.faults.scanFails ==> r == TickState([], {}, Some(DbError))
    ensures |settings| == 0 && !env.faults.connectFails && !env.faults.scanFails ==> r == Start
  {
    if env.faults.connectFails then TickState([], {}, Some(NoConnection))
    else if env.faults.scanFails then TickState([], {}, Some(DbError))
    else Run(settings, birthdays, env)
  }

  // ---- Properties ----

  /** Mentions keep query order: those of two stretches of rows come one after the other. */
  lemma {:induction false} MentionsAppend(a: seq<Birthday>, b: seq<Birthday>, g: int, platform: Platform)
    ensures Mentions(a + b, g, platform) == Mentions(a, g, platform) + Mentions(b, g, platform)
    decreases |a|
  {
    if |a| == 0 {
      assert a + b == b;
    } else {
      assert (a + b)[0] == a[0] && (a + b)[1..] == a[1..] + b;
      MentionsAppend(a[1..], b, g, platform);
    }
  }

  /** One row contributes its mention exactly when the member resolves. */
  lemma MentionsSingle(b: Birthday, g: int, platform: Platform)
    ensures Mentions([b], g, platform) == match MentionOf(b, g, platform) case Some(m) => [m] case None => []
  {
    assert [b][1..] == [];
  }

  /** The window is one minute wide: a community is due at exactly its target hour and minute. */
  lemma DueExactMinute(c: Config, hour: int, minute: int)
    ensures Due(c, hour, minute) <==> hour == TargetHour(c) && minute == TargetMinute(c)
  {
  }

  /**
   * After set_announce_time with a valid local time, the community is due
   * exactly at the UTC minutes whose local rendering at the stored offset is
   * the time that was entered.
   */
  lemma DueAtEnteredLocalTime(t: ConfigTable, g: int, hour: int, minute: int, offset: Option<int>,
                              nowHour: int, nowMinute: int)
    requires HasChannel(t, g)
    requires ValidClock(hour, minute) && ValidOffset(offset.GetOr(DefaultOffsetMinutes))
    requires ValidClock(nowHour, nowMinute)
    ensures var r := SetAnnounceTime(t, g, hour, minute, offset);
            && r.Success?
            && (Due(Find(r.value, g).value, nowHour, nowMinute)
                <==> UtcToLocal(ClockTime(nowHour, nowMinute), offset.GetOr(DefaultOffsetMinutes))
                     == ClockTime(hour, minute))
  {
    LocalMatchesUtc(ClockTime(nowHour, nowMinute), hour, minute, offset.GetOr(DefaultOffsetMinutes));
  }

  /** Once a run has halted, the remaining rows change nothing. */
  lemma {:induction false} HaltedStays(a: seq<ConfigRow>, b: seq<ConfigRow>, birthdays: seq<Birthday>, env: Env)
    requires Run(a, birthdays, env).halt.Some?
    ensures Run(a + b, birthdays, env) == Run(a, birthdays, env)
    decreases |b|
  {
    if |b| > 0 {
      var b' := b[..|b| - 1];
      assert (a + b)[..|a + b| - 1] == a + b';
      HaltedStays(a, b', birthdays, env);
    } else {
      assert a + b == a;
    }
  }

  /** Some settings row's outcome is the dispatch `d`. */
  predicate SentBy(rows: seq<ConfigRow>, birthdays: seq<Birthday>, env: Env, d: Dispatch) {
    exists i :: 0 <= i < |rows| && Outcome(rows[i], birthdays, env) == Sent(d)
  }

  lemma SentByLonger(rows: seq<ConfigRow>, birthdays: seq<Birthday>, env: Env, d: Dispatch)
    requires |rows| > 0 && SentBy(rows[..|rows| - 1], birthdays, env, d)
    ensures SentBy(rows, birthdays, env, d)
  {
    var prefix := rows[..|rows| - 1];
    var i :| 0 <= i < |prefix| && Outcome(prefix[i], birthdays, env) == Sent(d);
    assert rows[i] == prefix[i];
  }

  /** Every dispatch of a run comes from a settings row whose outcome was that dispatch. */
  lemma {:induction false} SentFromRows(rows: seq<ConfigRow>, birthdays: seq<Birthday>, env: Env)
    ensures forall d :: d in Run(rows, birthdays, env).sent ==> SentBy(rows, birthdays, env, d)
    decreases |rows|
  {
    if |rows| > 0 {
      var prefix := rows[..|rows| - 1];
      SentFromRows(prefix, birthdays, env);
      var p := Run(prefix, birthdays, env);
      var s := Run(rows, birthdays, env);
      forall d | d in s.sent
        ensures SentBy(rows, birthdays, env, d)
      {
        if d in p.sent {
          SentByLonger(rows, birthdays, env, d);
        } else {
          assert Outcome(rows[|rows| - 1], birthdays, env) == Sent(d);
        }
      }
    }
  }

  /** The community ids a run has dispatched to or marked processed all belong to rows read so far. */
  predicate FromRows(s: TickState, rows: seq<ConfigRow>) {
    && (forall k :: 0 <= k < |s.sent| ==> exists i :: 0 <= i < |rows| && rows[i].guild == s.sent[k].guild)
    && (forall g :: g in s.processed ==> exists i :: 0 <= i < |rows| && rows[i].guild == g)
  }

  lemma {:induction false} RunFromRows(rows: seq<ConfigRow>, birthdays: seq<Birthday>, env: Env)
    ensures FromRows(Run(rows, birthdays, env), rows)
    decreases |rows|
  {
    if |rows| > 0 {
      var prefix := rows[..|rows| - 1];
      RunFromRows(prefix, birthdays, env);
      var p := Run(prefix, birthdays, env);
      var s := Run(rows, birthdays, env);
      forall k | 0 <= k < |s.sent|
        ensures exists i :: 0 <= i < |rows| && rows[i].guild == s.sent[k].guild
      {
        if k < |p.sent| {
          var i :| 0 <= i < |prefix| && prefix[i].guild == p.sent[k].guild;
          assert rows[i] == prefix[i];
        } else {
          assert rows[|rows| - 1].guild == s.sent[k].guild;
        }
      }
      forall g | g in s.processed
        ensures exists i :: 0 <= i < |rows| && rows[i].guild == g
      {
        if g in p.processed {
          var i :| 0 <= i < |prefix| && prefix[i].guild == g;
          assert rows[i] == prefix[i];
        } else {
          assert rows[|rows| - 1].guild == g;
        }
      }
    }
  }

  /** Dispatch community ids strictly increase along a run over an ascending table. */
  predicate SentAscending(s: TickState) {
    forall k, l :: 0 <= k < l < |s.sent| ==> s.sent[k].guild < s.sent[l].guild
  }

  lemma {:induction false} RunSentAscending(rows: seq<ConfigRow>, birthdays: seq<Birthday>, env: Env)
    requires Ascending(rows)
    ensures SentAscending(Run(rows, birthdays, env))
    decreases |rows|
  {
    if |rows| > 0 {
      var prefix := rows[..|rows| - 1];
      RunSentAscending(prefix, birthdays, env);
      RunFromRows(prefix, birthdays, env);
      var p := Run(prefix, birthdays, env);
      var last := rows[|rows| - 1];
      forall k | 0 <= k < |p.sent|
        ensures p.sent[k].guild < last.guild
      {
        var i :| 0 <= i < |prefix| && prefix[i].guild == p.sent[k].guild;
        assert rows[i] == prefix[i];
      }
      StepSentGrows(p, last, birthdays, env);
      AppendAscending(p, Run(rows, birthdays, env), last.guild);
    }
  }

  /** A step appends at most one dispatch, and that one goes to the step's row. */
  lemma StepSentGrows(s: TickState, row: ConfigRow, birthdays: seq<Birthday>, env: Env)
    ensures var t := Step(s, row, birthdays, env);
            |s.sent| <= |t.sent| <= |s.sent| + 1 && t.sent[..|s.sent|] == s.sent &&
            (|t.sent| > |s.sent| ==> t.sent[|s.sent|].guild == row.guild)
  {
    var t := Step(s, row, birthdays, env);
    if t.sent != s.sent {
      var o := Outcome(row, birthdays, env);
      assert o.Sent? && t.sent == s.sent + [o.dispatch];
    }
  }

  /** Extending an ascending dispatch list by one larger community id keeps it ascending. */
  lemma AppendAscending(p: TickState, s: TickState, g: int)
    requires SentAscending(p)
    requires forall k :: 0 <= k < |p.sent| ==> p.sent[k].guild < g
    requires |p.sent| <= |s.sent| <= |p.sent| + 1 && s.sent[..|p.sent|] == p.sent
    requires |s.sent| > |p.sent| ==> s.sent[|p.sent|].guild == g
    ensures SentAscending(s)
  {
    forall k, l | 0 <= k < l < |s.sent|
      ensures s.sent[k].guild < s.sent[l].guild
    {
      assert s.sent[k] == p.sent[k];
      if l < |p.sent| {
        assert s.sent[l] == p.sent[l];
      }
    }
  }

  /** No community gets two announcements from one run. */
  lemma AtMostOneDispatchPerGuild(settings: ConfigTable, birthdays: BirthdayTable, env: Env)
    ensures var s := Tick(settings, birthdays, env);
            forall k, l :: 0 <= k < l < |s.sent| ==> s.sent[k].guild != s.sent[l].guild
  {
    if !env.faults.connectFails && !env.faults.scanFails {
      RunSentAscending(settings, birthdays, env);
    }
  }

  /**
   * Every announcement goes to a due community with celebrants today, whose
   * community and non-zero channel resolve, on that channel, with the text
   * the renderer gives for those celebrants.
   */
  lemma DispatchEligible(settings: ConfigTable, birthdays: BirthdayTable, env: Env, d: Dispatch)
    requires d in Tick(settings, birthdays, env).sent
    ensures exists i :: 0 <= i < |settings| && settings[i].guild == d.guild
              && var c := settings[i].config;
              var rows := Celebrants(birthdays, d.guild, env.today);
              && Due(c, env.hour, env.minute)
              && |rows| > 0
              && Reachable(c, d.guild, env.platform)
              && d.channel == c.channel
              && Message(c, rows, d.guild, env) == Rendered(d.text)
              && d.delivered == env.platform.sendOk(d.guild, c.channel, d.text)
  {
    var s := Run(settings, birthdays, env);
    assert Tick(settings, birthdays, env) == s;
    SentFromRows(settings, birthdays, env);
    assert SentBy(settings, birthdays, env, d);
    var i :| 0 <= i < |settings| && Outcome(settings[i], birthdays, env) == Sent(d);
    OutcomeTable(settings[i], birthdays, env);
  }

  /**
   * A community marked processed was due, and either had no celebrants or
   * had its announcement delivered.
   */
  lemma {:induction false} ProcessedMeansHandled(rows: seq<ConfigRow>, birthdays: seq<Birthday>, env: Env, g: int)
    requires g in Run(rows, birthdays, env).processed
    ensures exists i :: 0 <= i < |rows| && rows[i].guild == g
              && (Outcome(rows[i], birthdays, env) == NobodyToday
                  || (Outcome(rows[i], birthdays, env).Sent? && Outcome(rows[i], birthdays, env).dispatch.delivered))
    decreases |rows|
  {
    var prefix := rows[..|rows| - 1];
    var p := Run(prefix, birthdays, env);
    if g in p.processed {
      ProcessedMeansHandled(prefix, birthdays, env, g);
      var i :| 0 <= i < |prefix| && prefix[i].guild == g
               && (Outcome(prefix[i], birthdays, env) == NobodyToday
                   || (Outcome(prefix[i], birthdays, env).Sent? && Outcome(prefix[i], birthdays, env).dispatch.delivered));
      assert rows[i] == prefix[i];
    }
  }

  /** On an ascending table the processed check never skips the row being read. */
  lemma LastNotProcessed(rows: seq<ConfigRow>, birthdays: seq<Birthday>, env: Env)
    requires Ascending(rows) && |rows| > 0
    ensures rows[|rows| - 1].guild !in Run(rows[..|rows| - 1], birthdays, env).processed
  {
    var prefix := rows[..|rows| - 1];
    RunFromRows(prefix, birthdays, env);
    var last := rows[|rows| - 1];
    assert forall j :: 0 <= j < |prefix| ==> prefix[j].guild < last.guild;
  }

  /** The step for a row that is read applies its outcome. */
  lemma StepApplies(s: TickState, row: ConfigRow, birthdays: seq<Birthday>, env: Env)
    requires s.halt.None? && row.guild !in s.processed
    ensures var n := Step(s, row, birthdays, env);
            var o := Outcome(row, birthdays, env);
            && (o.Sent? ==> o.dispatch in n.sent)
            && (o == NobodyToday || (o.Sent? && o.dispatch.delivered) ==> row.guild in n.processed)
  {
  }

  /** A step never takes back a dispatch or a processed mark. */
  lemma StepKeeps(s: TickState, row: ConfigRow, birthdays: seq<Birthday>, env: Env)
    ensures var n := Step(s, row, birthdays, env);
            && (forall d :: d in s.sent ==> d in n.sent)
            && s.processed <= n.processed
  {
  }

  /** The last row of a run that did not halt had its outcome applied. */
  lemma RunAppliesLast(rows: seq<ConfigRow>, birthdays: seq<Birthday>, env: Env)
    requires Ascending(rows) && |rows| > 0
    requires Run(rows, birthdays, env).halt.None?
    ensures var s := Run(rows, birthdays, env);
            var o := Outcome(rows[|rows| - 1], birthdays, env);
            && (o.Sent? ==> o.dispatch in s.sent)
            && (o == NobodyToday || (o.Sent? && o.dispatch.delivered) ==> rows[|rows| - 1].guild in s.processed)
  {
    var p := Run(rows[..|rows| - 1], birthdays, env);
    var last := rows[|rows| - 1];
    assert Run(rows, birthdays, env) == Step(p, last, birthdays, env);
    LastNotProcessed(rows, birthdays, env);
    StepApplies(p, last, birthdays, env);
  }

  /**
   * A run over an ascending table that did not halt applied every row's
   * outcome: each dispatch was made, each community with nobody today or a
   * delivered announcement is processed.
   */
  lemma {:induction false} RunComplete(rows: seq<ConfigRow>, birthdays: seq<Birthday>, env: Env, i: int)
    requires Ascending(rows) && 0 <= i < |rows|
    requires Run(rows, birthdays, env).halt.None?
    ensures var s := Run(rows, birthdays, env);
            var o := Outcome(rows[i], birthdays, env);
            && (o.Sent? ==> o.dispatch in s.sent)
            && (o == NobodyToday || (o.Sent? && o.dispatch.delivered) ==> rows[i].guild in s.processed)
    decreases |rows|
  {
    if i < |rows| - 1 {
      var prefix := rows[..|rows| - 1];
      var p := Run(prefix, birthdays, env);
      var last := rows[|rows| - 1];
      assert Run(rows, birthdays, env) == Step(p, last, birthdays, env);
      assert p.halt.None?;
      assert rows[i] == prefix[i];
      RunComplete(prefix, birthdays, env, i);
      StepKeeps(p, last, birthdays, env);
    } else {
      RunAppliesLast(rows, birthdays, env);
    }
  }

  /** When the settings scan fails or the database is unreachable, nothing is sent. */
  lemma DatabaseDownSendsNothing(settings: ConfigTable, birthdays: BirthdayTable, env: Env)
    requires env.faults.connectFails || env.faults.scanFails
    ensures Tick(settings, birthdays, env).sent == []
  {
  }

  /** "04/01" is accepted and stored as it is. */
  lemma AprilFoolsDate()
    ensures CanonicalDate("04/01") == Some("04/01")
  {
    assert IsDateText("04/01", 4, 1) by {
      assert "04/01"[..2] == "04" && "04/01"[3..] == "01";
    }
    DateTextAccepted("04/01", 4, 1);
    assert FormatDate(4, 1) == "04/01";
  }

  /** The tables of the example, as the commands build them from empty tables. */
  lemma ExampleTables(g: int, name: string, registrant: int)
    ensures SetAnnounceChannel([], g, 42) == [ConfigRow(g, Config(42, None, None, None, None))]
    ensures Register([], g, name, "04/01", None, registrant)
            == Success(([Birthday(g, name, "04/01", None, registrant)], Inserted))
  {
    AprilFoolsDate();
    var row := Birthday(g, name, "04/01", None, registrant);
    assert !Registered([], g, name);
    assert Upsert([], g, name, "04/01", None, registrant) == ([] + [row], Inserted);
    assert [] + [row] == [row];
  }

  /**
   * The example run: a community with channel 42 and no time set, and one
   * birthday on 04/01 without a mention, on 04/01 in Japan. At 00:00 UTC the
   * default message goes to channel 42; at 00:01 nothing is sent.
   */
  lemma DefaultScheduleExample(g: int, name: string, registrant: int, platform: Platform, faults: DbFaults)
    requires platform.guildExists(g) && platform.channelExists(g, 42)
    requires !faults.connectFails && !faults.scanFails && !faults.queryFails(g)
    ensures var settings: ConfigTable := [ConfigRow(g, Config(42, None, None, None, None))];
            var birthdays: BirthdayTable := [Birthday(g, name, "04/01", None, registrant)];
            var text := DefaultText(FormatArgs("**" + name + "**", "", "04/01"));
            && Tick(settings, birthdays, Env(platform, faults, 0, 0, "04/01")).sent
               == [Dispatch(g, 42, text, platform.sendOk(g, 42, text))]
            && Tick(settings, birthdays, Env(platform, faults, 0, 1, "04/01")).sent == []
  {
    var row := ConfigRow(g, Config(42, None, None, None, None));
    var settings: ConfigTable := [row];
    var birthdays: BirthdayTable := [Birthday(g, name, "04/01", None, registrant)];
    var rows := Celebrants(birthdays, g, "04/01");
    assert rows == birthdays;
    assert Names(rows) == [name];
    assert Mentions(rows, g, platform) == [];
    FalsyTemplateRendersDefault(None, [name], [], "04/01");
    NamesTextSingle(name);
    assert settings[..0] == [];
    var env := Env(platform, faults, 0, 0, "04/01");
    var text := DefaultText(FormatArgs("**" + name + "**", "", "04/01"));
    var d := Dispatch(g, 42, text, platform.sendOk(g, 42, text));
    assert Outcome(row, birthdays, env) == Sent(d);
    assert Run(settings, birthdays, env) == Step(Start, row, birthdays, env);
    assert Step(Start, row, birthdays, env).sent == [] + [d];
    assert [] + [d] == [d];
    var later := env.(minute := 1);
    assert Outcome(row, birthdays, later) == NotDue;
    assert Run(settings, birthdays, later) == Step(Start, row, birthdays, later);
  }

  /**
   * A custom template holding a positional field ("{}", "{0}") raises an
   * error the announcement loop does not catch once that community is due and has
   * celebrants to announce.
   */
  lemma PositionalTemplateFails(row: ConfigRow, birthdays: seq<Birthday>, env: Env, key: string)
    requires row.config.template == Some("{" + key + "}") && IsPositional(key)
    requires Due(row.config, env.hour, env.minute) && !env.faults.queryFails(row.guild)
    requires |Celebrants(birthdays, row.guild, env.today)| > 0 && Reachable(row.config, row.guild, env.platform)
    ensures Outcome(row, birthdays, env) == TemplateFailed
  {
    var rows := Celebrants(birthdays, row.guild, env.today);
    PositionalKeyRaises(key, Names(rows), Mentions(rows, row.guild, env.platform), env.today);
  }

  /** A row whose outcome is a formatting failure ends the run: no later row is read. */
  lemma TemplateFailureEndsRun(row: ConfigRow, later: seq<ConfigRow>, birthdays: seq<Birthday>, env: Env)
    requires Outcome(row, birthdays, env) == TemplateFailed
    ensures Run([row] + later, birthdays, env) == TickState([], {}, Some(FormatError))
  {
    assert [row][..0] == [];
    assert Run([row], birthdays, env) == TickState([], {}, Some(FormatError));
    HaltedStays([row], later, birthdays, env);
  }

  /**
   * A formatting failure at any row the loop reaches, one not yet halted
   * and not skipped as processed, halts the run there: the sends and marks
   * made before it stay, and no later row is read.
   */
  lemma TemplateFailureHaltsRun(pre: seq<ConfigRow>, row: ConfigRow, later: seq<ConfigRow>, birthdays: seq<Birthday>, env: Env)
    requires Run(pre, birthdays, env).halt.None? && row.guild !in Run(pre, birthdays, env).processed
    requires Outcome(row, birthdays, env) == TemplateFailed
    ensures var s := Run(pre, birthdays, env);
            Run(pre + [row] + later, birthdays, env) == TickState(s.sent, s.processed, Some(FormatError))
  {
    var a := pre + [row];
    assert a[..|a| - 1] == pre && a[|a| - 1] == row;
    HaltedStays(a, later, birthdays, env);
  }
}
