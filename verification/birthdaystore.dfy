/**
 * The `birthdays` table and the commands that write and query it.
 *
 * The key is (guild_id, display_name) with display_name compared under
 * NOCASE, so "Alice" and "alice" are one person within a community. Rows
 * are kept in insertion (rowid) order. Every `WHERE guild_id = ? AND
 * display_name = ?` statement is modelled literally, touching every
 * matching row; the key makes that at most one.
 */
module BirthdayStore {
  import opened Wrappers
  import opened Collation
  import opened DateText

  datatype Birthday = Birthday(
    guild: int,
    name: string,            // as first registered; later updates keep it
    date: string,            // canonical "MM/DD"
    mention: Option<int>,    // the user to mention, if any
    registeredBy: int)

  /** The row is the one a statement with this guild and name addresses. */
  predicate SameKey(b: Birthday, g: int, name: string) {
    b.guild == g && SameName(b.name, name)
  }

  /** The primary key holds: no two rows of one community fold to the same name. */
  predicate KeysUnique(t: seq<Birthday>) {
    forall i, j :: 0 <= i < j < |t| ==> !SameKey(t[j], t[i].guild, t[i].name)
  }

  type BirthdayTable = t: seq<Birthday> | KeysUnique(t) witness []

  predicate Registered(t: seq<Birthday>, g: int, name: string) {
    exists i :: 0 <= i < |t| && SameKey(t[i], g, name)
  }

  /** How many rows a statement with this key touches. */
  function Count(t: seq<Birthday>, g: int, name: string): (n: nat)
    ensures n <= |t|
    ensures n > 0 <==> Registered(t, g, name)
  {
    if |t| == 0 then 0
    else
      assert forall i :: 1 <= i < |t| ==> t[i] == t[1..][i - 1];
      (if SameKey(t[0], g, name) then 1 else 0) + Count(t[1..], g, name)
  }

  /** The rows other statements leave alone: those not matching the key, in order. */
  function Others(t: seq<Birthday>, g: int, name: string): (r: seq<Birthday>)
    ensures |r| + Count(t, g, name) == |t|
    ensures forall x :: x in r <==> x in t && !SameKey(x, g, name)
  {
    if |t| == 0 then []
    else if SameKey(t[0], g, name) then Others(t[1..], g, name)
    else [t[0]] + Others(t[1..], g, name)
  }

  /** Dropping a key's rows keeps the remaining rows in their order: the filter distributes over concatenation. */
  lemma {:induction false} OthersAppend(a: seq<Birthday>, b: seq<Birthday>, g: int, name: string)
    ensures Others(a + b, g, name) == Others(a, g, name) + Others(b, g, name)
    decreases |a|
  {
    if |a| == 0 {
      assert a + b == b;
    } else {
      ConsSplit(a, b);
      OthersAppend(a[1..], b, g, name);
      OthersAppendStep(a[0], a[1..], b, g, name);
    }
  }

  /** The inductive step of `OthersAppend`: one more leading row. */
  lemma OthersAppendStep(x: Birthday, tail: seq<Birthday>, b: seq<Birthday>, g: int, name: string)
    requires Others(tail + b, g, name) == Others(tail, g, name) + Others(b, g, name)
    ensures Others([x] + (tail + b), g, name) == Others([x] + tail, g, name) + Others(b, g, name)
  {
    var head := if SameKey(x, g, name) then [] else [x];
    OthersCons(x, tail + b, g, name);
    OthersCons(x, tail, g, name);
    Reassociate(head, Others(tail, g, name), Others(b, g, name), Others(tail + b, g, name),
                Others([x] + (tail + b), g, name), Others([x] + tail, g, name));
  }

  lemma OthersCons(x: Birthday, t: seq<Birthday>, g: int, name: string)
    ensures Others([x] + t, g, name) == (if SameKey(x, g, name) then [] else [x]) + Others(t, g, name)
  {
    assert ([x] + t)[0] == x && ([x] + t)[1..] == t;
  }

  /** The row a key names, if registered. */
  function Lookup(t: seq<Birthday>, g: int, name: string): (r: Option<Birthday>)
    ensures r.Some? <==> Registered(t, g, name)
    ensures r.Some? ==> r.value in t && SameKey(r.value, g, name)
  {
    if |t| == 0 then None
    else if SameKey(t[0], g, name) then Some(t[0])
    else
      assert forall i :: 1 <= i < |t| ==> t[i] == t[1..][i - 1];
      Lookup(t[1..], g, name)
  }

  /** The key is unique: a lookup hits at most one row. */
  lemma {:induction false} CountAtMostOne(t: BirthdayTable, g: int, name: string)
    ensures Count(t, g, name) <= 1
  {
    if |t| > 0 {
      var rest: BirthdayTable := t[1..];
      if SameKey(t[0], g, name) {
        forall i | 0 <= i < |rest|
          ensures !SameKey(rest[i], g, name)
        {
          assert rest[i] == t[i + 1];
          assert !SameKey(t[i + 1], t[0].guild, t[0].name);
        }
      } else {
        CountAtMostOne(rest, g, name);
      }
    }
  }

  /** Every row matching a key is the row the lookup returns. */
  lemma {:induction false} LookupUnique(t: BirthdayTable, g: int, name: string, x: Birthday)
    requires x in t && SameKey(x, g, name)
    ensures Lookup(t, g, name) == Some(x)
  {
    var i :| 0 <= i < |t| && t[i] == x;
    if i > 0 {
      assert !SameKey(t[i], t[0].guild, t[0].name);
      var rest: BirthdayTable := t[1..];
      assert rest[i - 1] == x;
      LookupUnique(rest, g, name, x);
    }
  }

  /** The ON CONFLICT … DO UPDATE branch: new date, mention and registrant on matching rows. */
  function UpdateMatching(t: seq<Birthday>, g: int, name: string, date: string, mention: Option<int>, registrant: int)
    : (r: seq<Birthday>)
    ensures |r| == |t|
    ensures forall i :: 0 <= i < |t| ==>
              r[i] == if SameKey(t[i], g, name) then t[i].(date := date, mention := mention, registeredBy := registrant) else t[i]
  {
    if |t| == 0 then []
    else
      var head := if SameKey(t[0], g, name) then t[0].(date := date, mention := mention, registeredBy := registrant) else t[0];
      [head] + UpdateMatching(t[1..], g, name, date, mention, registrant)
  }

  /** `UPDATE birthdays SET mention_user_id = ?` on matching rows. */
  function SetMentionMatching(t: seq<Birthday>, g: int, name: string, mention: Option<int>): (r: seq<Birthday>)
    ensures |r| == |t|
    ensures forall i :: 0 <= i < |t| ==> r[i] == if SameKey(t[i], g, name) then t[i].(mention := mention) else t[i]
  {
    if |t| == 0 then []
    else
      var head := if SameKey(t[0], g, name) then t[0].(mention := mention) else t[0];
      [head] + SetMentionMatching(t[1..], g, name, mention)
  }

  /** Rewriting columns other than the guild and the name keeps the key unique. */
  lemma SameKeysUnique(t: BirthdayTable, r: seq<Birthday>)
    requires |r| == |t|
    requires forall i :: 0 <= i < |t| ==> r[i].guild == t[i].guild && r[i].name == t[i].name
    ensures KeysUnique(r)
  {
    forall i, j | 0 <= i < j < |r|
      ensures !SameKey(r[j], r[i].guild, r[i].name)
    {
      assert !SameKey(t[j], t[i].guild, t[i].name);
    }
  }

  /** Updating non-key columns of matching rows leaves the other rows as they were. */
  lemma {:induction false} OthersOfUpdate(t: seq<Birthday>, r: seq<Birthday>, g: int, name: string)
    requires |r| == |t|
    requires forall i :: 0 <= i < |t| ==>
               (SameKey(t[i], g, name) ==> r[i].guild == t[i].guild && r[i].name == t[i].name)
               && (!SameKey(t[i], g, name) ==> r[i] == t[i])
    ensures Others(r, g, name) == Others(t, g, name)
    ensures Count(r, g, name) == Count(t, g, name)
  {
    if |t| > 0 {
      OthersOfUpdate(t[1..], r[1..], g, name);
    }
  }

  datatype RegisterOutcome = Inserted | Updated
  datatype CommandError = InvalidDate | NotRegistered

  /**
   * `after` is `before` with the key registered: exactly one row holds it,
   * with the given date, mention and registrant, under the name first
   * written for the key; every other row is as it was, in the same order.
   */
  predicate StoredAs(after: seq<Birthday>, before: seq<Birthday>, g: int, name: string,
                     date: string, mention: Option<int>, registrant: int) {
    && Count(after, g, name) == 1
    && Lookup(after, g, name).Some?
    && var row := Lookup(after, g, name).value;
    && row.date == date && row.mention == mention && row.registeredBy == registrant
    && row.guild == g
    && row.name == (if Registered(before, g, name) then Lookup(before, g, name).value.name else name)
    && Others(after, g, name) == Others(before, g, name)
  }

  /**
   * register_birthday: the text must be a date '%m/%d' accepts; a new key is
   * appended, a known key has its date, mention and registrant replaced
   * while it keeps the name as first written.
   */
  function Register(t: BirthdayTable, g: int, name: string, text: string, mention: Option<int>, registrant: int)
    : (r: Result<(BirthdayTable, RegisterOutcome), CommandError>)
    ensures r.Failure? <==> CanonicalDate(text).None?
    ensures r.Failure? ==> r.error == InvalidDate
    ensures r.Success? ==> (r.value.1 == Updated <==> Registered(t, g, name))
    ensures r.Success? ==> StoredAs(r.value.0, t, g, name, CanonicalDate(text).value, mention, registrant)
  {
    match CanonicalDate(text)
    case None => Failure(InvalidDate)
    case Some(date) => Success(Upsert(t, g, name, date, mention, registrant))
  }

  /** The INSERT … ON CONFLICT DO UPDATE statement, with the date already canonical. */
  function Upsert(t: BirthdayTable, g: int, name: string, date: string, mention: Option<int>, registrant: int)
    : (r: (BirthdayTable, RegisterOutcome))
    ensures r.1 == Updated <==> Registered(t, g, name)
    ensures StoredAs(r.0, t, g, name, date, mention, registrant)
  {
    if Registered(t, g, name) then
      UpdateExisting(t, g, name, date, mention, registrant);
      (UpdateMatching(t, g, name, date, mention, registrant), Updated)
    else
      InsertNew(t, g, name, date, mention, registrant);
      (t + [Birthday(g, name, date, mention, registrant)], Inserted)
  }

  /** The update branch of registration, on a table holding the key. */
  lemma UpdateExisting(t: BirthdayTable, g: int, name: string, date: string, mention: Option<int>, registrant: int)
    requires Registered(t, g, name)
    ensures var u := UpdateMatching(t, g, name, date, mention, registrant);
            && KeysUnique(u)
            && StoredAs(u, t, g, name, date, mention, registrant)
  {
    var u := UpdateMatching(t, g, name, date, mention, registrant);
    SameKeysUnique(t, u);
    OthersOfUpdate(t, u, g, name);
    CountAtMostOne(t, g, name);
    var prior := Lookup(t, g, name).value;
    var i :| 0 <= i < |t| && t[i] == prior;
    LookupUnique(u, g, name, u[i]);
  }

  /** The insert branch of registration, on a table without the key. */
  lemma InsertNew(t: BirthdayTable, g: int, name: string, date: string, mention: Option<int>, registrant: int)
    requires !Registered(t, g, name)
    ensures var u := t + [Birthday(g, name, date, mention, registrant)];
            KeysUnique(u) && StoredAs(u, t, g, name, date, mention, registrant)
  {
    var row := Birthday(g, name, date, mention, registrant);
    var u := t + [row];
    assert KeysUnique(u) by {
      forall i | 0 <= i < |t|
        ensures !SameKey(row, t[i].guild, t[i].name)
      {
        assert !SameKey(t[i], g, name);
      }
    }
    AppendFacts(t, row, g, name);
    LookupUnique(u, g, name, row);
  }

  /** Appending a row with the key to a table without it. */
  lemma {:induction false} AppendFacts(t: seq<Birthday>, row: Birthday, g: int, name: string)
    requires SameKey(row, g, name) && !Registered(t, g, name)
    ensures Count(t + [row], g, name) == 1
    ensures Others(t + [row], g, name) == Others(t, g, name)
  {
    if |t| == 0 {
      assert t + [row] == [row];
    } else {
      assert (t + [row])[1..] == t[1..] + [row];
      assert !SameKey(t[0], g, name);
      AppendFacts(t[1..], row, g, name);
    }
  }

  /**
   * set_mention: refused for a name that is not registered; otherwise only
   * the mention column of that row changes.
   */
  function SetMention(t: BirthdayTable, g: int, name: string, mention: Option<int>): (r: Result<BirthdayTable, CommandError>)
    ensures r.Failure? <==> !Registered(t, g, name)
    ensures r.Failure? ==> r.error == NotRegistered
    ensures r.Success? ==>
              && Lookup(r.value, g, name) == Some(Lookup(t, g, name).value.(mention := mention))
              && Others(r.value, g, name) == Others(t, g, name)
  {
    if !Registered(t, g, name) then Failure(NotRegistered)
    else
      var u := SetMentionMatching(t, g, name, mention);
      SameKeysUnique(t, u);
      OthersOfUpdate(t, u, g, name);
      var prior := Lookup(t, g, name).value;
      var i :| 0 <= i < |t| && t[i] == prior;
      LookupUnique(u, g, name, u[i]);
      Success(u)
  }

  /**
   * delete_birthday: removes the rows matching the key; the flag is the
   * `rowcount > 0` the command reports on.
   */
  function Delete(t: BirthdayTable, g: int, name: string): (r: (BirthdayTable, bool))
    ensures r.1 <==> Registered(t, g, name)
    ensures !Registered(r.0, g, name)
    ensures forall x :: x in r.0 <==> x in t && !SameKey(x, g, name)
    ensures |t| - |r.0| == (if r.1 then 1 else 0)
    ensures r.0 == Others(t, g, name)
  {
    CountAtMostOne(t, g, name);
    var rest := Others(t, g, name);
    OthersUnique(t, g, name);
    (rest, Count(t, g, name) > 0)
  }

  /** Dropping rows keeps the key unique. */
  lemma {:induction false} OthersUnique(t: BirthdayTable, g: int, name: string)
    ensures KeysUnique(Others(t, g, name))
  {
    if |t| > 0 {
      var rest: BirthdayTable := t[1..];
      OthersUnique(rest, g, name);
      if !SameKey(t[0], g, name) {
        var r := Others(t, g, name);
        forall j | 1 <= j < |r|
          ensures !SameKey(r[j], r[0].guild, r[0].name)
        {
          assert r[j] in rest;
        }
      }
    }
  }

  /** The per-date query: the community's rows whose stored date is `date`, in table order. */
  function Celebrants(t: seq<Birthday>, g: int, date: string): (r: seq<Birthday>)
    ensures forall x :: x in r <==> x in t && x.guild == g && x.date == date
    ensures forall x :: multiset(r)[x] == if x.guild == g && x.date == date then multiset(t)[x] else 0
    ensures |r| <= |t|
  {
    if |t| == 0 then []
    else
      assert t == [t[0]] + t[1..];
      if t[0].guild == g && t[0].date == date then [t[0]] + Celebrants(t[1..], g, date)
      else Celebrants(t[1..], g, date)
  }

  // ---- Properties ----

  /** The query keeps table order: the celebrants of two stretches of rows come one after the other. */
  lemma {:induction false} CelebrantsAppend(a: seq<Birthday>, b: seq<Birthday>, g: int, date: string)
    ensures Celebrants(a + b, g, date) == Celebrants(a, g, date) + Celebrants(b, g, date)
    decreases |a|
  {
    if |a| == 0 {
      assert a + b == b;
    } else {
      ConsSplit(a, b);
      CelebrantsAppend(a[1..], b, g, date);
      CelebrantsAppendStep(a[0], a[1..], b, g, date);
    }
  }

  lemma ConsSplit(a: seq<Birthday>, b: seq<Birthday>)
    requires |a| > 0
    ensures a == [a[0]] + a[1..] && a + b == [a[0]] + (a[1..] + b)
  {
  }

  /** The inductive step of `CelebrantsAppend`: one more leading row. */
  lemma CelebrantsAppendStep(x: Birthday, tail: seq<Birthday>, b: seq<Birthday>, g: int, date: string)
    requires Celebrants(tail + b, g, date) == Celebrants(tail, g, date) + Celebrants(b, g, date)
    ensures Celebrants([x] + (tail + b), g, date) == Celebrants([x] + tail, g, date) + Celebrants(b, g, date)
  {
    var head := if x.guild == g && x.date == date then [x] else [];
    CelebrantsCons(x, tail + b, g, date);
    CelebrantsCons(x, tail, g, date);
    Reassociate(head, Celebrants(tail, g, date), Celebrants(b, g, date), Celebrants(tail + b, g, date),
                Celebrants([x] + (tail + b), g, date), Celebrants([x] + tail, g, date));
  }

  lemma Reassociate(h: seq<Birthday>, u: seq<Birthday>, v: seq<Birthday>, w: seq<Birthday>, y: seq<Birthday>, z: seq<Birthday>)
    requires y == h + w && w == u + v && z == h + u
    ensures y == z + v
  {
  }

  lemma CelebrantsCons(x: Birthday, t: seq<Birthday>, g: int, date: string)
    ensures Celebrants([x] + t, g, date) == (if x.guild == g && x.date == date then [x] else []) + Celebrants(t, g, date)
  {
    assert ([x] + t)[0] == x && ([x] + t)[1..] == t;
  }

  /** Registering a new name and then deleting it gives back the table. */
  lemma RegisterThenDelete(t: BirthdayTable, g: int, name: string, text: string, mention: Option<int>, registrant: int)
    requires !Registered(t, g, name) && CanonicalDate(text).Some?
    ensures var r := Register(t, g, name, text, mention, registrant);
            r.Success? && Delete(r.value.0, g, name) == (t, true)
  {
    var row := Birthday(g, name, CanonicalDate(text).value, mention, registrant);
    OthersAbsent(t, g, name);
    AppendFacts(t, row, g, name);
  }

  /** A table without the key is its own set of other rows. */
  lemma {:induction false} OthersAbsent(t: seq<Birthday>, g: int, name: string)
    requires !Registered(t, g, name)
    ensures Others(t, g, name) == t
  {
    if |t| > 0 {
      assert !SameKey(t[0], g, name);
      OthersAbsent(t[1..], g, name);
    }
  }

  /** Registering the same name twice is an update, and the second registration wins. */
  lemma RegisterTwice(t: BirthdayTable, g: int, name: string, text1: string, text2: string,
                      m1: Option<int>, m2: Option<int>, registrant1: int, registrant2: int)
    requires CanonicalDate(text1).Some? && CanonicalDate(text2).Some?
    ensures var first := Register(t, g, name, text1, m1, registrant1);
            && first.Success?
            && var second := Register(first.value.0, g, name, text2, m2, registrant2);
            && second.Success? && second.value.1 == Updated
            && Lookup(second.value.0, g, name).value.date == CanonicalDate(text2).value
            && Others(second.value.0, g, name) == Others(t, g, name)
  {
  }

  /** A name registered under another case ("alice" after "Alice") reaches the same row. */
  lemma CaseInsensitiveKey(t: BirthdayTable, g: int, name: string, other: string, text: string, mention: Option<int>, registrant: int)
    requires SameName(name, other) && CanonicalDate(text).Some?
    ensures var first := Register(t, g, name, text, mention, registrant);
            && first.Success?
            && Registered(first.value.0, g, other)
            && Delete(first.value.0, g, other).1
  {
    var first := Register(t, g, name, text, mention, registrant).value.0;
    var row := Lookup(first, g, name).value;
    assert SameKey(row, g, other);
  }

  /**
   * A birthday registered from `text` is among the day's celebrants exactly
   * when its canonical date is the day's "MM/DD".
   */
  lemma CelebratedOnItsDay(t: BirthdayTable, g: int, name: string, text: string, mention: Option<int>, registrant: int,
                           month: int, day: int)
    requires ValidDate(month, day) && CanonicalDate(text).Some?
    ensures var after := Register(t, g, name, text, mention, registrant).value.0;
            var row := Lookup(after, g, name).value;
            row in Celebrants(after, g, FormatDate(month, day))
            <==> exists m, d :: ValidDate(m, d) && IsDateText(text, m, d) && m == month && d == day
  {
    var after := Register(t, g, name, text, mention, registrant).value.0;
    var row := Lookup(after, g, name).value;
    AcceptedTextIsDate(text);
    var m, d :| ValidDate(m, d) && IsDateText(text, m, d) && CanonicalDate(text) == Some(FormatDate(m, d));
    if row in Celebrants(after, g, FormatDate(month, day)) {
      FormatDateInjective(m, d, month, day);
    }
    if exists m', d' :: ValidDate(m', d') && IsDateText(text, m', d') && m' == month && d' == day {
      DateTextAccepted(text, month, day);
    }
  }
}
