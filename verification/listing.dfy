/**
 * The listing query of list_birthdays: one community's rows
 * `ORDER BY birthday, display_name`. The date column compares with the
 * default BINARY collation; the name column was declared NOCASE, so names
 * compare by their folded form.
 */
module BirthdayListing {
  import opened Collation
  import opened BirthdayStore

  /** The ORDER BY key order: date first, then the folded name. */
  predicate RowLe(a: Birthday, b: Birthday) {
    LexLe(a.date, b.date) && (a.date == b.date ==> LexLe(Fold(a.name), Fold(b.name)))
  }

  predicate Sorted(s: seq<Birthday>) {
    forall i, j :: 0 <= i < j < |s| ==> RowLe(s[i], s[j])
  }

  lemma {:induction false} LexLeReflexive(a: string)
    ensures LexLe(a, a)
    decreases |a|
  {
    if |a| > 0 {
      LexLeReflexive(a[1..]);
    }
  }

  lemma RowLeTotal(a: Birthday, b: Birthday)
    ensures RowLe(a, b) || RowLe(b, a)
  {
    LexLeTotal(a.date, b.date);
    LexLeTotal(Fold(a.name), Fold(b.name));
  }

  lemma RowLeTransitive(a: Birthday, b: Birthday, c: Birthday)
    requires RowLe(a, b) && RowLe(b, c)
    ensures RowLe(a, c)
  {
    LexLeTransitive(a.date, b.date, c.date);
    if a.date == c.date {
      LexLeAntisymmetric(a.date, b.date);
      LexLeTransitive(Fold(a.name), Fold(b.name), Fold(c.name));
    }
  }

  /** Rows ordered both ways have the same date and the same NOCASE name. */
  lemma RowLeAntisymmetric(a: Birthday, b: Birthday)
    requires RowLe(a, b) && RowLe(b, a)
    ensures a.date == b.date && SameName(a.name, b.name)
  {
    LexLeAntisymmetric(a.date, b.date);
    LexLeAntisymmetric(Fold(a.name), Fold(b.name));
  }

  /** The rows `WHERE guild_id = ?`, in table order. */
  function GuildRows(t: seq<Birthday>, g: int): (r: seq<Birthday>)
    ensures forall x :: x in r <==> x in t && x.guild == g
    ensures multiset(r) <= multiset(t)
  {
    if |t| == 0 then []
    else
      assert t == [t[0]] + t[1..];
      if t[0].guild == g then [t[0]] + GuildRows(t[1..], g) else GuildRows(t[1..], g)
  }

  /** Puts one row into a sorted list after every row that precedes it. */
  function Insert(x: Birthday, s: seq<Birthday>): (r: seq<Birthday>)
    requires Sorted(s)
    ensures Sorted(r)
    ensures multiset(r) == multiset(s) + multiset{x}
  {
    if |s| == 0 then [x]
    else if RowLe(x, s[0]) then
      LeadsSorted(x, s);
      [x] + s
    else
      RowLeTotal(x, s[0]);
      var rest := Insert(x, s[1..]);
      assert s == [s[0]] + s[1..];
      HeadBelowInserted(s, x, rest);
      PrependSorted(s[0], rest);
      [s[0]] + rest
  }

  /** A row ordered before every row of a sorted list can go in front of it. */
  lemma PrependSorted(x: Birthday, s: seq<Birthday>)
    requires Sorted(s) && forall j :: 0 <= j < |s| ==> RowLe(x, s[j])
    ensures Sorted([x] + s)
  {
    var r := [x] + s;
    forall i, j | 0 <= i < j < |r|
      ensures RowLe(r[i], r[j])
    {
      if i > 0 {
        assert r[i] == s[i - 1] && r[j] == s[j - 1];
      }
    }
  }

  /** A row ordered before the head of a sorted list can go in front of it. */
  lemma LeadsSorted(x: Birthday, s: seq<Birthday>)
    requires Sorted(s) && |s| > 0 && RowLe(x, s[0])
    ensures Sorted([x] + s)
  {
    forall j | 0 <= j < |s|
      ensures RowLe(x, s[j])
    {
      if j > 0 {
        RowLeTransitive(x, s[0], s[j]);
      }
    }
    PrependSorted(x, s);
  }

  /** The head of a sorted list is ordered before its tail with one more row that follows the head. */
  lemma HeadBelowInserted(s: seq<Birthday>, x: Birthday, rest: seq<Birthday>)
    requires Sorted(s) && |s| > 0 && RowLe(s[0], x)
    requires multiset(rest) == multiset(s[1..]) + multiset{x}
    ensures forall j :: 0 <= j < |rest| ==> RowLe(s[0], rest[j])
  {
    forall j | 0 <= j < |rest|
      ensures RowLe(s[0], rest[j])
    {
      assert rest[j] in multiset(rest);
      if rest[j] != x {
        assert rest[j] in multiset(s[1..]);
        var i :| 0 <= i < |s[1..]| && s[1..][i] == rest[j];
        assert s[i + 1] == rest[j];
      }
    }
  }

  /** Insertion sort by the ORDER BY key. */
  function SortRows(s: seq<Birthday>): (r: seq<Birthday>)
    ensures Sorted(r)
    ensures multiset(r) == multiset(s)
  {
    if |s| == 0 then []
    else
      assert s == [s[0]] + s[1..];
      Insert(s[0], SortRows(s[1..]))
  }

  /** list_birthdays' query: the community's rows by date, then by name. */
  function Listing(t: BirthdayTable, g: int): (r: seq<Birthday>)
    ensures Sorted(r)
    ensures multiset(r) == multiset(GuildRows(t, g))
    ensures forall x :: x in r <==> x in t && x.guild == g
  {
    var rows := GuildRows(t, g);
    var r := SortRows(rows);
    assert forall x :: x in r <==> x in multiset(rows);
    r
  }

  // ---- Properties ----

  /** No two distinct rows of the list tie on the ORDER BY key. */
  predicate KeyDistinct(s: seq<Birthday>) {
    forall i, j :: 0 <= i < |s| && 0 <= j < |s| && RowLe(s[i], s[j]) && RowLe(s[j], s[i]) ==> s[i] == s[j]
  }

  /** Within one community the key is unique, so the ORDER BY key never ties. */
  lemma GuildRowsKeyDistinct(t: BirthdayTable, g: int)
    ensures KeyDistinct(GuildRows(t, g))
  {
    var s := GuildRows(t, g);
    forall i, j | 0 <= i < |s| && 0 <= j < |s| && RowLe(s[i], s[j]) && RowLe(s[j], s[i])
      ensures s[i] == s[j]
    {
      RowLeAntisymmetric(s[i], s[j]);
      assert s[i] in t && s[j] in t;
      var p :| 0 <= p < |t| && t[p] == s[i];
      var q :| 0 <= q < |t| && t[q] == s[j];
      if p < q {
        assert SameKey(t[q], t[p].guild, t[p].name);
      } else if q < p {
        assert SameKey(t[p], t[q].guild, t[q].name);
      }
    }
  }

  /** The head of a sorted list precedes every row in it, itself included. */
  lemma SortedHeadFirst(a: seq<Birthday>, x: Birthday)
    requires Sorted(a) && x in a
    ensures RowLe(a[0], x)
  {
    if x == a[0] {
      LexLeReflexive(x.date);
      LexLeReflexive(Fold(x.name));
    } else {
      var i :| 0 < i < |a| && a[i] == x;
    }
  }

  /** Dropping the head of two lists with the same rows and the same head leaves the same rows. */
  lemma TailsSameRows(a: seq<Birthday>, b: seq<Birthday>)
    requires |a| > 0 && |b| > 0 && a[0] == b[0] && multiset(a) == multiset(b)
    ensures multiset(a[1..]) == multiset(b[1..])
  {
    assert a == [a[0]] + a[1..] && b == [b[0]] + b[1..];
    assert multiset(a) == multiset{a[0]} + multiset(a[1..]);
    assert multiset(b) == multiset{b[0]} + multiset(b[1..]);
    assert multiset(a[1..]) == multiset(a) - multiset{a[0]};
    assert multiset(b[1..]) == multiset(b) - multiset{b[0]};
  }

  lemma TailKeyDistinct(a: seq<Birthday>)
    requires |a| > 0 && KeyDistinct(a)
    ensures KeyDistinct(a[1..])
  {
    forall p, q | 0 <= p < |a[1..]| && 0 <= q < |a[1..]| && RowLe(a[1..][p], a[1..][q]) && RowLe(a[1..][q], a[1..][p])
      ensures a[1..][p] == a[1..][q]
    {
      assert a[1..][p] == a[p + 1] && a[1..][q] == a[q + 1];
    }
  }

  /** Two sorted arrangements of the same rows, with no ties, are the same list. */
  lemma {:induction false} SortedUnique(a: seq<Birthday>, b: seq<Birthday>)
    requires Sorted(a) && Sorted(b) && multiset(a) == multiset(b) && KeyDistinct(a)
    ensures a == b
    decreases |a|
  {
    if |a| > 0 {
      assert a[0] in multiset(b);
      assert |b| > 0;
      assert b[0] in multiset(a);
      SortedHeadFirst(b, a[0]);
      SortedHeadFirst(a, b[0]);
      var j :| 0 <= j < |a| && a[j] == b[0];
      assert a[0] == b[0];
      TailsSameRows(a, b);
      TailKeyDistinct(a);
      assert Sorted(a[1..]) && Sorted(b[1..]);
      SortedUnique(a[1..], b[1..]);
      assert a == [a[0]] + a[1..] && b == [b[0]] + b[1..];
    } else {
      assert |multiset(b)| == 0;
    }
  }

  /**
   * The listing is the only arrangement of the community's rows that the
   * ORDER BY allows: any sorted list of the same rows is this list.
   */
  lemma ListingDetermined(t: BirthdayTable, g: int, s: seq<Birthday>)
    requires Sorted(s) && multiset(s) == multiset(GuildRows(t, g))
    ensures s == Listing(t, g)
  {
    var l := Listing(t, g);
    GuildRowsKeyDistinct(t, g);
    assert KeyDistinct(l) by {
      var rows := GuildRows(t, g);
      forall i, j | 0 <= i < |l| && 0 <= j < |l| && RowLe(l[i], l[j]) && RowLe(l[j], l[i])
        ensures l[i] == l[j]
      {
        assert l[i] in multiset(rows) && l[j] in multiset(rows);
        var p :| 0 <= p < |rows| && rows[p] == l[i];
        var q :| 0 <= q < |rows| && rows[q] == l[j];
      }
    }
    SortedUnique(l, s);
  }
}
