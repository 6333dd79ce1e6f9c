/** The status tally behind the status chart (`df['estado'].value_counts()`):
    one entry per distinct status with its number of rows, largest count first. */
module StatusTally {
  import opened Table

  /** One bar of the chart: a status and how many rows carry it. */
  datatype Entry = Entry(estado: string, count: nat)

  /** No string occurs twice. */
  predicate NoDup(xs: seq<string>)
  {
    forall i, j :: 0 <= i < j < |xs| ==> xs[i] != xs[j]
  }

  /** No status has two entries. */
  predicate NoDupStatus(t: seq<Entry>)
  {
    forall i, j :: 0 <= i < j < |t| ==> t[i].estado != t[j].estado
  }

  /** Counts never increase from one entry to a later one. */
  predicate Descending(t: seq<Entry>)
  {
    forall i, j :: 0 <= i < j < |t| ==> t[i].count >= t[j].count
  }

  /** The statuses of a tally, entry by entry. */
  function Statuses(t: seq<Entry>): (r: seq<string>)
    ensures |r| == |t|
    ensures forall i :: 0 <= i < |t| ==> r[i] == t[i].estado
  {
    if t == [] then [] else [t[0].estado] + Statuses(t[1..])
  }

  /** The sum of the counts of a tally: the height of all bars together. */
  function Sum(t: seq<Entry>): nat
  {
    if t == [] then 0 else t[0].count + Sum(t[1..])
  }

  /** The non-missing status texts, in row order: what `value_counts` sees
      once it has dropped the NaN cells. */
  function Present(col: seq<Cell>): (p: seq<string>)
    ensures |p| + Count(col, Missing) == |col|
    ensures forall s :: s in p <==> Value(s) in col
  {
    if col == [] then []
    else
      var init := col[..|col| - 1];
      var last := col[|col| - 1];
      assert forall c :: c in col <==> c in init || c == last;
      Present(init) + (if last.Value? then [last.text] else [])
  }

  /** A status is counted as often among the present texts as in the column. */
  lemma {:induction false} PresentCount(col: seq<Cell>, s: string)
    ensures Count(Present(col), s) == Count(col, Value(s))
  {
    if col != [] {
      var init := col[..|col| - 1];
      var last := col[|col| - 1];
      PresentCount(init, s);
      var tail := if last.Value? then [last.text] else [];
      CountAppend(Present(init), tail, s);
    }
  }

  /** The distinct strings of `xs`, in order of first appearance. */
  function Distinct(xs: seq<string>): (d: seq<string>)
    ensures NoDup(d)
    ensures forall s :: s in d <==> s in xs
  {
    if xs == [] then []
    else
      var init := xs[..|xs| - 1];
      var last := xs[|xs| - 1];
      assert forall s :: s in xs <==> s in init || s == last;
      var d := Distinct(init);
      if last in d then d else d + [last]
  }

  /** Pairs every string of `d` with its number of occurrences in `xs`. */
  function Counted(xs: seq<string>, d: seq<string>): (t: seq<Entry>)
    ensures |t| == |d|
    ensures forall i :: 0 <= i < |d| ==> t[i] == Entry(d[i], Count(xs, d[i]))
  {
    if d == [] then [] else [Entry(d[0], Count(xs, d[0]))] + Counted(xs, d[1..])
  }

  /** Places `e` after every entry whose count is at least its own, so that
      entries with equal counts keep the order in which they were inserted. */
  function Insert(e: Entry, t: seq<Entry>): (r: seq<Entry>)
    ensures |r| == |t| + 1
    ensures multiset(r) == multiset(t) + multiset{e}
    ensures forall x :: x in r <==> x == e || x in t
    ensures Descending(t) ==> Descending(r)
  {
    if t == [] then [e]
    else if t[0].count >= e.count then
      var rest := Insert(e, t[1..]);
      InsertBehindHead(e, t, rest);
      [t[0]] + rest
    else [e] + t
  }

  /** The step of `Insert` that keeps the head: if `rest` is `t`'s tail with
      `e` inserted, then `t`'s head followed by `rest` is `t` with `e` inserted. */
  lemma InsertBehindHead(e: Entry, t: seq<Entry>, rest: seq<Entry>)
    requires t != [] && e.count <= t[0].count
    requires multiset(rest) == multiset(t[1..]) + multiset{e}
    requires forall x :: x in rest <==> x == e || x in t[1..]
    requires Descending(t[1..]) ==> Descending(rest)
    ensures multiset([t[0]] + rest) == multiset(t) + multiset{e}
    ensures forall x :: x in [t[0]] + rest <==> x == e || x in t
    ensures Descending(t) ==> Descending([t[0]] + rest)
  {
    assert t == [t[0]] + t[1..];
    if Descending(t) {
      HeadBoundsInserted(e, t, rest);
      assert Descending(t[1..]);
    }
  }

  /** In a descending tally, the head's count bounds `e` and every entry of
      the tail, so it bounds every entry of the tail with `e` inserted. */
  lemma HeadBoundsInserted(e: Entry, t: seq<Entry>, rest: seq<Entry>)
    requires Descending(t) && t != [] && e.count <= t[0].count
    requires forall x :: x in rest ==> x == e || x in t[1..]
    ensures forall j :: 0 <= j < |rest| ==> rest[j].count <= t[0].count
  {
    forall j | 0 <= j < |rest|
      ensures rest[j].count <= t[0].count
    {
      assert rest[j] in rest;
      if rest[j] != e {
        var k :| 0 <= k < |t[1..]| && t[1..][k] == rest[j];
        assert t[k + 1] == rest[j];
      }
    }
  }

  /** Orders a tally by descending count (a stable insertion sort). */
  function SortDescending(t: seq<Entry>): (r: seq<Entry>)
    ensures |r| == |t|
    ensures multiset(r) == multiset(t)
    ensures forall x :: x in r <==> x in t
    ensures Descending(r)
  {
    if t == [] then []
    else
      var init := t[..|t| - 1];
      assert t == init + [t[|t| - 1]];
      assert forall x :: x in t <==> x in init || x == t[|t| - 1];
      Insert(t[|t| - 1], SortDescending(init))
  }

  /** Inserting adds the new count to the sum. */
  lemma {:induction false} InsertSum(e: Entry, t: seq<Entry>)
    ensures Sum(Insert(e, t)) == Sum(t) + e.count
  {
    if t != [] && t[0].count >= e.count {
      InsertSum(e, t[1..]);
    }
  }

  /** Inserting a status the tally lacks keeps the statuses distinct. */
  lemma {:induction false} InsertNoDup(e: Entry, t: seq<Entry>)
    requires NoDupStatus(t)
    requires forall x :: x in t ==> x.estado != e.estado
    ensures NoDupStatus(Insert(e, t))
  {
    if t != [] {
      var rest := t[1..];
      assert forall x :: x in rest ==> x in t;
      if t[0].count >= e.count {
        InsertNoDup(e, rest);
        var r := Insert(e, rest);
        assert forall x :: x in r ==> x.estado != t[0].estado;
        assert forall j :: 0 <= j < |r| ==> r[j] in r;
      } else {
        assert forall j :: 0 <= j < |t| ==> t[j] in t;
      }
    }
  }

  /** Sorting keeps the sum of the counts. */
  lemma {:induction false} SortSum(t: seq<Entry>)
    ensures Sum(SortDescending(t)) == Sum(t)
  {
    if t != [] {
      var init := t[..|t| - 1];
      var last := t[|t| - 1];
      SortSum(init);
      InsertSum(last, SortDescending(init));
      SumSnoc(init, last);
      assert init + [last] == t;
    }
  }

  /** The sum of a tally grows by the count of an entry appended at its end. */
  lemma {:induction false} SumSnoc(t: seq<Entry>, e: Entry)
    ensures Sum(t + [e]) == Sum(t) + e.count
  {
    if t == [] {
      assert t + [e] == [e];
    } else {
      assert (t + [e])[1..] == t[1..] + [e];
      SumSnoc(t[1..], e);
    }
  }

  /** Sorting a tally whose statuses are distinct keeps them distinct. */
  lemma {:induction false} SortNoDup(t: seq<Entry>)
    requires NoDupStatus(t)
    ensures NoDupStatus(SortDescending(t))
  {
    if t != [] {
      var init := t[..|t| - 1];
      var last := t[|t| - 1];
      SortNoDup(init);
      forall x | x in SortDescending(init)
        ensures x.estado != last.estado
      {
        var j :| 0 <= j < |init| && init[j] == x;
        assert t[j] == x;
      }
      InsertNoDup(last, SortDescending(init));
    }
  }

  /** A string listed once is counted once. */
  lemma {:induction false} CountOnce(d: seq<string>, s: string)
    requires NoDup(d)
    requires s in d
    ensures Count(d, s) == 1
  {
    var init := d[..|d| - 1];
    if d[|d| - 1] != s {
      assert s in init;
      CountOnce(init, s);
    }
  }

  /** With no text observed yet, every count is zero. */
  lemma {:induction false} CountedNothing(d: seq<string>)
    ensures Sum(Counted([], d)) == 0
  {
    if d != [] {
      CountedNothing(d[1..]);
    }
  }

  /** Observing one more text `x` adds one to the count of every listing of `x`. */
  lemma {:induction false} CountedSnoc(xs: seq<string>, x: string, d: seq<string>)
    ensures Sum(Counted(xs + [x], d)) == Sum(Counted(xs, d)) + Count(d, x)
  {
    if d != [] {
      var ys := xs + [x];
      var a := Counted(ys, d);
      var b := Counted(xs, d);
      assert ys[..|ys| - 1] == xs;
      assert a[0].count == b[0].count + (if x == d[0] then 1 else 0);
      assert a[1..] == Counted(ys, d[1..]);
      assert b[1..] == Counted(xs, d[1..]);
      CountedSnoc(xs, x, d[1..]);
      CountHead(d, x);
    }
  }

  /** Counting in a non-empty sequence: its first entry, then the rest. */
  lemma CountHead(d: seq<string>, x: string)
    requires d != []
    ensures Count(d, x) == (if d[0] == x then 1 else 0) + Count(d[1..], x)
  {
    CountAppend([d[0]], d[1..], x);
    assert [d[0]] + d[1..] == d;
    assert [d[0]][..0] == [];
  }

  /** When `d` lists every text of `xs` exactly once, the counts add up to `|xs|`. */
  lemma {:induction false} CountedSum(xs: seq<string>, d: seq<string>)
    requires NoDup(d)
    requires forall s :: s in xs ==> s in d
    ensures Sum(Counted(xs, d)) == |xs|
  {
    if xs == [] {
      CountedNothing(d);
    } else {
      var init := xs[..|xs| - 1];
      var last := xs[|xs| - 1];
      assert init + [last] == xs;
      assert forall s :: s in init ==> s in xs;
      CountedSum(init, d);
      CountedSnoc(init, last, d);
      CountOnce(d, last);
    }
  }

  /** Every entry drawn from the counted distinct statuses names a status that
      occurs in the column. */
  lemma CountedStatusesOccur(col: seq<Cell>, unsorted: seq<Entry>, t: seq<Entry>)
    requires unsorted == Counted(Present(col), Distinct(Present(col)))
    requires forall x :: x in t ==> x in unsorted
    ensures forall i :: 0 <= i < |t| ==> Value(t[i].estado) in col
  {
    var p := Present(col);
    var d := Distinct(p);
    forall i | 0 <= i < |t|
      ensures Value(t[i].estado) in col
    {
      assert t[i] in unsorted;
      var j :| 0 <= j < |unsorted| && unsorted[j] == t[i];
      assert t[i].estado == d[j];
      assert d[j] in d;
      assert d[j] in p;
    }
  }

  /** `value_counts`: the tally of the present statuses, largest count first. */
  function ValueCounts(col: seq<Cell>): (t: seq<Entry>)
    ensures Descending(t)
    ensures forall i :: 0 <= i < |t| ==> Value(t[i].estado) in col
  {
    var p := Present(col);
    var d := Distinct(p);
    var unsorted := Counted(p, d);
    var t := SortDescending(unsorted);
    CountedStatusesOccur(col, unsorted, t);
    t
  }

  /** Every entry of the tally carries a status of the column and that
      status's exact number of rows, which is positive. */
  lemma TallyCountsAreExact(col: seq<Cell>)
    ensures forall i :: 0 <= i < |ValueCounts(col)| ==>
      ValueCounts(col)[i].count == Count(col, Value(ValueCounts(col)[i].estado)) > 0
  {
    var p := Present(col);
    var d := Distinct(p);
    var unsorted := Counted(p, d);
    var t := ValueCounts(col);
    forall i | 0 <= i < |t|
      ensures t[i].count == Count(col, Value(t[i].estado)) > 0
    {
      assert t[i] in t;
      var j :| 0 <= j < |unsorted| && unsorted[j] == t[i];
      PresentCount(col, d[j]);
    }
  }

  /** Reordering a tally keeps every status it lists. */
  lemma ReorderedKeepsStatuses(u: seq<Entry>, t: seq<Entry>)
    requires forall x :: x in u ==> x in t
    ensures forall s :: s in Statuses(u) ==> s in Statuses(t)
  {
    forall s | s in Statuses(u)
      ensures s in Statuses(t)
    {
      var j :| 0 <= j < |u| && Statuses(u)[j] == s;
      assert u[j] in u;
      var i :| 0 <= i < |t| && t[i] == u[j];
      assert Statuses(t)[i] == s;
    }
  }

  /** Every status that some row carries has an entry in the tally. */
  lemma TallyListsEveryStatus(col: seq<Cell>)
    ensures forall s :: Value(s) in col ==> s in Statuses(ValueCounts(col))
  {
    var p := Present(col);
    var d := Distinct(p);
    var unsorted := Counted(p, d);
    var t := SortDescending(unsorted);
    assert ValueCounts(col) == t;
    ReorderedKeepsStatuses(unsorted, t);
    assert Statuses(unsorted) == d;
  }

  /** A status has an entry in the tally exactly when some row carries it. */
  lemma TallyCoversStatuses(col: seq<Cell>)
    ensures forall s :: s in Statuses(ValueCounts(col)) <==> Value(s) in col
  {
    TallyListsEveryStatus(col);
    var t := ValueCounts(col);
    forall s | s in Statuses(t)
      ensures Value(s) in col
    {
      var i :| 0 <= i < |t| && Statuses(t)[i] == s;
      assert t[i].estado == s;
    }
  }

  /** The tally has one entry per distinct status, in non-increasing count
      order, and its counts add up to the rows whose status is not blank. */
  lemma ValueCountsSpec(col: seq<Cell>)
    ensures NoDupStatus(ValueCounts(col))
    ensures Descending(ValueCounts(col))
    ensures forall s :: s in Statuses(ValueCounts(col)) <==> Value(s) in col
    ensures forall i :: 0 <= i < |ValueCounts(col)| ==>
      ValueCounts(col)[i].count == Count(col, Value(ValueCounts(col)[i].estado)) > 0
    ensures Sum(ValueCounts(col)) + Count(col, Missing) == |col|
  {
    var p := Present(col);
    var d := Distinct(p);
    var unsorted := Counted(p, d);
    assert NoDupStatus(unsorted);
    SortNoDup(unsorted);
    SortSum(unsorted);
    CountedSum(p, d);
    TallyCountsAreExact(col);
    TallyCoversStatuses(col);
  }

  /** With no blank status cell, the counts add up to the number of rows. */
  lemma CountsCoverEveryRow(col: seq<Cell>)
    requires Missing !in col
    ensures Sum(ValueCounts(col)) == |col|
  {
    ValueCountsSpec(col);
  }
}
