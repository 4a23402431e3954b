/**
 * `getTop7History`: for every month, in key order, sort the month's rows in
 * place by fraction, keep the first seven, and append one chart point per kept
 * row to the series of that row's name; the series come out in the order their
 * names were first met.
 */
module History {
  import opened Wrappers
  import opened Rows
  import opened Months

  /** `monthData.slice(0, 7)`: how many rows of each month the chart keeps. */
  const TopCount: nat := 7

  /** `{ x: month, y: fraction * 100 }` */
  datatype Point = Point(x: string, y: int)

  /** `{ id: name, data: points }`, one line of the chart. */
  datatype Series = Series(id: string, data: seq<Point>)

  /** A row the chart keeps, with the month it was kept for. */
  datatype Entry = Entry(month: string, row: Row)

  /** `row[2] * 100`: the fraction as a percentage, in the score's fixed-point unit. */
  function Percent(score: int): (r: int)
    ensures r % 100 == 0 && r / 100 == score
  {
    100 * score
  }

  /** `rows.slice(0, 7)`: the first seven rows, or all of them when there
      are fewer. */
  function Top(rows: seq<Row>): (r: seq<Row>)
    ensures |r| == if |rows| <= TopCount then |rows| else TopCount
    ensures r == rows[..|r|]
  {
    if |rows| <= TopCount then rows else rows[..TopCount]
  }

  /** The rows, each tagged with the month key. */
  function Tagged(key: string, rows: seq<Row>): seq<Entry>
  {
    if rows == [] then []
    else Tagged(key, rows[..|rows| - 1]) + [Entry(key, rows[|rows| - 1])]
  }

  /** The entries one month contributes. */
  function MonthEntries(m: MonthRows): seq<Entry>
  {
    Tagged(m.key, Top(m.rows))
  }

  /** The entries of the first n months, in the order the loops visit them. */
  function EntriesUpTo(ms: seq<MonthRows>, n: nat): seq<Entry>
    requires n <= |ms|
  {
    if n == 0 then [] else EntriesUpTo(ms, n - 1) + MonthEntries(ms[n - 1])
  }

  function Entries(ms: seq<MonthRows>): seq<Entry>
  {
    EntriesUpTo(ms, |ms|)
  }

  function Names(es: seq<Entry>): seq<string>
  {
    if es == [] then []
    else Names(es[..|es| - 1]) + [es[|es| - 1].row.name]
  }

  /** Each name once, at the place it first occurs. */
  function FirstAppearances(names: seq<string>): seq<string>
  {
    if names == [] then []
    else
      var d := FirstAppearances(names[..|names| - 1]);
      var n := names[|names| - 1];
      if n in d then d else d + [n]
  }

  /** The points of the entries that belong to id, in entry order. */
  function PointsOf(es: seq<Entry>, id: string): seq<Point>
  {
    if es == [] then []
    else
      var e := es[|es| - 1];
      PointsOf(es[..|es| - 1], id) + (if e.row.name == id then [Point(e.month, Percent(e.row.score))] else [])
  }

  function SeriesOf(es: seq<Entry>, ids: seq<string>): seq<Series>
  {
    seq(|ids|, i requires 0 <= i < |ids| => Series(ids[i], PointsOf(es, ids[i])))
  }

  /** The chart data the component computes from the (already sorted) months:
      each series holds exactly the points of the entries with its name. */
  function HistoryOf(ms: seq<MonthRows>): (r: seq<Series>)
    ensures forall t :: 0 <= t < |r| ==> r[t].data == PointsOf(Entries(ms), r[t].id)
  {
    var es := Entries(ms);
    SeriesOf(es, FirstAppearances(Names(es)))
  }

  /** Every month's rows sorted by column c. */
  function SortMonths(ms: seq<MonthRows>, c: Column): seq<MonthRows>
  {
    seq(|ms|, i requires 0 <= i < |ms| => Keyed(ms[i].key, SortDesc(ms[i].rows, c)))
  }

  /** The dictionary `top7History` and its key order after the entries es. */
  ghost predicate Collected(ids: seq<string>, series: map<string, seq<Point>>, es: seq<Entry>)
  {
    && ids == FirstAppearances(Names(es))
    && (forall n :: n in series <==> n in ids)
    && (forall n :: n in series ==> series[n] == PointsOf(es, n))
  }

  lemma {:induction false} FirstAppearancesMembers(s: seq<string>)
    ensures forall n :: n in FirstAppearances(s) <==> n in s
  {
    if s != [] {
      var t := s[..|s| - 1];
      FirstAppearancesMembers(t);
      assert s == t + [s[|s| - 1]];
    }
  }

  lemma {:induction false} PointsOfAbsent(es: seq<Entry>, id: string)
    requires id !in Names(es)
    ensures PointsOf(es, id) == []
  {
    if es != [] {
      var t := es[..|es| - 1];
      assert Names(es) == Names(t) + [es[|es| - 1].row.name];
      PointsOfAbsent(t, id);
    }
  }

  // The next three lemmas only name, for their callers, one unfolding of a
  // definition on a sequence with one more element; Dafny proves each directly.

  lemma NamesSnoc(es: seq<Entry>, e: Entry)
    ensures Names(es + [e]) == Names(es) + [e.row.name]
  {
  }

  lemma PointsOfSnoc(es: seq<Entry>, e: Entry, id: string)
    ensures PointsOf(es + [e], id)
         == PointsOf(es, id) + (if e.row.name == id then [Point(e.month, Percent(e.row.score))] else [])
  {
  }

  lemma FirstAppearancesSnoc(s: seq<string>, n: string)
    ensures FirstAppearances(s + [n])
         == if n in FirstAppearances(s) then FirstAppearances(s) else FirstAppearances(s) + [n]
  {
  }

  /** One iteration of the inner `forEach`: creates the name's series when the
      name is new, then appends the row's point to it. */
  method AddPoint(ids: seq<string>, series: map<string, seq<Point>>, ghost es: seq<Entry>, e: Entry)
    returns (ids': seq<string>, series': map<string, seq<Point>>)
    requires Collected(ids, series, es)
    ensures Collected(ids', series', es + [e])
  {
    var n := e.row.name;
    ids', series' := ids, series;
    if n !in series' {
      FirstAppearancesMembers(Names(es));
      PointsOfAbsent(es, n);
      series' := series'[n := []];
      ids' := ids' + [n];
    }
    series' := series'[n := series'[n] + [Point(e.month, Percent(e.row.score))]];
    NamesSnoc(es, e);
    FirstAppearancesSnoc(Names(es), n);
    forall m | m in series' ensures series'[m] == PointsOf(es + [e], m) {
      PointsOfSnoc(es, e, m);
    }
  }

  lemma TaggedSnoc(key: string, rows: seq<Row>, j: nat)
    requires j < |rows|
    ensures Tagged(key, rows[..j + 1]) == Tagged(key, rows[..j]) + [Entry(key, rows[j])]
  {
    assert rows[..j + 1][..j] == rows[..j];
  }

  /** The inner `forEach` over one month's kept rows. */
  method AddMonth(ids: seq<string>, series: map<string, seq<Point>>, ghost es: seq<Entry>, key: string, top: seq<Row>)
    returns (ids': seq<string>, series': map<string, seq<Point>>)
    requires Collected(ids, series, es)
    ensures Collected(ids', series', es + Tagged(key, top))
  {
    ids', series' := ids, series;
    ghost var cur := es;
    assert top[..0] == [];
    var j := 0;
    while j < |top|
      invariant 0 <= j <= |top|
      invariant cur == es + Tagged(key, top[..j])
      invariant Collected(ids', series', cur)
    {
      ids', series' := AddPoint(ids', series', cur, Entry(key, top[j]));
      TaggedSnoc(key, top, j);
      cur := cur + [Entry(key, top[j])];
      j := j + 1;
    }
    assert top[..|top|] == top;
  }

  /** `Object.keys(top7History).map(key => ({ id: key, data: top7History[key] }))`,
      on the dictionary itself: one series per key, in key order. */
  method Listed(ids: seq<string>, series: map<string, seq<Point>>) returns (history: seq<Series>)
    requires forall n :: n in ids ==> n in series
    ensures |history| == |ids|
    ensures forall t :: 0 <= t < |ids| ==> history[t] == Series(ids[t], series[ids[t]])
  {
    history := [];
    var k := 0;
    while k < |ids|
      invariant 0 <= k <= |ids|
      invariant |history| == k
      invariant forall t :: 0 <= t < k ==> history[t] == Series(ids[t], series[ids[t]])
    {
      history := history + [Series(ids[k], series[ids[k]])];
      k := k + 1;
    }
  }

  /** The same map, stated against the entries the dictionary was built from. */
  method ToSeries(ids: seq<string>, series: map<string, seq<Point>>, ghost es: seq<Entry>)
    returns (history: seq<Series>)
    requires Collected(ids, series, es)
    ensures history == SeriesOf(es, FirstAppearances(Names(es)))
  {
    history := Listed(ids, series);
  }

  /** One iteration of `months.forEach`: sorts the month's array in place by
      fraction (only that array changes) and adds the points of its first seven rows. */
  method AddSortedMonth(months: seq<Month>, i: nat, ids: seq<string>, series: map<string, seq<Point>>, ghost done: seq<Entry>)
    returns (ids': seq<string>, series': map<string, seq<Point>>)
    requires i < |months|
    requires DistinctArrays(months)
    requires Collected(ids, series, done)
    modifies months[i].rows
    ensures Snapshot(months) == old(Snapshot(months))[i := Keyed(months[i].key, SortDesc(old(months[i].rows[..]), Score))]
    ensures Collected(ids', series', done + MonthEntries(Keyed(months[i].key, SortDesc(old(months[i].rows[..]), Score))))
  {
    ghost var sorted := SortDesc(months[i].rows[..], Score);
    SortMonth(months, i, Score);
    assert months[i].rows[..] == Snapshot(months)[i].rows == sorted;
    ids', series' := AddMonth(ids, series, done, months[i].key, Top(months[i].rows[..]));
  }

  /** Sorting month i turns "first i sorted" into "first i + 1 sorted"; named
      for Step, Dafny proves it directly. */
  lemma Splice(a: seq<MonthRows>, b: seq<MonthRows>, i: nat)
    requires |a| == |b| && i < |a|
    ensures a[..i + 1] + b[i + 1..] == (a[..i] + b[i..])[i := a[i]]
  {
  }

  /** after holds the months of before, each sorted by fraction: SortMonths
      stated month by month, from the last month back. */
  ghost predicate SortedFrom(before: seq<MonthRows>, after: seq<MonthRows>)
    decreases |before|
  {
    && |after| == |before|
    && (|before| > 0 ==>
          && SortedFrom(before[..|before| - 1], after[..|after| - 1])
          && after[|after| - 1] == Keyed(before[|before| - 1].key, SortDesc(before[|before| - 1].rows, Score)))
  }

  /** Month i of after is month i of before, sorted. */
  lemma {:induction false} SortedFromAt(before: seq<MonthRows>, after: seq<MonthRows>, i: nat)
    requires SortedFrom(before, after) && i < |before|
    ensures after[i] == Keyed(before[i].key, SortDesc(before[i].rows, Score))
  {
    var n := |before| - 1;
    if i < n {
      SortedFromAt(before[..n], after[..n], i);
      assert before[..n][i] == before[i] && after[..n][i] == after[i];
    }
  }

  /** SortMonths gives the sorted months in the sense of SortedFrom. */
  lemma {:induction false} SortMonthsSortedFrom(ms: seq<MonthRows>)
    ensures SortedFrom(ms, SortMonths(ms, Score))
    decreases |ms|
  {
    if ms != [] {
      var n := |ms| - 1;
      SortMonthsSortedFrom(ms[..n]);
      assert SortMonths(ms, Score)[..n] == SortMonths(ms[..n], Score);
    }
  }

  /** Where the outer loop stands after i months, against the contents the
      months have when it starts (before) and after it ends (after): the
      first i months hold their sorted rows, the others their old rows, and
      the dictionary holds the entries of the first i sorted months. */
  ghost predicate Progress(months: seq<Month>, i: nat, ids: seq<string>, series: map<string, seq<Point>>,
                           done: seq<Entry>, before: seq<MonthRows>, after: seq<MonthRows>)
    reads Arrays(months)
  {
    && i <= |months| == |before| == |after|
    && Snapshot(months) == after[..i] + before[i..]
    && done == EntriesUpTo(after, i)
    && Collected(ids, series, done)
  }

  /** Before the first month nothing is sorted and the dictionary is empty. */
  lemma ProgressStart(months: seq<Month>, before: seq<MonthRows>, after: seq<MonthRows>)
    requires |months| == |before| == |after| && Snapshot(months) == before
    ensures Progress(months, 0, [], map[], [], before, after)
  {
    assert after[..0] + before[0..] == before;
  }

  /** After the last month every month is sorted. */
  lemma ProgressEnd(months: seq<Month>, ids: seq<string>, series: map<string, seq<Point>>,
                    done: seq<Entry>, before: seq<MonthRows>, after: seq<MonthRows>)
    requires Progress(months, |months|, ids, series, done, before, after)
    ensures Snapshot(months) == after
    ensures done == EntriesUpTo(after, |after|) && Collected(ids, series, done)
  {
    assert after[..|after|] + before[|after|..] == after;
  }

  /** One iteration of `months.forEach`: month i goes from its old to its
      sorted rows and its entries join the dictionary. */
  method Step(months: seq<Month>, i: nat, ids: seq<string>, series: map<string, seq<Point>>,
              ghost done: seq<Entry>, ghost before: seq<MonthRows>, ghost after: seq<MonthRows>)
    returns (ids': seq<string>, series': map<string, seq<Point>>, ghost done': seq<Entry>)
    requires i < |months| && SortedFrom(before, after)
    requires DistinctArrays(months)
    requires Progress(months, i, ids, series, done, before, after)
    modifies months[i].rows
    ensures Progress(months, i + 1, ids', series', done', before, after)
  {
    SortedFromAt(before, after, i);
    assert Snapshot(months)[i] == before[i];
    ids', series' := AddSortedMonth(months, i, ids, series, done);
    Splice(after, before, i);
    done' := done + MonthEntries(after[i]);
  }

  /** `months.forEach(...)`, the outer loop: every month gets sorted and the
      dictionary ends up holding the entries of all sorted months. */
  method SortAll(months: seq<Month>, ghost before: seq<MonthRows>, ghost after: seq<MonthRows>)
    returns (ids: seq<string>, series: map<string, seq<Point>>, ghost done: seq<Entry>)
    requires |months| == |before| && SortedFrom(before, after)
    requires DistinctArrays(months) && Snapshot(months) == before
    modifies Arrays(months)
    ensures Snapshot(months) == after
    ensures done == EntriesUpTo(after, |after|)
    ensures Collected(ids, series, done)
  {
    ids, series, done := [], map[], [];
    var i := 0;
    ProgressStart(months, before, after);
    while i < |months|
      invariant Progress(months, i, ids, series, done, before, after)
    {
      ids, series, done := Step(months, i, ids, series, done, before, after);
      i := i + 1;
    }
    ProgressEnd(months, ids, series, done, before, after);
  }

  /** `getTop7History(monthlyData)`: sorts every month's array in place by
      fraction and returns the series built from each month's first seven rows. */
  method Top7History(months: seq<Month>) returns (history: seq<Series>)
    requires DistinctArrays(months)
    modifies Arrays(months)
    ensures Snapshot(months) == SortMonths(old(Snapshot(months)), Score)
    ensures history == HistoryOf(Snapshot(months))
  {
    ghost var before := Snapshot(months);
    SortMonthsSortedFrom(before);
    var ids, series, done := SortAll(months, before, SortMonths(before, Score));
    history := ToSeries(ids, series, done);
  }

  // ---------------------------------------------------------------------------
  // What the chart data means

  /** The ids of the series, in output order. */
  function Ids(h: seq<Series>): seq<string>
  {
    seq(|h|, i requires 0 <= i < |h| => h[i].id)
  }

  /** a occurs in s, and occurs before the first occurrence of b (if any). */
  predicate FirstBefore(s: seq<string>, a: string, b: string)
  {
    match IndexOf(s, a)
    case None => false
    case Some(i) =>
      match IndexOf(s, b)
      case None => true
      case Some(j) => i < j
  }

  /** FirstAppearances keeps each name once. */
  /** One more key at the end keeps the order of the keys before it. */
  lemma FirstBeforeSnoc(s: seq<string>, n: string, a: string, b: string)
    requires FirstBefore(s, a, b)
    ensures FirstBefore(s + [n], a, b)
  {
    IndexOfSnoc(s, n, a);
    IndexOfSnoc(s, n, b);
  }

  /** A new key at the end comes after every key before it. */
  lemma FirstBeforeLast(s: seq<string>, n: string, a: string)
    requires a in s && n !in s
    ensures FirstBefore(s + [n], a, n)
  {
    IndexOfSnoc(s, n, a);
    IndexOfSnoc(s, n, n);
  }

  lemma {:induction false} FirstAppearancesDistinct(s: seq<string>)
    ensures Distinct(FirstAppearances(s))
  {
    if s != [] {
      var t := s[..|s| - 1];
      FirstAppearancesDistinct(t);
    }
  }

  /** FirstAppearances orders the names by where they first occur: the order
      `Object.keys` gives a dictionary whose keys were created in that order. */
  lemma {:induction false} FirstAppearancesOrder(s: seq<string>)
    ensures forall p, q :: 0 <= p < q < |FirstAppearances(s)| ==>
              FirstBefore(s, FirstAppearances(s)[p], FirstAppearances(s)[q])
  {
    if s != [] {
      var t := s[..|s| - 1];
      var n := s[|s| - 1];
      assert s == t + [n];
      var d := FirstAppearances(t);
      var d' := FirstAppearances(s);
      FirstAppearancesOrder(t);
      FirstAppearancesMembers(t);
      forall p, q | 0 <= p < q < |d'| ensures FirstBefore(s, d'[p], d'[q]) {
        assert d'[p] == d[p];
        IndexOfSnoc(t, n, d[p]);
        IndexOfSnoc(t, n, d'[q]);
        if q < |d| {
          assert d'[q] == d[q];
          assert FirstBefore(t, d[p], d[q]);
        }
      }
    }
  }

  lemma {:induction false} TaggedMembers(key: string, rows: seq<Row>)
    ensures |Tagged(key, rows)| == |rows|
    ensures forall e :: e in Tagged(key, rows) <==> e.month == key && e.row in rows
  {
    if rows != [] {
      var t := rows[..|rows| - 1];
      TaggedMembers(key, t);
      assert rows == t + [rows[|rows| - 1]];
    }
  }

  /** The month an entry was kept for, and the row it was kept from. */
  ghost predicate KeptAt(ms: seq<MonthRows>, i: int, e: Entry)
  {
    0 <= i < |ms| && e.month == ms[i].key && e.row in Top(ms[i].rows)
  }

  lemma {:induction false} EntriesUpToSound(ms: seq<MonthRows>, n: nat)
    requires n <= |ms|
    ensures forall e :: e in EntriesUpTo(ms, n) ==> exists i :: 0 <= i < n && KeptAt(ms, i, e)
  {
    if n > 0 {
      EntriesUpToSound(ms, n - 1);
      TaggedMembers(ms[n - 1].key, Top(ms[n - 1].rows));
      forall e | e in EntriesUpTo(ms, n) ensures exists i :: 0 <= i < n && KeptAt(ms, i, e) {
        if e in MonthEntries(ms[n - 1]) {
          assert KeptAt(ms, n - 1, e);
        } else {
          assert e in EntriesUpTo(ms, n - 1);
        }
      }
    }
  }

  lemma {:induction false} EntriesUpToComplete(ms: seq<MonthRows>, n: nat)
    requires n <= |ms|
    ensures forall i, e :: 0 <= i < n && KeptAt(ms, i, e) ==> e in EntriesUpTo(ms, n)
  {
    if n > 0 {
      EntriesUpToComplete(ms, n - 1);
      TaggedMembers(ms[n - 1].key, Top(ms[n - 1].rows));
      forall i, e | 0 <= i < n && KeptAt(ms, i, e) ensures e in EntriesUpTo(ms, n) {
        if i < n - 1 {
          assert e in EntriesUpTo(ms, n - 1);
        } else {
          assert e in MonthEntries(ms[n - 1]);
        }
      }
    }
  }

  /** An entry comes from a month, and from one of the rows kept for it. */
  lemma EntriesUpToMembers(ms: seq<MonthRows>, n: nat)
    requires n <= |ms|
    ensures forall e :: e in EntriesUpTo(ms, n) <==>
              exists i :: 0 <= i < n && e.month == ms[i].key && e.row in Top(ms[i].rows)
  {
    EntriesUpToSound(ms, n);
    EntriesUpToComplete(ms, n);
    forall e: Entry | exists i :: 0 <= i < n && e.month == ms[i].key && e.row in Top(ms[i].rows)
      ensures e in EntriesUpTo(ms, n)
    {
      var i :| 0 <= i < n && e.month == ms[i].key && e.row in Top(ms[i].rows);
      assert KeptAt(ms, i, e);
    }
  }

  lemma {:induction false} NamesMembers(es: seq<Entry>)
    ensures forall n :: n in Names(es) <==> exists e :: e in es && e.row.name == n
  {
    if es != [] {
      var t := es[..|es| - 1];
      NamesMembers(t);
      assert es == t + [es[|es| - 1]];
    }
  }

  /** The series ids are distinct, are exactly the names of the rows some
      month kept, and come in the order the loops first met them. */
  lemma HistoryIds(ms: seq<MonthRows>)
    ensures Distinct(Ids(HistoryOf(ms)))
    ensures forall n :: n in Ids(HistoryOf(ms)) <==>
              exists i, r :: 0 <= i < |ms| && r in Top(ms[i].rows) && r.name == n
    ensures forall p, q :: 0 <= p < q < |HistoryOf(ms)| ==>
              FirstBefore(Names(Entries(ms)), HistoryOf(ms)[p].id, HistoryOf(ms)[q].id)
  {
    var es := Entries(ms);
    var d := FirstAppearances(Names(es));
    assert Ids(HistoryOf(ms)) == d;
    FirstAppearancesDistinct(Names(es));
    FirstAppearancesMembers(Names(es));
    FirstAppearancesOrder(Names(es));
    NamesMembers(es);
    EntriesUpToMembers(ms, |ms|);
    forall n | n in d
      ensures exists i, r :: 0 <= i < |ms| && r in Top(ms[i].rows) && r.name == n
    {
      var e :| e in es && e.row.name == n;
      var i :| 0 <= i < |ms| && e.month == ms[i].key && e.row in Top(ms[i].rows);
    }
    forall n | exists i, r :: 0 <= i < |ms| && r in Top(ms[i].rows) && r.name == n
      ensures n in d
    {
      var i, r :| 0 <= i < |ms| && r in Top(ms[i].rows) && r.name == n;
      assert Entry(ms[i].key, r) in es;
    }
  }

  lemma {:induction false} PointsOfMembers(es: seq<Entry>, id: string)
    ensures forall pt :: pt in PointsOf(es, id) ==>
              exists e :: e in es && e.row.name == id && pt == Point(e.month, Percent(e.row.score))
  {
    if es != [] {
      var t := es[..|es| - 1];
      PointsOfMembers(t, id);
      assert es == t + [es[|es| - 1]];
    }
  }

  /** Every point of a series is (month, fraction * 100) of a row with the
      series' name among the first seven rows of that month. */
  lemma HistoryPointsSound(ms: seq<MonthRows>)
    ensures forall p, pt :: 0 <= p < |HistoryOf(ms)| && pt in HistoryOf(ms)[p].data ==>
              exists i, r :: 0 <= i < |ms| && r in Top(ms[i].rows) && r.name == HistoryOf(ms)[p].id
                          && pt == Point(ms[i].key, Percent(r.score))
  {
    var h := HistoryOf(ms);
    EntriesUpToMembers(ms, |ms|);
    forall p, pt | 0 <= p < |h| && pt in h[p].data
      ensures exists i, r :: 0 <= i < |ms| && r in Top(ms[i].rows) && r.name == h[p].id
                          && pt == Point(ms[i].key, Percent(r.score))
    {
      PointsOfMembers(Entries(ms), h[p].id);
      var e :| e in Entries(ms) && e.row.name == h[p].id && pt == Point(e.month, Percent(e.row.score));
      var i :| 0 <= i < |ms| && e.month == ms[i].key && e.row in Top(ms[i].rows);
    }
  }

  /** The point a month contributes to the series of id: one point for the
      first of its kept rows called id, none if no kept row has that name. */
  function MonthPoint(m: MonthRows, id: string): seq<Point>
  {
    match FirstNamed(Top(m.rows), id)
    case None => []
    case Some(r) => [Point(m.key, Percent(r.score))]
  }

  /** The series of id month by month, in month order. */
  function TopPoints(ms: seq<MonthRows>, id: string): seq<Point>
  {
    if ms == [] then []
    else TopPoints(ms[..|ms| - 1], id) + MonthPoint(ms[|ms| - 1], id)
  }

  lemma {:induction false} PointsOfAppend(a: seq<Entry>, b: seq<Entry>, id: string)
    ensures PointsOf(a + b, id) == PointsOf(a, id) + PointsOf(b, id)
  {
    if b != [] {
      var t := b[..|b| - 1];
      assert a + b == (a + t) + [b[|b| - 1]];
      assert b == t + [b[|b| - 1]];
      PointsOfSnoc(a + t, b[|b| - 1], id);
      PointsOfSnoc(t, b[|b| - 1], id);
      PointsOfAppend(a, t, id);
    } else {
      assert a + b == a;
    }
  }

  lemma {:induction false} PointsOfTagged(key: string, rows: seq<Row>, id: string)
    requires UniqueNames(rows)
    ensures PointsOf(Tagged(key, rows), id)
         == match FirstNamed(rows, id)
            case None => []
            case Some(r) => [Point(key, Percent(r.score))]
  {
    if rows != [] {
      var t := rows[..|rows| - 1];
      var x := rows[|rows| - 1];
      assert rows == t + [x];
      PointsOfTagged(key, t, id);
      NameIndexSnoc(t, x, id);
      PointsOfSnoc(Tagged(key, t), Entry(key, x), id);
    }
  }

  lemma MonthPointsOf(m: MonthRows, id: string)
    requires UniqueNames(Top(m.rows))
    ensures PointsOf(MonthEntries(m), id) == MonthPoint(m, id)
  {
    PointsOfTagged(m.key, Top(m.rows), id);
  }

  lemma TopPointsPrefix(ms: seq<MonthRows>, n: nat, id: string)
    requires 0 < n <= |ms|
    ensures TopPoints(ms[..n], id) == TopPoints(ms[..n - 1], id) + MonthPoint(ms[n - 1], id)
  {
    assert ms[..n][..n - 1] == ms[..n - 1];
  }

  /** With no name twice in a month's kept rows, the series of id holds one
      point per month whose first seven rows include id, in month order. */
  lemma {:induction false} PointsOfEntries(ms: seq<MonthRows>, n: nat, id: string)
    requires n <= |ms|
    requires forall i :: 0 <= i < |ms| ==> UniqueNames(Top(ms[i].rows))
    ensures PointsOf(EntriesUpTo(ms, n), id) == TopPoints(ms[..n], id)
  {
    if n > 0 {
      PointsOfEntries(ms, n - 1, id);
      PointsOfAppend(EntriesUpTo(ms, n - 1), MonthEntries(ms[n - 1]), id);
      MonthPointsOf(ms[n - 1], id);
      TopPointsPrefix(ms, n, id);
    }
  }

  lemma HistoryData(ms: seq<MonthRows>)
    requires forall i :: 0 <= i < |ms| ==> UniqueNames(Top(ms[i].rows))
    ensures forall p :: 0 <= p < |HistoryOf(ms)| ==> HistoryOf(ms)[p].data == TopPoints(ms, HistoryOf(ms)[p].id)
  {
    forall p | 0 <= p < |HistoryOf(ms)| ensures HistoryOf(ms)[p].data == TopPoints(ms, HistoryOf(ms)[p].id) {
      PointsOfEntries(ms, |ms|, HistoryOf(ms)[p].id);
      assert ms[..|ms|] == ms;
    }
  }

  /** Names unique in a fetched month stay unique in its first seven rows
      once the month is sorted. */
  lemma UniqueTopSorted(rows: seq<Row>)
    requires UniqueNames(rows)
    ensures UniqueNames(Top(SortDesc(rows, Score)))
  {
    var s := SortDesc(rows, Score);
    SortDescUnique(rows, Score);
    var t := Top(s);
    forall i, j | 0 <= i < j < |t| ensures t[i].name != t[j].name {
      assert t[i] == s[i] && t[j] == s[j];
    }
  }

  /** HistoryData for the result of getTop7History, needing only that no name
      repeats within a fetched month. */
  lemma HistoryDataFetched(ms: seq<MonthRows>)
    requires forall i :: 0 <= i < |ms| ==> UniqueNames(ms[i].rows)
    ensures forall p :: 0 <= p < |HistoryOf(SortMonths(ms, Score))| ==>
              HistoryOf(SortMonths(ms, Score))[p].data == TopPoints(SortMonths(ms, Score), HistoryOf(SortMonths(ms, Score))[p].id)
  {
    var sorted := SortMonths(ms, Score);
    forall i | 0 <= i < |sorted| ensures UniqueNames(Top(sorted[i].rows)) {
      UniqueTopSorted(ms[i].rows);
    }
    HistoryData(sorted);
  }

  // ---------------------------------------------------------------------------
  // How many points the chart holds

  function Min(a: nat, b: nat): nat
  {
    if a <= b then a else b
  }

  /** How many rows the months keep: min(7, |rows|) each. */
  function KeptCount(ms: seq<MonthRows>): nat
  {
    if ms == [] then 0
    else KeptCount(ms[..|ms| - 1]) + Min(TopCount, |ms[|ms| - 1].rows|)
  }

  /** The number of points over all series. */
  function PointCount(h: seq<Series>): nat
  {
    if h == [] then 0
    else PointCount(h[..|h| - 1]) + |h[|h| - 1].data|
  }

  lemma {:induction false} EntriesCount(ms: seq<MonthRows>, n: nat)
    requires n <= |ms|
    ensures |EntriesUpTo(ms, n)| == KeptCount(ms[..n])
  {
    if n > 0 {
      EntriesCount(ms, n - 1);
      var m := ms[n - 1];
      TaggedMembers(m.key, Top(m.rows));
      assert ms[..n][..n - 1] == ms[..n - 1];
      assert KeptCount(ms[..n]) == KeptCount(ms[..n - 1]) + Min(TopCount, |m.rows|);
    }
  }

  /** One more id adds its series at the end; named for its callers, Dafny
      proves it directly. */
  lemma SeriesOfSnoc(es: seq<Entry>, d: seq<string>, n: string)
    ensures SeriesOf(es, d + [n]) == SeriesOf(es, d) + [Series(n, PointsOf(es, n))]
  {
  }

  /** Adding one entry adds one point to the series when its name has one. */
  lemma {:induction false} PointCountStep(es: seq<Entry>, e: Entry, d: seq<string>)
    requires Distinct(d)
    ensures PointCount(SeriesOf(es + [e], d))
         == PointCount(SeriesOf(es, d)) + (if e.row.name in d then 1 else 0)
  {
    if d != [] {
      var t := d[..|d| - 1];
      var n := d[|d| - 1];
      assert d == t + [n];
      PointCountStep(es, e, t);
      SeriesOfSnoc(es + [e], t, n);
      SeriesOfSnoc(es, t, n);
      assert SeriesOf(es + [e], d)[..|t|] == SeriesOf(es + [e], t);
      assert SeriesOf(es, d)[..|t|] == SeriesOf(es, t);
      PointsOfSnoc(es, e, n);
      assert n !in t;
    }
  }

  /** Every entry is a point of exactly one series. */
  lemma {:induction false} PointsPartition(es: seq<Entry>)
    ensures PointCount(SeriesOf(es, FirstAppearances(Names(es)))) == |es|
  {
    if es != [] {
      var t := es[..|es| - 1];
      var e := es[|es| - 1];
      assert es == t + [e];
      var d := FirstAppearances(Names(t));
      PointsPartition(t);
      NamesSnoc(t, e);
      FirstAppearancesSnoc(Names(t), e.row.name);
      FirstAppearancesDistinct(Names(t));
      PointCountStep(t, e, d);
      var n := e.row.name;
      if n !in d {
        FirstAppearancesMembers(Names(t));
        PointsOfAbsent(t, n);
        PointsOfSnoc(t, e, n);
        SeriesOfSnoc(es, d, n);
        assert SeriesOf(es, d + [n])[..|d|] == SeriesOf(es, d);
      }
    }
  }

  /** The chart holds one point per kept row: min(7, |rows|) per month. */
  lemma HistoryCount(ms: seq<MonthRows>)
    ensures PointCount(HistoryOf(ms)) == KeptCount(ms)
  {
    PointsPartition(Entries(ms));
    EntriesCount(ms, |ms|);
    assert ms[..|ms|] == ms;
  }

  // ---------------------------------------------------------------------------
  // The months after the sort

  /** Sorting every month keeps its key and its rows, and orders the rows by
      non-increasing fraction. */
  lemma SortMonthsSorted(ms: seq<MonthRows>)
    ensures |SortMonths(ms, Score)| == |ms|
    ensures forall i :: 0 <= i < |ms| ==>
              && SortMonths(ms, Score)[i].key == ms[i].key
              && SortedDesc(SortMonths(ms, Score)[i].rows, Score)
              && multiset(SortMonths(ms, Score)[i].rows) == multiset(ms[i].rows)
  {
    forall i | 0 <= i < |ms|
      ensures SortedDesc(SortMonths(ms, Score)[i].rows, Score)
      ensures multiset(SortMonths(ms, Score)[i].rows) == multiset(ms[i].rows)
    {
      SortDescSorted(ms[i].rows, Score);
      SortDescPermutation(ms[i].rows, Score);
    }
  }

  /** The rows kept from a sorted month are min(7, |rows|) of its rows, and
      none of the rows left out has a higher fraction than a kept one. */
  lemma TopIsHighest(rows: seq<Row>)
    ensures |Top(SortDesc(rows, Score))| == Min(TopCount, |rows|)
    ensures multiset(Top(SortDesc(rows, Score))) <= multiset(rows)
    ensures forall i, j :: 0 <= i < |Top(SortDesc(rows, Score))| <= j < |rows| ==>
              SortDesc(rows, Score)[i].score >= SortDesc(rows, Score)[j].score
  {
    var s := SortDesc(rows, Score);
    SortDescSorted(rows, Score);
    SortDescPermutation(rows, Score);
    if |s| > TopCount {
      assert s == s[..TopCount] + s[TopCount..];
      assert multiset(s) == multiset(s[..TopCount]) + multiset(s[TopCount..]);
    }
  }

  /** The effect that sorts the selected month by count changes the next
      chart: sorting by fraction is stable, so rows with equal fractions stay
      in count order. One month with two tied rows shows it: the chart lists
      the series A, B before the effect and B, A after it. */
  lemma ResortReordersChart()
    ensures var ms := [Keyed("m", [Row("A", 1, 5), Row("B", 2, 5)])];
            && Ids(HistoryOf(SortMonths(ms, Score))) == ["A", "B"]
            && Ids(HistoryOf(SortMonths(SortMonths(ms, Count), Score))) == ["B", "A"]
  {
    var a, b := Row("A", 1, 5), Row("B", 2, 5);
    var ms := [Keyed("m", [a, b])];
    assert SortDesc([a], Score) == [a] && SortDesc([b], Score) == [b] && SortDesc([a], Count) == [a];
    assert SortDesc([a, b], Score) == [a, b] by {
      assert [a, b][..1] == [a];
    }
    assert SortDesc([a, b], Count) == [b, a] by {
      assert [a, b][..1] == [a];
    }
    assert SortDesc([b, a], Score) == [b, a] by {
      assert [b, a][..1] == [b];
    }
    ChartOfPair("m", a, b);
    ChartOfPair("m", b, a);
    assert SortMonths(ms, Score) == [Keyed("m", [a, b])];
    assert SortMonths(ms, Count) == [Keyed("m", [b, a])];
    assert SortMonths(SortMonths(ms, Count), Score) == [Keyed("m", [b, a])];
  }

  /** A single month of two differently named rows charts them in row order. */
  lemma ChartOfPair(key: string, x: Row, y: Row)
    requires x.name != y.name
    ensures Ids(HistoryOf([Keyed(key, [x, y])])) == [x.name, y.name]
  {
    var ms := [Keyed(key, [x, y])];
    assert Top([x, y]) == [x, y];
    assert [x, y][..1] == [x];
    assert Tagged(key, [x]) == [Entry(key, x)];
    assert Tagged(key, [x, y]) == [Entry(key, x), Entry(key, y)];
    assert EntriesUpTo(ms, 1) == [Entry(key, x), Entry(key, y)];
    var es := Entries(ms);
    assert es[..1] == [Entry(key, x)];
    assert Names(es[..1]) == [x.name];
    assert Names(es) == [x.name, y.name];
    assert [x.name, y.name][..1] == [x.name];
    assert FirstAppearances([x.name]) == [x.name];
    assert FirstAppearances(Names(es)) == [x.name, y.name];
  }
}

