/**
 * The `Leaderboard` component: its state (`data`, `selectedMonth`,
 * `viewOption`, `sortedData`, `topLeader`), the load step that stores the
 * fetched data, the effect that recomputes the displayed ranking when the view,
 * the month or the data change, the two select handlers, and one render.
 *
 * React decides when the effect and the renders run; here they are methods a
 * caller invokes in the order React would.
 */
module Leaderboard {
  import opened Wrappers
  import opened Rows
  import opened Months
  import opened History
  import opened Performance

  /** `array.slice(1)`: everything after the header row (nothing for []). */
  function Tail(total: seq<Row>): (r: seq<Row>)
    ensures |r| == if |total| == 0 then 0 else |total| - 1
    ensures forall i :: 0 <= i < |r| ==> r[i] == total[i + 1]
  {
    if |total| == 0 then [] else total[1..]
  }

  /** `data.total.slice(1).sort((a, b) => b[1] - a[1])`: the total ranking,
      the rows after the header in non-increasing order of count. */
  function RankTotal(total: seq<Row>): (r: seq<Row>)
    ensures |r| == if |total| == 0 then 0 else |total| - 1
    ensures SortedDesc(r, Count)
    ensures multiset(r) == multiset(Tail(total))
  {
    SortDescSorted(Tail(total), Count);
    SortDescPermutation(Tail(total), Count);
    SortDesc(Tail(total), Count)
  }

  /** Rows with equal counts keep their order in the fetched table. */
  lemma RankTotalStable(total: seq<Row>, k: int)
    ensures WithKey(RankTotal(total), Count, k) == WithKey(Tail(total), Count, k)
  {
    SortDescStable(Tail(total), Count, k);
  }

  /** The first ranked row is a row of the table with the highest count. */
  lemma RankTotalLeader(total: seq<Row>)
    requires |total| > 1
    ensures RankTotal(total)[0] in total[1..]
    ensures forall r :: r in total[1..] ==> r.count <= RankTotal(total)[0].count
  {
    var s := RankTotal(total);
    assert s[0] in multiset(s);
    forall r | r in total[1..] ensures r.count <= s[0].count {
      assert r in multiset(s);
      var j :| 0 <= j < |s| && s[j] == r;
      if j > 0 {
        assert Key(s[0], Count) >= Key(s[j], Count);
      }
    }
  }

  /** The ranking as a new array: the copy `slice` makes, sorted in place. */
  method RankTotalArray(total: seq<Row>) returns (a: array<Row>)
    ensures fresh(a)
    ensures a[..] == RankTotal(total)
  {
    var tail := Tail(total);
    a := new Row[|tail|](i requires 0 <= i < |tail| => tail[i]);
    assert a[..] == tail;
    SortInPlace(a, Count);
  }

  /** The key `data.monthly[selectedMonth]` looks up: a property access with
      `undefined` reads the property named "undefined". */
  function PropertyKey(selected: Option<string>): (k: string)
    ensures selected == Some(k) || (selected == None && k == "undefined")
  {
    match selected
    case None => "undefined"
    case Some(k) => k
  }

  /** One row of the ranking table: position, name, count and percentage. The
      total table shows the stored percentage, the monthly one the fraction
      times 100. */
  datatype Line = Line(rank: nat, name: string, count: int, percent: int)

  /** `sortedData.map((row, index) => ...)` */
  function TableOf(rows: seq<Row>, view: string): (t: seq<Line>)
    ensures |t| == |rows|
    ensures forall i :: 0 <= i < |t| ==>
              t[i].rank == i + 1 && t[i].name == rows[i].name && t[i].count == rows[i].count
    ensures forall i :: 0 <= i < |t| ==>
              t[i].percent == if view == "total" then rows[i].score else Percent(rows[i].score)
  {
    seq(|rows|, i requires 0 <= i < |rows| =>
      Line(i + 1, rows[i].name, rows[i].count,
           if view == "total" then rows[i].score else Percent(rows[i].score)))
  }

  /** What one render returns. */
  datatype View =
    | Loading
    | Page(table: seq<Line>, history: seq<Series>, leader: string, bars: seq<Bar>)

  class Component {
    /** `data.total`, header row included. */
    var total: seq<Row>
    /** `data.monthly`, in key order. */
    var monthly: seq<Month>
    /** `selectedMonth`; None is `undefined`. */
    var selectedMonth: Option<string>
    var viewOption: string
    /** `sortedData`: a ranking array of its own, or one of the month arrays. */
    var sortedData: array<Row>
    var topLeader: string

    /** The month keys are distinct and every month owns its array, as in an
        object decoded from JSON. */
    predicate Valid()
      reads this
    {
      Distinct(Keys(monthly)) && DistinctArrays(monthly)
    }

    /** `useState` initial values. */
    constructor ()
      ensures Valid()
      ensures total == [] && monthly == []
      ensures selectedMonth == Some("") && viewOption == "total" && topLeader == ""
      ensures sortedData.Length == 0
    {
      total := [];
      monthly := [];
      selectedMonth := Some("");
      viewOption := "total";
      sortedData := new Row[0];
      topLeader := "";
    }

    /** The `.then` callback that receives the fetched data: stores it, ranks the
        total table, selects the first month and, when the ranking is not
        empty, makes its first name the top leader. */
    method Load(t: seq<Row>, m: seq<Month>)
      requires Distinct(Keys(m)) && DistinctArrays(m)
      modifies this
      ensures Valid()
      ensures total == t && monthly == m
      ensures fresh(sortedData) && sortedData[..] == RankTotal(t)
      ensures selectedMonth == if |m| == 0 then None else Some(m[0].key)
      ensures topLeader == if |RankTotal(t)| > 0 then RankTotal(t)[0].name else old(topLeader)
      ensures viewOption == old(viewOption)
    {
      total, monthly := t, m;
      var sorted := RankTotalArray(t);
      sortedData := sorted;
      selectedMonth := if |m| == 0 then None else Some(m[0].key);
      if sorted.Length > 0 {
        topLeader := sorted[0].name;
      }
    }

    /** `handleViewOptionChange` */
    method SetView(v: string)
      modifies this
      ensures viewOption == v
      ensures total == old(total) && monthly == old(monthly) && selectedMonth == old(selectedMonth)
      ensures sortedData == old(sortedData) && topLeader == old(topLeader)
    {
      viewOption := v;
    }

    /** `handleMonthChange` */
    method SetMonth(k: string)
      modifies this
      ensures selectedMonth == Some(k)
      ensures total == old(total) && monthly == old(monthly) && viewOption == old(viewOption)
      ensures sortedData == old(sortedData) && topLeader == old(topLeader)
    {
      selectedMonth := Some(k);
    }

    /** The effect on `[viewOption, selectedMonth, data]`. In the total view the
        table becomes a new total ranking. Otherwise the selected month's own
        array is sorted in place by count and becomes the table; when no month
        has the selected key the table is left as it was. */
    method ApplyView()
      requires Valid()
      modifies this, Arrays(monthly)
      ensures Valid()
      ensures total == old(total) && monthly == old(monthly) && selectedMonth == old(selectedMonth)
      ensures viewOption == old(viewOption) && topLeader == old(topLeader)
      ensures viewOption == "total" ==>
                && fresh(sortedData) && sortedData[..] == RankTotal(total)
                && Snapshot(monthly) == old(Snapshot(monthly))
      ensures viewOption != "total" && IndexOf(Keys(monthly), PropertyKey(selectedMonth)).None? ==>
                && sortedData == old(sortedData)
                && Snapshot(monthly) == old(Snapshot(monthly))
      ensures viewOption != "total" && IndexOf(Keys(monthly), PropertyKey(selectedMonth)).Some? ==>
                var i := IndexOf(Keys(monthly), PropertyKey(selectedMonth)).value;
                && sortedData == monthly[i].rows
                && SortedDesc(sortedData[..], Count)
                && multiset(sortedData[..]) == multiset(old(monthly[i].rows[..]))
                && Snapshot(monthly)
                   == old(Snapshot(monthly))[i := Keyed(monthly[i].key, SortDesc(old(monthly[i].rows[..]), Count))]
    {
      if viewOption == "total" {
        sortedData := RankTotalArray(total);
      } else {
        var found := IndexOf(Keys(monthly), PropertyKey(selectedMonth));
        if found.Some? {
          var i := found.value;
          SortMonth(monthly, i, Count);
          sortedData := monthly[i].rows;
        }
      }
    }

    /** One render: Loading until both tables have arrived; otherwise the chart
        data (which sorts every month's array in place by fraction), the leader's
        bars, and the table read from `sortedData` after that sort. */
    method Render() returns (v: View)
      requires Valid()
      modifies Arrays(monthly)
      ensures |total| == 0 || |monthly| == 0 ==> v == Loading && Snapshot(monthly) == old(Snapshot(monthly))
      ensures |total| > 0 && |monthly| > 0 ==>
                && Snapshot(monthly) == SortMonths(old(Snapshot(monthly)), Score)
                && v == Page(TableOf(sortedData[..], viewOption), HistoryOf(Snapshot(monthly)), topLeader,
                             LeaderPerformance(total, Snapshot(monthly), topLeader))
      ensures |total| > 0 ==> forall i :: 0 <= i < |monthly| && sortedData == monthly[i].rows ==>
                sortedData[..] == SortDesc(old(monthly[i].rows[..]), Score)
    {
      if |total| == 0 || |monthly| == 0 {
        return Loading;
      }
      var history := Top7History(monthly);
      var bars := TopLeaderPerformance(total, monthly, topLeader);
      v := Page(TableOf(sortedData[..], viewOption), history, topLeader, bars);
      forall i | 0 <= i < |monthly| && sortedData == monthly[i].rows
        ensures sortedData[..] == SortDesc(old(monthly[i].rows[..]), Score)
      {
        assert Snapshot(monthly)[i].rows == sortedData[..];
        assert old(Snapshot(monthly))[i].rows == old(monthly[i].rows[..]);
      }
    }
  }
}
