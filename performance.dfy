/**
 * `getTopLeaderPerformance`: for every month, in key order, the first row named
 * after the top leader gives one bar (month, fraction * 100); months without
 * such a row give none. Nothing is produced before the data has arrived or
 * while there is no leader.
 */
module Performance {
  import opened Wrappers
  import opened Rows
  import opened Months
  import opened History

  /** `{ name: month, count: (fraction * 100).toFixed(2) }`, the count kept as
      the unformatted percentage. */
  datatype Bar = Bar(name: string, count: int)

  /** The bar one month contributes for leader. */
  function MonthBar(m: MonthRows, leader: string): seq<Bar>
  {
    match FirstNamed(m.rows, leader)
    case None => []
    case Some(r) => [Bar(m.key, Percent(r.score))]
  }

  /** The bars of all months, in month order. */
  function LeaderBars(ms: seq<MonthRows>, leader: string): seq<Bar>
  {
    if ms == [] then []
    else LeaderBars(ms[..|ms| - 1], leader) + MonthBar(ms[|ms| - 1], leader)
  }

  /** `getTopLeaderPerformance(totalData, monthlyData, topLeader)` on the
      current contents of the months; total still holds its header row. */
  function LeaderPerformance(total: seq<Row>, ms: seq<MonthRows>, leader: string): (r: seq<Bar>)
    ensures |total| == 0 || leader == "" ==> r == []
    ensures |r| <= |ms|
  {
    LeaderBarsLength(ms, leader);
    if |total| == 0 || leader == "" then [] else LeaderBars(ms, leader)
  }

  /** `data.find(row => row[0] === topLeader)` on the month's array. */
  method FindByName(a: array<Row>, name: string) returns (r: Option<Row>)
    ensures r == FirstNamed(a[..], name)
  {
    var k := 0;
    while k < a.Length
      invariant 0 <= k <= a.Length
      invariant forall j :: 0 <= j < k ==> a[j].name != name
    {
      if a[k].name == name {
        assert a[..][k] == a[k];
        return Some(a[k]);
      }
      k := k + 1;
    }
    assert forall j :: 0 <= j < a.Length ==> a[..][j].name != name;
    return None;
  }

  /** The loop of `getTopLeaderPerformance` over `Object.entries(monthlyData)`. */
  method TopLeaderPerformance(total: seq<Row>, months: seq<Month>, leader: string)
    returns (bars: seq<Bar>)
    ensures bars == LeaderPerformance(total, Snapshot(months), leader)
  {
    if |total| == 0 || leader == "" {
      return [];
    }
    ghost var ms := Snapshot(months);
    bars := [];
    var i := 0;
    while i < |months|
      invariant 0 <= i <= |months|
      invariant bars == LeaderBars(ms[..i], leader)
    {
      var found := FindByName(months[i].rows, leader);
      assert ms[i] == Keyed(months[i].key, months[i].rows[..]);
      assert ms[..i + 1][..i] == ms[..i];
      if found.Some? {
        bars := bars + [Bar(months[i].key, Percent(found.value.score))];
      }
      i := i + 1;
    }
    assert |ms| == |months|;
    assert ms[..|months|] == ms;
    assert Snapshot(months) == ms;
  }

  /** At most one bar per month. */
  lemma {:induction false} LeaderBarsLength(ms: seq<MonthRows>, leader: string)
    ensures |LeaderBars(ms, leader)| <= |ms|
  {
    if ms != [] {
      LeaderBarsLength(ms[..|ms| - 1], leader);
    }
  }

  /** A bar exactly for each month that has a row named leader, showing the
      first such row's fraction. */
  lemma {:induction false} LeaderBarsMembers(ms: seq<MonthRows>, leader: string)
    ensures forall b :: b in LeaderBars(ms, leader) ==>
              exists i :: 0 <= i < |ms| && b.name == ms[i].key && FirstNamed(ms[i].rows, leader).Some?
                       && b.count == Percent(FirstNamed(ms[i].rows, leader).value.score)
    ensures forall i :: 0 <= i < |ms| && FirstNamed(ms[i].rows, leader).Some? ==>
              Bar(ms[i].key, Percent(FirstNamed(ms[i].rows, leader).value.score)) in LeaderBars(ms, leader)
  {
    if ms != [] {
      var t := ms[..|ms| - 1];
      LeaderBarsMembers(t, leader);
      forall i | 0 <= i < |t| ensures t[i] == ms[i] { }
    }
  }

  /** Every bar is named after one of the months. */
  lemma LeaderBarsKeys(ms: seq<MonthRows>, leader: string)
    ensures forall p :: 0 <= p < |LeaderBars(ms, leader)| ==> LeaderBars(ms, leader)[p].name in Keys(ms)
  {
    LeaderBarsMembers(ms, leader);
    forall p | 0 <= p < |LeaderBars(ms, leader)| ensures LeaderBars(ms, leader)[p].name in Keys(ms) {
      var b := LeaderBars(ms, leader)[p];
      var i :| 0 <= i < |ms| && b.name == ms[i].key && FirstNamed(ms[i].rows, leader).Some?
               && b.count == Percent(FirstNamed(ms[i].rows, leader).value.score);
      assert Keys(ms)[i] == b.name;
    }
  }

  /** With distinct month keys, the bars follow the month order. */
  lemma {:induction false} LeaderBarsOrder(ms: seq<MonthRows>, leader: string)
    requires Distinct(Keys(ms))
    ensures forall p, q :: 0 <= p < q < |LeaderBars(ms, leader)| ==>
              FirstBefore(Keys(ms), LeaderBars(ms, leader)[p].name, LeaderBars(ms, leader)[q].name)
  {
    if ms != [] {
      var t := ms[..|ms| - 1];
      var m := ms[|ms| - 1];
      var keys := Keys(ms);
      DistinctKeysInit(ms);
      var b := LeaderBars(t, leader);
      var b' := LeaderBars(ms, leader);
      LeaderBarsOrder(t, leader);
      LeaderBarsKeys(t, leader);
      forall p, q | 0 <= p < q < |b'| ensures FirstBefore(keys, b'[p].name, b'[q].name) {
        assert b'[p] == b[p];
        if q < |b| {
          assert b'[q] == b[q];
          FirstBeforeSnoc(Keys(t), m.key, b[p].name, b[q].name);
        } else {
          assert b'[q].name == m.key;
          FirstBeforeLast(Keys(t), m.key, b[p].name);
        }
      }
    }
  }
}
