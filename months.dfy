/**
 * `data.monthly`: an insertion-ordered dictionary from month keys to row arrays.
 * The model keeps it as a sequence of entries in key order; each entry holds the
 * array object itself, because the component sorts these arrays in place and
 * may keep a reference to one of them as the table it displays.
 */
module Months {
  import opened Wrappers
  import opened Rows

  /** One key of `data.monthly` with what is stored under it. */
  datatype Keyed<R> = Keyed(key: string, rows: R)

  /** A month as the dictionary holds it: the key and the array object. */
  type Month = Keyed<array<Row>>

  /** The contents of one month at some moment. */
  type MonthRows = Keyed<seq<Row>>

  predicate Distinct(s: seq<string>)
  {
    forall i, j :: 0 <= i < j < |s| ==> s[i] != s[j]
  }

  /** `Object.keys(data.monthly)`. */
  function Keys<R>(ms: seq<Keyed<R>>): (r: seq<string>)
    ensures |r| == |ms| && forall i :: 0 <= i < |ms| ==> r[i] == ms[i].key
  {
    seq(|ms|, i requires 0 <= i < |ms| => ms[i].key)
  }

  /** Dropping the last entry of distinct keys leaves distinct keys without
      the last one. */
  lemma DistinctKeysInit<R>(ms: seq<Keyed<R>>)
    requires ms != [] && Distinct(Keys(ms))
    ensures Keys(ms) == Keys(ms[..|ms| - 1]) + [ms[|ms| - 1].key]
    ensures Distinct(Keys(ms[..|ms| - 1])) && ms[|ms| - 1].key !in Keys(ms[..|ms| - 1])
  {
    var t, keys := ms[..|ms| - 1], Keys(ms);
    assert keys == Keys(t) + [ms[|ms| - 1].key];
    assert forall j :: 0 <= j < |t| ==> Keys(t)[j] == keys[j] != keys[|t|];
  }

  /** The arrays of all months: what sorting every month may modify. */
  function Arrays(ms: seq<Month>): set<array<Row>>
  {
    set i | 0 <= i < |ms| :: ms[i].rows
  }

  /** Each month owns its array, as it does in an object decoded from JSON. */
  predicate DistinctArrays(ms: seq<Month>)
  {
    forall i, j :: 0 <= i < j < |ms| ==> ms[i].rows != ms[j].rows
  }

  /** The dictionary as a value: every key with the rows its array holds now. */
  function Snapshot(ms: seq<Month>): seq<MonthRows>
    reads Arrays(ms)
  {
    seq(|ms|, i requires 0 <= i < |ms| reads Arrays(ms) => Keyed(ms[i].key, ms[i].rows[..]))
  }

  /** The first position of k in keys, None when k does not occur. */
  function IndexOf(keys: seq<string>, k: string): (r: Option<nat>)
    ensures r.Some? ==> r.value < |keys| && keys[r.value] == k
    ensures r.Some? ==> forall j :: 0 <= j < r.value ==> keys[j] != k
    ensures r.None? <==> k !in keys
  {
    if keys == [] then None
    else if keys[0] == k then Some(0)
    else match IndexOf(keys[1..], k)
      case None => None
      case Some(i) => Some(i + 1)
  }

  /** Appending a key leaves the position of an existing key in place. */
  lemma {:induction false} IndexOfSnoc(keys: seq<string>, n: string, k: string)
    ensures IndexOf(keys + [n], k)
         == if k in keys then IndexOf(keys, k) else if k == n then Some(|keys|) else None
  {
    if keys != [] {
      assert (keys + [n])[1..] == keys[1..] + [n];
      IndexOfSnoc(keys[1..], n, k);
    }
  }

  /** `monthlyData[month].sort(...)` by column c: sorts month i's own array in
      place; every other month keeps its rows, since each owns its array. */
  method SortMonth(months: seq<Month>, i: nat, c: Column)
    requires i < |months| && DistinctArrays(months)
    modifies months[i].rows
    ensures Snapshot(months) == old(Snapshot(months))[i := Keyed(months[i].key, SortDesc(old(months[i].rows[..]), c))]
    ensures SortedDesc(months[i].rows[..], c)
    ensures multiset(months[i].rows[..]) == multiset(old(months[i].rows[..]))
  {
    ghost var before := Snapshot(months);
    var monthData := months[i].rows;
    SortInPlace(monthData, c);
    forall k | 0 <= k < |months| && k != i ensures months[k].rows[..] == old(months[k].rows[..]) {
      assert months[k].rows != monthData;
    }
    assert Snapshot(months) == before[i := Keyed(months[i].key, SortDesc(old(monthData[..]), c))];
  }
}
