/**
 * Attendance rows and the descending sort the leaderboard applies to them.
 *
 * The component sorts with `Array.prototype.sort` and a comparator `b[k] - a[k]`,
 * i.e. in non-increasing order of column k. ECMAScript requires that sort to be
 * stable, so its result is determined by its input; SortDesc is that result,
 * built by inserting each row after every row whose key is not smaller.
 */
module Rows {
  import opened Wrappers

  /** One row of the fetched table: `[name, count, score]`. The score is the
      attendance fraction (or the total percentage) as a fixed-point integer. */
  datatype Row = Row(name: string, count: int, score: int)

  /** The column a comparator reads: index 1 (count) or index 2 (score). */
  datatype Column = Count | Score

  function Key(r: Row, c: Column): int
  {
    match c
    case Count => r.count
    case Score => r.score
  }

  /** The index of the first row called name, where `find(row => row[0] === name)`
      stops; None when no row has that name. */
  function NameIndex(rows: seq<Row>, name: string): (r: Option<nat>)
    ensures r.Some? ==> r.value < |rows| && rows[r.value].name == name
    ensures r.Some? ==> forall j :: 0 <= j < r.value ==> rows[j].name != name
    ensures r.None? ==> forall j :: 0 <= j < |rows| ==> rows[j].name != name
  {
    if rows == [] then None
    else if rows[0].name == name then Some(0)
    else match NameIndex(rows[1..], name)
      case None => None
      case Some(i) => Some(i + 1)
  }

  /** `rows.find(row => row[0] === name)`. */
  function FirstNamed(rows: seq<Row>, name: string): (r: Option<Row>)
    ensures r.Some? ==> exists i :: 0 <= i < |rows| && rows[i] == r.value && r.value.name == name
                                 && forall j :: 0 <= j < i ==> rows[j].name != name
    ensures r.None? <==> forall row :: row in rows ==> row.name != name
  {
    match NameIndex(rows, name)
    case None => None
    case Some(i) => Some(rows[i])
  }

  /** No two rows share a name. */
  predicate UniqueNames(rows: seq<Row>)
  {
    forall i, j :: 0 <= i < j < |rows| ==> rows[i].name != rows[j].name
  }

  /** Appending a row leaves an earlier match in place. */
  lemma {:induction false} NameIndexSnoc(rows: seq<Row>, x: Row, name: string)
    ensures NameIndex(rows + [x], name)
         == if NameIndex(rows, name).Some? then NameIndex(rows, name)
            else if x.name == name then Some(|rows|) else None
  {
    if rows != [] {
      assert (rows + [x])[1..] == rows[1..] + [x];
      NameIndexSnoc(rows[1..], x, name);
    }
  }

  /** Non-increasing in column c. */
  predicate SortedDesc(s: seq<Row>, c: Column)
  {
    forall i, j :: 0 <= i < j < |s| ==> Key(s[i], c) >= Key(s[j], c)
  }

  /** The rows of s whose key in column c is k, in their order in s. */
  function WithKey(s: seq<Row>, c: Column, k: int): seq<Row>
  {
    if s == [] then []
    else (if Key(s[0], c) == k then [s[0]] else []) + WithKey(s[1..], c, k)
  }

  /** Places x after every row of p whose key is at least x's. */
  function InsertDesc(p: seq<Row>, x: Row, c: Column): (r: seq<Row>)
    ensures |r| == |p| + 1
  {
    if p == [] then [x]
    else if Key(p[0], c) < Key(x, c) then [x] + p
    else [p[0]] + InsertDesc(p[1..], x, c)
  }

  /** The stable descending sort of s by column c. */
  function SortDesc(s: seq<Row>, c: Column): (r: seq<Row>)
    ensures |r| == |s|
  {
    if s == [] then []
    else InsertDesc(SortDesc(s[..|s| - 1], c), s[|s| - 1], c)
  }

  lemma {:induction false} InsertDescPermutation(p: seq<Row>, x: Row, c: Column)
    ensures multiset(InsertDesc(p, x, c)) == multiset(p) + multiset{x}
  {
    if p != [] && Key(p[0], c) >= Key(x, c) {
      InsertDescPermutation(p[1..], x, c);
      assert p == [p[0]] + p[1..];
    }
  }

  lemma {:induction false} InsertDescSorted(p: seq<Row>, x: Row, c: Column)
    requires SortedDesc(p, c)
    ensures SortedDesc(InsertDesc(p, x, c), c)
    ensures InsertDesc(p, x, c)[0] == if p == [] || Key(p[0], c) < Key(x, c) then x else p[0]
  {
    if p != [] && Key(p[0], c) >= Key(x, c) {
      var q := p[1..];
      assert SortedDesc(q, c);
      InsertDescSorted(q, x, c);
      var t := InsertDesc(q, x, c);
      assert Key(p[0], c) >= Key(t[0], c);
      var r := [p[0]] + t;
      forall i, j | 0 <= i < j < |r| ensures Key(r[i], c) >= Key(r[j], c) {
        if i == 0 {
          assert Key(t[0], c) >= Key(t[j - 1], c) || j == 1;
        } else {
          assert r[i] == t[i - 1] && r[j] == t[j - 1];
        }
      }
    }
  }

  /** The sort returns a reordering of its input... */
  lemma {:induction false} SortDescPermutation(s: seq<Row>, c: Column)
    ensures multiset(SortDesc(s, c)) == multiset(s)
  {
    if s != [] {
      var n := |s| - 1;
      SortDescPermutation(s[..n], c);
      InsertDescPermutation(SortDesc(s[..n], c), s[n], c);
      assert s == s[..n] + [s[n]];
    }
  }

  /** ...in non-increasing order of the column. */
  lemma {:induction false} SortDescSorted(s: seq<Row>, c: Column)
    ensures SortedDesc(SortDesc(s, c), c)
  {
    if s != [] {
      var n := |s| - 1;
      SortDescSorted(s[..n], c);
      InsertDescSorted(SortDesc(s[..n], c), s[n], c);
    }
  }

  /** A row whose name is new can go in front of rows with unique names. */
  lemma ConsUnique(h: Row, t: seq<Row>)
    requires UniqueNames(t)
    requires forall r :: r in t ==> r.name != h.name
    ensures UniqueNames([h] + t)
  {
    var r := [h] + t;
    forall i, j | 0 <= i < j < |r| ensures r[i].name != r[j].name {
      assert r[j] == t[j - 1] && r[j] in t;
      if i > 0 {
        assert r[i] == t[i - 1];
      }
    }
  }

  /** Unique names stay unique in the tail, and the head's name is not in it. */
  lemma UniqueTail(s: seq<Row>)
    requires UniqueNames(s) && s != []
    ensures UniqueNames(s[1..])
    ensures forall r :: r in s[1..] ==> r.name != s[0].name
  {
    var t := s[1..];
    forall i, j | 0 <= i < j < |t| ensures t[i].name != t[j].name {
      assert t[i] == s[i + 1] && t[j] == s[j + 1];
    }
    forall r | r in t ensures r.name != s[0].name {
      var m :| 0 <= m < |t| && t[m] == r;
      assert s[m + 1] == r;
    }
  }

  /** Inserting keeps exactly the rows and the inserted one. */
  lemma InsertDescMembers(p: seq<Row>, x: Row, c: Column)
    ensures forall r :: r in InsertDesc(p, x, c) <==> r in p || r == x
  {
    InsertDescPermutation(p, x, c);
    assert forall r :: r in InsertDesc(p, x, c) <==> r in multiset(InsertDesc(p, x, c));
    assert forall r :: r in p <==> r in multiset(p);
  }

  /** Inserting a row whose name is new keeps the names unique. */
  lemma {:induction false} InsertDescUnique(p: seq<Row>, x: Row, c: Column)
    requires UniqueNames(p)
    requires forall r :: r in p ==> r.name != x.name
    ensures UniqueNames(InsertDesc(p, x, c))
  {
    if p != [] && Key(p[0], c) >= Key(x, c) {
      UniqueTail(p);
      assert forall r :: r in p[1..] ==> r in p;
      InsertDescUnique(p[1..], x, c);
      InsertDescMembers(p[1..], x, c);
      ConsUnique(p[0], InsertDesc(p[1..], x, c));
    } else if p != [] {
      ConsUnique(x, p);
    }
  }

  /** The sort keeps exactly the rows it was given. */
  lemma SortDescMembers(s: seq<Row>, c: Column)
    ensures forall r :: r in SortDesc(s, c) <==> r in s
  {
    SortDescPermutation(s, c);
    assert forall r :: r in SortDesc(s, c) <==> r in multiset(SortDesc(s, c));
  }

  /** Unique names stay unique in a prefix, and the last name is not in it. */
  lemma UniqueInit(s: seq<Row>)
    requires UniqueNames(s) && s != []
    ensures UniqueNames(s[..|s| - 1])
    ensures forall r :: r in s[..|s| - 1] ==> r.name != s[|s| - 1].name
  {
    var t := s[..|s| - 1];
    forall i, j | 0 <= i < j < |t| ensures t[i].name != t[j].name {
      assert t[i] == s[i] && t[j] == s[j];
    }
    forall r | r in t ensures r.name != s[|s| - 1].name {
      var m :| 0 <= m < |t| && t[m] == r;
      assert s[m] == r;
    }
  }

  /** Sorting keeps the names unique. */
  lemma {:induction false} SortDescUnique(s: seq<Row>, c: Column)
    requires UniqueNames(s)
    ensures UniqueNames(SortDesc(s, c))
  {
    if s != [] {
      var n := |s| - 1;
      UniqueInit(s);
      SortDescUnique(s[..n], c);
      SortDescMembers(s[..n], c);
      InsertDescUnique(SortDesc(s[..n], c), s[n], c);
    }
  }

  /** Where InsertDesc puts x: at a position j that has only keys not smaller
      than x's before it and only smaller keys after it. */
  lemma {:induction false} InsertDescAt(p: seq<Row>, x: Row, c: Column, j: nat)
    requires j <= |p|
    requires forall k :: 0 <= k < j ==> Key(p[k], c) >= Key(x, c)
    requires forall k :: j <= k < |p| ==> Key(p[k], c) < Key(x, c)
    ensures InsertDesc(p, x, c) == p[..j] + [x] + p[j..]
  {
    if j == 0 {
      assert p[..0] == [] && p[0..] == p;
    } else {
      var q := p[1..];
      assert Key(p[0], c) >= Key(x, c);
      forall k | 0 <= k < j - 1 ensures Key(q[k], c) >= Key(x, c) {
        assert q[k] == p[k + 1];
      }
      forall k | j - 1 <= k < |q| ensures Key(q[k], c) < Key(x, c) {
        assert q[k] == p[k + 1];
      }
      InsertDescAt(q, x, c, j - 1);
      assert p[..j] == [p[0]] + q[..j - 1];
      assert p[j..] == q[j - 1..];
      calc {
        InsertDesc(p, x, c);
        [p[0]] + InsertDesc(q, x, c);
        [p[0]] + (q[..j - 1] + [x] + q[j - 1..]);
        ([p[0]] + q[..j - 1]) + [x] + q[j - 1..];
      }
    }
  }

  /** In a sorted sequence, everything before a row whose key is at least x's
      also has a key at least x's. Named for its callers; Dafny proves it
      directly. */
  lemma SortedBefore(p: seq<Row>, x: Row, c: Column, j: nat)
    requires SortedDesc(p, c)
    requires j <= |p|
    requires j > 0 ==> Key(p[j - 1], c) >= Key(x, c)
    ensures forall k :: 0 <= k < j ==> Key(p[k], c) >= Key(x, c)
  {
  }

  /** Sorting a sorted sequence leaves it as it is: running the same sort
      twice on an array changes nothing the second time. */
  lemma {:induction false} SortDescOfSorted(s: seq<Row>, c: Column)
    requires SortedDesc(s, c)
    ensures SortDesc(s, c) == s
  {
    if s != [] {
      var n := |s| - 1;
      var p := s[..n];
      assert SortedDesc(p, c);
      SortDescOfSorted(p, c);
      assert forall k :: 0 <= k < n ==> Key(p[k], c) >= Key(s[n], c);
      InsertDescAt(p, s[n], c, n);
      assert p[..n] == p && p[n..] == [];
      assert s == p + [s[n]];
    }
  }

  lemma SortDescIdempotent(s: seq<Row>, c: Column)
    ensures SortDesc(SortDesc(s, c), c) == SortDesc(s, c)
  {
    SortDescSorted(s, c);
    SortDescOfSorted(SortDesc(s, c), c);
  }

  lemma {:induction false} WithKeyAppend(a: seq<Row>, b: seq<Row>, c: Column, k: int)
    ensures WithKey(a + b, c, k) == WithKey(a, c, k) + WithKey(b, c, k)
  {
    if a == [] {
      assert a + b == b;
    } else {
      var h := if Key(a[0], c) == k then [a[0]] else [];
      assert (a + b)[0] == a[0] && (a + b)[1..] == a[1..] + b;
      assert WithKey(a + b, c, k) == h + WithKey(a[1..] + b, c, k);
      WithKeyAppend(a[1..], b, c, k);
      assert h + (WithKey(a[1..], c, k) + WithKey(b, c, k)) == (h + WithKey(a[1..], c, k)) + WithKey(b, c, k);
    }
  }

  /** Inserting x keeps the rows of each key in order, with x last among its own. */
  lemma {:induction false} InsertDescWithKey(p: seq<Row>, x: Row, c: Column, k: int)
    requires SortedDesc(p, c)
    ensures WithKey(InsertDesc(p, x, c), c, k) == WithKey(p, c, k) + WithKey([x], c, k)
  {
    if p == [] {
      assert InsertDesc(p, x, c) == [x];
    } else if Key(p[0], c) < Key(x, c) {
      InsertDescFront(p, x, c, k);
    } else {
      var q := p[1..];
      assert SortedDesc(q, c);
      InsertDescWithKey(q, x, c, k);
      var t := InsertDesc(q, x, c);
      assert InsertDesc(p, x, c) == [p[0]] + t;
      assert ([p[0]] + t)[1..] == t;
      var h := if Key(p[0], c) == k then [p[0]] else [];
      calc {
        WithKey(InsertDesc(p, x, c), c, k);
        h + WithKey(t, c, k);
        h + (WithKey(q, c, k) + WithKey([x], c, k));
        (h + WithKey(q, c, k)) + WithKey([x], c, k);
        WithKey(p, c, k) + WithKey([x], c, k);
      }
    }
  }

  lemma InsertDescFront(p: seq<Row>, x: Row, c: Column, k: int)
    requires SortedDesc(p, c)
    requires p != [] && Key(p[0], c) < Key(x, c)
    ensures WithKey(InsertDesc(p, x, c), c, k) == WithKey(p, c, k) + WithKey([x], c, k)
  {
    assert InsertDesc(p, x, c) == [x] + p;
    WithKeyAppend([x], p, c, k);
    if Key(x, c) == k {
      NoneWithKey(p, c, k);
    } else {
      assert WithKey([x], c, k) == [] by {
        assert [x][1..] == [];
      }
    }
  }

  lemma {:induction false} NoneWithKey(p: seq<Row>, c: Column, k: int)
    requires SortedDesc(p, c)
    requires p != [] ==> Key(p[0], c) < k
    ensures WithKey(p, c, k) == []
  {
    if p != [] {
      assert SortedDesc(p[1..], c);
      NoneWithKey(p[1..], c, k);
    }
  }

  /** Stability: among rows with equal keys SortDesc keeps the input order. */
  lemma {:induction false} SortDescStable(s: seq<Row>, c: Column, k: int)
    ensures WithKey(SortDesc(s, c), c, k) == WithKey(s, c, k)
  {
    if s != [] {
      var n := |s| - 1;
      SortDescStable(s[..n], c, k);
      SortDescSorted(s[..n], c);
      InsertDescWithKey(SortDesc(s[..n], c), s[n], c, k);
      WithKeyAppend(s[..n], [s[n]], c, k);
      assert s == s[..n] + [s[n]];
    }
  }

  /** `a.sort((x, y) => y[k] - x[k])`: sorts the array in place, by insertion. */
  method SortInPlace(a: array<Row>, c: Column)
    modifies a
    ensures a[..] == SortDesc(old(a[..]), c)
    ensures SortedDesc(a[..], c)
    ensures multiset(a[..]) == multiset(old(a[..]))
  {
    ghost var s := a[..];
    var i := 0;
    while i < a.Length
      invariant 0 <= i <= a.Length
      invariant a[..i] == SortDesc(s[..i], c)
      invariant a[i..] == s[i..]
    {
      SortDescSorted(s[..i], c);
      ghost var pre := a[..];
      InsertNext(a, i, c);
      InsertionStep(s, pre, a[..], i, c);
      i := i + 1;
    }
    SortedAll(s, a[..], c);
  }

  /** Inserting s[i] into the sorted first i rows sorts the first i + 1. */
  lemma InsertionStep(s: seq<Row>, pre: seq<Row>, post: seq<Row>, i: nat, c: Column)
    requires i < |s| == |pre| == |post|
    requires pre[..i] == SortDesc(s[..i], c) && pre[i..] == s[i..]
    requires post[..i + 1] == InsertDesc(pre[..i], pre[i], c) && post[i + 1..] == pre[i + 1..]
    ensures post[..i + 1] == SortDesc(s[..i + 1], c) && post[i + 1..] == s[i + 1..]
  {
    assert s[..i + 1][..i] == s[..i];
    assert pre[i] == pre[i..][0] == s[i..][0] == s[i];
    assert pre[i + 1..] == pre[i..][1..];
    assert s[i + 1..] == s[i..][1..];
  }

  /** When every row is in the sorted prefix the whole array is sorted. */
  lemma SortedAll(s: seq<Row>, r: seq<Row>, c: Column)
    requires |r| == |s| && r[..|s|] == SortDesc(s[..|s|], c)
    ensures r == SortDesc(s, c) && SortedDesc(r, c) && multiset(r) == multiset(s)
  {
    assert s[..|s|] == s;
    assert r[..|s|] == r;
    SortDescSorted(s, c);
    SortDescPermutation(s, c);
  }

  /** One step of the insertion sort: moves a[i] into the sorted prefix a[..i]. */
  method InsertNext(a: array<Row>, i: nat, c: Column)
    requires i < a.Length
    requires SortedDesc(a[..i], c)
    modifies a
    ensures a[..i + 1] == InsertDesc(old(a[..i]), old(a[i]), c)
    ensures a[i + 1..] == old(a[i + 1..])
  {
    ghost var p := a[..i];
    ghost var x := a[i];
    var j := ShiftIn(a, i, c);
    SortedBefore(p, x, c, j);
    InsertDescAt(p, x, c, j);
    ghost var r := p[..j] + [x] + p[j..];
    assert |r| == i + 1;
    forall k | 0 <= k <= i ensures a[k] == r[k] {
      if k < j {
        assert r[k] == p[k];
      } else if k > j {
        assert r[k] == p[k - 1];
      }
    }
    assert a[..i + 1] == r;
  }

  /** Shifts the rows of a[..i] whose key is below a[i]'s one place right and
      puts a[i] into the gap, at index j. */
  method ShiftIn(a: array<Row>, i: nat, c: Column) returns (j: nat)
    requires i < a.Length
    modifies a
    ensures j <= i
    ensures forall k :: 0 <= k < j ==> a[k] == old(a[k])
    ensures a[j] == old(a[i])
    ensures forall k :: j < k <= i ==> a[k] == old(a[k - 1])
    ensures forall k :: i < k < a.Length ==> a[k] == old(a[k])
    ensures forall k :: j <= k < i ==> Key(old(a[k]), c) < Key(old(a[i]), c)
    ensures j > 0 ==> Key(old(a[j - 1]), c) >= Key(old(a[i]), c)
  {
    var x := a[i];
    j := i;
    while j > 0 && Key(a[j - 1], c) < Key(x, c)
      invariant 0 <= j <= i
      invariant forall k :: 0 <= k < j ==> a[k] == old(a[k])
      invariant forall k :: j < k <= i ==> a[k] == old(a[k - 1])
      invariant forall k :: i < k < a.Length ==> a[k] == old(a[k])
      invariant forall k :: j <= k < i ==> Key(old(a[k]), c) < Key(x, c)
    {
      a[j] := a[j - 1];
      j := j - 1;
    }
    a[j] := x;
  }
}
