/** The d3 helpers the transform calls, as specification functions:
    `d3.groups` and `d3.rollup` (grouping in first-seen key order),
    `d3.extent`, `d3.quantile` and `d3.bin` with explicit thresholds.
    Grouping and binning are written as the single pass over the rows that
    d3 performs, and lemmas relate each pass to what it computes. */
module D3 {
  import opened JsValues
  import opened Seqs
  import Sorting

  /** The key functions the transform hands to d3: a column of the row, or
      whether the row's prediction equals its label (strict equality). */
  datatype Selector = Field(column: string) | Outcome

  function KeyOf(r: Row, sel: Selector): Value
  {
    match sel
    case Field(c) => Get(r, c)
    case Outcome => if Get(r, "prediction") == Get(r, "label") then Str("correct") else Str("incorrect")
  }

  /** The key of every row, in row order. */
  function Keys(rows: seq<Row>, sel: Selector): (ks: seq<Value>)
    ensures |ks| == |rows|
    ensures forall i :: 0 <= i < |rows| ==> ks[i] == KeyOf(rows[i], sel)
  {
    seq(|rows|, i requires 0 <= i < |rows| => KeyOf(rows[i], sel))
  }

  /** The rows whose key is k, in row order. */
  function RowsWith(rows: seq<Row>, sel: Selector, k: Value): (r: seq<Row>)
    ensures multiset(r) <= multiset(rows)
    ensures forall x :: x in r ==> KeyOf(x, sel) == k
  {
    if rows == [] then []
    else
      var n := |rows| - 1;
      assert rows == rows[..n] + [rows[n]];
      RowsWith(rows[..n], sel, k) + (if KeyOf(rows[n], sel) == k then [rows[n]] else [])
  }

  /** How many rows have key k. */
  function CountWith(rows: seq<Row>, sel: Selector, k: Value): nat
  {
    |RowsWith(rows, sel, k)|
  }

  lemma {:induction false} RowsWithAbsent(rows: seq<Row>, sel: Selector, k: Value)
    requires k !in Keys(rows, sel)
    ensures RowsWith(rows, sel, k) == []
  {
    if rows != [] {
      var n := |rows| - 1;
      assert Keys(rows[..n], sel) == Keys(rows, sel)[..n];
      RowsWithAbsent(rows[..n], sel, k);
      assert Keys(rows, sel)[n] == KeyOf(rows[n], sel);
    }
  }

  datatype Group = Group(key: Value, rows: seq<Row>)

  function GroupKeys(gs: seq<Group>): (ks: seq<Value>)
    ensures |ks| == |gs|
    ensures forall i :: 0 <= i < |gs| ==> ks[i] == gs[i].key
  {
    seq(|gs|, i requires 0 <= i < |gs| => gs[i].key)
  }

  function GroupRows(gs: seq<Group>): (parts: seq<seq<Row>>)
    ensures |parts| == |gs|
    ensures forall i :: 0 <= i < |gs| ==> parts[i] == gs[i].rows
  {
    seq(|gs|, i requires 0 <= i < |gs| => gs[i].rows)
  }

  /** The position of the group with key k, or |gs| when there is none. */
  function KeyIndex(gs: seq<Group>, k: Value): (j: nat)
    ensures j <= |gs|
    ensures j < |gs| ==> gs[j].key == k
    ensures j == |gs| ==> k !in GroupKeys(gs)
  {
    if gs == [] then 0
    else if gs[0].key == k then 0
    else
      assert GroupKeys(gs) == [gs[0].key] + GroupKeys(gs[1..]);
      1 + KeyIndex(gs[1..], k)
  }

  /** Appends row r, whose key is k, to the group of k, opening that group
      at the end when k has not been seen yet. */
  function AddToGroup(gs: seq<Group>, k: Value, r: Row): seq<Group>
  {
    var j := KeyIndex(gs, k);
    if j < |gs| then gs[j := Group(k, gs[j].rows + [r])] else gs + [Group(k, [r])]
  }

  /** `d3.groups(rows, key)`: the rows added in turn to the group of their key. */
  function Groups(rows: seq<Row>, sel: Selector): (gs: seq<Group>)
    ensures |gs| <= |rows|
    ensures forall i :: 0 <= i < |gs| ==> |gs[i].rows| > 0
  {
    if rows == [] then []
    else
      var n := |rows| - 1;
      AddToGroup(Groups(rows[..n], sel), KeyOf(rows[n], sel), rows[n])
  }

  lemma AddToGroupKeys(gs: seq<Group>, k: Value, r: Row)
    ensures GroupKeys(AddToGroup(gs, k, r)) ==
      if k in GroupKeys(gs) then GroupKeys(gs) else GroupKeys(gs) + [k]
  {
    var j := KeyIndex(gs, k);
    if j < |gs| {
      assert GroupKeys(gs)[j] == k;
    }
  }

  /** The groups' keys are the distinct keys of the rows, in first-seen order. */
  lemma {:induction false} GroupsKeys(rows: seq<Row>, sel: Selector)
    ensures GroupKeys(Groups(rows, sel)) == Distinct(Keys(rows, sel))
  {
    if rows != [] {
      var n := |rows| - 1;
      GroupsKeys(rows[..n], sel);
      AddToGroupKeys(Groups(rows[..n], sel), KeyOf(rows[n], sel), rows[n]);
      var ks := Keys(rows, sel);
      assert ks[..n] == Keys(rows[..n], sel);
    }
  }

  lemma RowsWithSnoc(p: seq<Row>, sel: Selector, r: Row, k: Value)
    ensures RowsWith(p + [r], sel, k) == RowsWith(p, sel, k) + (if KeyOf(r, sel) == k then [r] else [])
  {
    assert (p + [r])[..|p|] == p;
  }

  lemma AddToGroupRows(gs: seq<Group>, p: seq<Row>, sel: Selector, r: Row)
    requires NoDup(GroupKeys(gs))
    requires forall i :: 0 <= i < |gs| ==> gs[i].rows == RowsWith(p, sel, gs[i].key)
    requires KeyOf(r, sel) !in GroupKeys(gs) ==> RowsWith(p, sel, KeyOf(r, sel)) == []
    ensures forall i :: 0 <= i < |AddToGroup(gs, KeyOf(r, sel), r)| ==>
      AddToGroup(gs, KeyOf(r, sel), r)[i].rows == RowsWith(p + [r], sel, AddToGroup(gs, KeyOf(r, sel), r)[i].key)
  {
    var k := KeyOf(r, sel);
    var j := KeyIndex(gs, k);
    var g := AddToGroup(gs, k, r);
    forall i | 0 <= i < |g| ensures g[i].rows == RowsWith(p + [r], sel, g[i].key) {
      RowsWithSnoc(p, sel, r, g[i].key);
      if i < |gs| && i != j {
        assert GroupKeys(gs)[i] != k by {
          if j < |gs| {
            assert GroupKeys(gs)[i] != GroupKeys(gs)[j];
          }
        }
        assert g[i] == gs[i];
      }
    }
  }

  /** Each group holds exactly the rows with its key, in row order. */
  lemma {:induction false} GroupsRows(rows: seq<Row>, sel: Selector)
    ensures forall i :: 0 <= i < |Groups(rows, sel)| ==>
      Groups(rows, sel)[i].rows == RowsWith(rows, sel, Groups(rows, sel)[i].key)
  {
    if rows != [] {
      var n := |rows| - 1;
      var p := rows[..n];
      assert rows == p + [rows[n]];
      GroupsRows(p, sel);
      GroupsKeys(p, sel);
      var k := KeyOf(rows[n], sel);
      if k !in GroupKeys(Groups(p, sel)) {
        RowsWithAbsent(p, sel, k);
      }
      AddToGroupRows(Groups(p, sel), p, sel, rows[n]);
    }
  }

  /** No row is lost or duplicated: the groups together hold the rows. */
  lemma {:induction false} GroupsPartition(rows: seq<Row>, sel: Selector)
    ensures multiset(Flatten(GroupRows(Groups(rows, sel)))) == multiset(rows)
  {
    if rows != [] {
      var n := |rows| - 1;
      var p := rows[..n];
      assert rows == p + [rows[n]];
      GroupsPartition(p, sel);
      var gs := Groups(p, sel);
      var k := KeyOf(rows[n], sel);
      var j := KeyIndex(gs, k);
      if j < |gs| {
        assert GroupRows(Groups(rows, sel)) == GroupRows(gs)[j := GroupRows(gs)[j] + [rows[n]]];
        FlattenPush(GroupRows(gs), j, rows[n]);
      } else {
        assert GroupRows(Groups(rows, sel)) == GroupRows(gs) + [[rows[n]]];
        FlattenAppend(GroupRows(gs), [rows[n]]);
      }
    }
  }

  /** A rollup entry: a key and the value reduced from its group. */
  datatype Tally = Tally(key: Value, count: nat)

  function TallyKeys(ts: seq<Tally>): (ks: seq<Value>)
    ensures |ks| == |ts|
    ensures forall i :: 0 <= i < |ts| ==> ks[i] == ts[i].key
  {
    seq(|ts|, i requires 0 <= i < |ts| => ts[i].key)
  }

  function TallySum(ts: seq<Tally>): nat
  {
    if ts == [] then 0 else TallySum(ts[..|ts| - 1]) + ts[|ts| - 1].count
  }

  /** The count stored under k, 0 when k is absent. */
  function CountOf(ts: seq<Tally>, k: Value): nat
  {
    if ts == [] then 0 else if ts[0].key == k then ts[0].count else CountOf(ts[1..], k)
  }

  /** `d3.rollup(rows, v => v.length, key)`: the size of each group. */
  function RollupCount(rows: seq<Row>, sel: Selector): (ts: seq<Tally>)
    ensures |ts| <= |rows|
    ensures forall i :: 0 <= i < |ts| ==> ts[i].count > 0
  {
    var gs := Groups(rows, sel);
    seq(|gs|, i requires 0 <= i < |gs| => Tally(gs[i].key, |gs[i].rows|))
  }

  lemma {:induction false} TallySumOfSizes(ts: seq<Tally>, parts: seq<seq<Row>>)
    requires |ts| == |parts|
    requires forall i :: 0 <= i < |ts| ==> ts[i].count == |parts[i]|
    ensures TallySum(ts) == |Flatten(parts)|
  {
    if ts != [] {
      var n := |ts| - 1;
      TallySumOfSizes(ts[..n], parts[..n]);
    }
  }

  lemma {:induction false} CountOfNoDup(ts: seq<Tally>, i: nat)
    requires i < |ts| && NoDup(TallyKeys(ts))
    ensures CountOf(ts, ts[i].key) == ts[i].count
  {
    if i > 0 {
      assert TallyKeys(ts)[0] != TallyKeys(ts)[i];
      assert TallyKeys(ts[1..]) == TallyKeys(ts)[1..];
      CountOfNoDup(ts[1..], i - 1);
    }
  }

  lemma {:induction false} CountOfAbsent(ts: seq<Tally>, k: Value)
    requires k !in TallyKeys(ts)
    ensures CountOf(ts, k) == 0
  {
    if ts != [] {
      assert TallyKeys(ts) == [ts[0].key] + TallyKeys(ts[1..]);
      CountOfAbsent(ts[1..], k);
    }
  }

  /** d3.rollup counting: one entry per distinct key, in first-seen order,
      each holding the number of rows with that key. */
  lemma RollupCountKeys(rows: seq<Row>, sel: Selector)
    ensures TallyKeys(RollupCount(rows, sel)) == Distinct(Keys(rows, sel))
    ensures forall i :: 0 <= i < |RollupCount(rows, sel)| ==>
      RollupCount(rows, sel)[i].count == CountWith(rows, sel, RollupCount(rows, sel)[i].key)
  {
    GroupsKeys(rows, sel);
    GroupsRows(rows, sel);
    assert TallyKeys(RollupCount(rows, sel)) == GroupKeys(Groups(rows, sel));
  }

  /** The counts of a rollup add up to the number of rows. */
  lemma RollupCountSum(rows: seq<Row>, sel: Selector)
    ensures TallySum(RollupCount(rows, sel)) == |rows|
  {
    var gs := Groups(rows, sel);
    GroupsPartition(rows, sel);
    TallySumOfSizes(RollupCount(rows, sel), GroupRows(gs));
    assert |multiset(Flatten(GroupRows(gs)))| == |multiset(rows)|;
  }

  /** Looking up any key in a rollup gives its number of rows (0 if absent). */
  lemma RollupCountLookup(rows: seq<Row>, sel: Selector, k: Value)
    ensures CountOf(RollupCount(rows, sel), k) == CountWith(rows, sel, k)
  {
    var ts := RollupCount(rows, sel);
    RollupCountKeys(rows, sel);
    var ks := TallyKeys(ts);
    assert NoDup(ks) && (k in ks <==> k in Keys(rows, sel));
    if k in ks {
      var i :| 0 <= i < |ts| && ks[i] == k;
      CountOfNoDup(ts, i);
      assert ts[i].count == CountWith(rows, sel, k);
    } else {
      CountOfAbsent(ts, k);
      RowsWithAbsent(rows, sel, k);
    }
  }

  /** The numbers among the values, in order; `d3.extent` and
      `d3.quantile` ignore everything else. */
  function Numbers(vs: seq<Value>): (xs: seq<real>)
    ensures forall x :: x in xs <==> Num(x) in vs
    ensures |vs| > 0 && vs[0].Num? ==> |xs| > 0 && xs[0] == vs[0].x
  {
    if vs == [] then []
    else
      assert vs == [vs[0]] + vs[1..];
      (if vs[0].Num? then [vs[0].x] else []) + Numbers(vs[1..])
  }

  function MinOf(xs: seq<real>): (m: real)
    requires |xs| > 0
    ensures m in xs && forall x :: x in xs ==> m <= x
  {
    if |xs| == 1 then xs[0]
    else
      var m := MinOf(xs[1..]);
      assert xs == [xs[0]] + xs[1..];
      if xs[0] <= m then xs[0] else m
  }

  function MaxOf(xs: seq<real>): (m: real)
    requires |xs| > 0
    ensures m in xs && forall x :: x in xs ==> x <= m
  {
    if |xs| == 1 then xs[0]
    else
      var m := MaxOf(xs[1..]);
      assert xs == [xs[0]] + xs[1..];
      if m <= xs[0] then xs[0] else m
  }

  /** `[min, max]` of a column. */
  datatype Extent = Extent(min: real, max: real)

  /** `d3.extent(values)` over the numbers of a column that has at least one. */
  function ExtentOf(xs: seq<real>): (e: Extent)
    requires |xs| > 0
    ensures e.min in xs && e.max in xs
    ensures forall x :: x in xs ==> e.min <= x <= e.max
  {
    Extent(MinOf(xs), MaxOf(xs))
  }

  predicate RealLe(a: real, b: real) { a <= b }

  lemma RealLeTotalPreorder()
    ensures Sorting.TotalPreorder(RealLe)
  {
  }

  function SortNumbers(xs: seq<real>): (r: seq<real>)
    ensures multiset(r) == multiset(xs)
    ensures forall i, j :: 0 <= i < j < |r| ==> r[i] <= r[j]
  {
    RealLeTotalPreorder();
    Sorting.SortBySorted(xs, RealLe);
    var r := Sorting.SortBy(xs, RealLe);
    assert Sorting.SortedBy(r, RealLe);
    r
  }

  /** `d3.quantile(values, p)` of ascending numbers, for 0 < p < 1: the
      position (n-1)p splits into an index i0 and a fraction, and the result
      interpolates linearly between the i0-th and the next number; a single
      number is its own quantile. */
  function Quantile(sorted: seq<real>, p: real): (q: real)
    requires |sorted| > 0 && 0.0 < p < 1.0
    ensures MinOf(sorted) <= q <= MaxOf(sorted)
  {
    var n := |sorted|;
    if n < 2 then sorted[0]
    else
      var i0 := QuantileIndex(n, p);
      var lo, hi, f := sorted[i0], sorted[i0 + 1], QuantileFraction(n, p);
      LerpBetween(lo, hi, f);
      assert lo in sorted && hi in sorted;
      Lerp(lo, hi, f)
  }

  /** The point a fraction f of the way from lo to hi. */
  function Lerp(lo: real, hi: real, f: real): real
  {
    lo + (hi - lo) * f
  }

  /** The integer part of the position (n-1)p. */
  function QuantileIndex(n: nat, p: real): (i0: nat)
    requires n >= 2 && 0.0 < p < 1.0
    ensures i0 < n - 1
  {
    var a := (n - 1) as real;
    assert a * p < a * 1.0;
    (a * p).Floor
  }

  /** The fractional part of the position (n-1)p. */
  function QuantileFraction(n: nat, p: real): (f: real)
    requires n >= 2 && 0.0 < p < 1.0
    ensures 0.0 <= f < 1.0
  {
    (n - 1) as real * p - QuantileIndex(n, p) as real
  }

  lemma QuantilePositionMonotone(n: nat, p1: real, p2: real)
    requires n >= 2 && 0.0 < p1 <= p2 < 1.0
    ensures QuantileIndex(n, p1) <= QuantileIndex(n, p2)
    ensures QuantileIndex(n, p1) == QuantileIndex(n, p2) ==> QuantileFraction(n, p1) <= QuantileFraction(n, p2)
  {
    var a := (n - 1) as real;
    assert a * p1 <= a * p2;
  }

  /** Linear interpolation stays between its ends and grows with the fraction. */
  lemma Interpolate(lo: real, hi: real, f1: real, f2: real)
    requires lo <= hi && 0.0 <= f1 <= f2 <= 1.0
    ensures lo <= Lerp(lo, hi, f1) <= Lerp(lo, hi, f2) <= hi
  {
    var w := hi - lo;
    assert 0.0 <= w * f1;
    assert 0.0 <= w * (f2 - f1);
    assert w * f2 - w * f1 == w * (f2 - f1);
    assert 0.0 <= w * (1.0 - f2);
    assert w - w * f2 == w * (1.0 - f2);
  }

  /** Interpolating between two numbers, in either order, stays between them. */
  lemma LerpBetween(a: real, b: real, f: real)
    requires 0.0 <= f <= 1.0
    ensures a <= b ==> a <= Lerp(a, b, f) <= b
    ensures b <= a ==> b <= Lerp(a, b, f) <= a
  {
    if a <= b {
      Interpolate(a, b, f, f);
    } else {
      Interpolate(b, a, 1.0 - f, 1.0 - f);
      assert (a - b) * (1.0 - f) == (a - b) - (a - b) * f;
      assert (b - a) * f == -((a - b) * f);
    }
  }

  /** A quantile lies between the smallest and the largest number, and a
      larger fraction never gives a smaller quantile. */
  lemma QuantileBounds(sorted: seq<real>, p1: real, p2: real)
    requires |sorted| > 0 && 0.0 < p1 <= p2 < 1.0
    requires forall i, j :: 0 <= i < j < |sorted| ==> sorted[i] <= sorted[j]
    ensures sorted[0] <= Quantile(sorted, p1) <= Quantile(sorted, p2) <= sorted[|sorted| - 1]
  {
    var n := |sorted|;
    if n >= 2 {
      QuantilePositionMonotone(n, p1, p2);
      var a, b := QuantileIndex(n, p1), QuantileIndex(n, p2);
      var f1, f2 := QuantileFraction(n, p1), QuantileFraction(n, p2);
      assert sorted[0] <= sorted[a] && sorted[b + 1] <= sorted[n - 1];
      Interpolate(sorted[a], sorted[a + 1], f1, f1);
      Interpolate(sorted[b], sorted[b + 1], f2, f2);
      if a == b {
        Interpolate(sorted[a], sorted[a + 1], f1, f2);
      } else {
        assert sorted[a + 1] <= sorted[b];
      }
    }
  }

  /** The thresholds d3.bin keeps: those above the domain's lower end
      (dropped from the front) and not above its upper end (dropped from the
      back). */
  function TrimThresholds(ts: seq<real>, lo: real, hi: real): seq<real>
  {
    DropTrailing(DropLeading(ts, lo), hi)
  }

  function DropLeading(ts: seq<real>, lo: real): (r: seq<real>)
    ensures |r| <= |ts|
  {
    if ts != [] && ts[0] <= lo then DropLeading(ts[1..], lo) else ts
  }

  function DropTrailing(ts: seq<real>, hi: real): (r: seq<real>)
    ensures |r| <= |ts|
  {
    if ts != [] && ts[|ts| - 1] > hi then DropTrailing(ts[..|ts| - 1], hi) else ts
  }

  /** `d3.bisectRight(tz, x)`: how many leading thresholds are at most x. */
  function BisectRight(tz: seq<real>, x: real): (i: nat)
    ensures i <= |tz|
    ensures forall j :: 0 <= j < i ==> tz[j] <= x
    ensures i < |tz| ==> x < tz[i]
  {
    if tz == [] || x < tz[0] then 0 else 1 + BisectRight(tz[1..], x)
  }

  /** The row's value is a number inside [lo, hi]. */
  predicate InDomain(v: Value, lo: real, hi: real)
  {
    v.Num? && lo <= v.x <= hi
  }

  /** The rows whose value in the column lies inside [lo, hi], in row order. */
  function RowsInDomain(rows: seq<Row>, column: string, lo: real, hi: real): seq<Row>
  {
    if rows == [] then []
    else
      var n := |rows| - 1;
      RowsInDomain(rows[..n], column, lo, hi) + (if InDomain(Get(rows[n], column), lo, hi) then [rows[n]] else [])
  }

  /** The bins of d3.bin's loop over the rows: |tz| + 1 bins, each row whose
      value lies in the domain pushed onto bin `bisectRight(tz, value)`, the
      other rows dropped. */
  function BinRows(rows: seq<Row>, column: string, lo: real, hi: real, tz: seq<real>): (bins: seq<seq<Row>>)
    ensures |bins| == |tz| + 1
  {
    if rows == [] then seq(|tz| + 1, _ => [])
    else
      var n := |rows| - 1;
      var bins := BinRows(rows[..n], column, lo, hi, tz);
      var v := Get(rows[n], column);
      if InDomain(v, lo, hi) then
        var j := BisectRight(tz, v.x);
        bins[j := bins[j] + [rows[n]]]
      else bins
  }

  /** `d3.bin().value(d => d[column]).domain([lo, hi]).thresholds(ts)(rows)`. */
  function Bin(rows: seq<Row>, column: string, lo: real, hi: real, ts: seq<real>): (bins: seq<seq<Row>>)
    ensures 1 <= |bins| <= |ts| + 1
    ensures forall i, r :: 0 <= i < |bins| && r in bins[i] ==> InDomain(Get(r, column), lo, hi)
  {
    BinMembers(rows, column, lo, hi, TrimThresholds(ts, lo, hi));
    BinRows(rows, column, lo, hi, TrimThresholds(ts, lo, hi))
  }

  /** Every row of a bin has a value in the domain that bisects to that bin. */
  lemma {:induction false} BinMembers(rows: seq<Row>, column: string, lo: real, hi: real, tz: seq<real>)
    ensures forall i, r :: 0 <= i < |BinRows(rows, column, lo, hi, tz)| && r in BinRows(rows, column, lo, hi, tz)[i] ==>
      InDomain(Get(r, column), lo, hi) && BisectRight(tz, Get(r, column).x) == i
  {
    if rows != [] {
      BinMembers(rows[..|rows| - 1], column, lo, hi, tz);
    }
  }

  /** Binning partitions the in-domain rows: each of them is in exactly one bin. */
  lemma {:induction false} BinPartition(rows: seq<Row>, column: string, lo: real, hi: real, tz: seq<real>)
    ensures multiset(Flatten(BinRows(rows, column, lo, hi, tz))) == multiset(RowsInDomain(rows, column, lo, hi))
  {
    if rows == [] {
      var empty: seq<seq<Row>> := seq(|tz| + 1, _ => []);
      EmptyPartsFlatten(empty);
    } else {
      var n := |rows| - 1;
      BinPartition(rows[..n], column, lo, hi, tz);
      var v := Get(rows[n], column);
      if InDomain(v, lo, hi) {
        FlattenPush(BinRows(rows[..n], column, lo, hi, tz), BisectRight(tz, v.x), rows[n]);
      }
    }
  }

  lemma {:induction false} EmptyPartsFlatten(parts: seq<seq<Row>>)
    requires forall i :: 0 <= i < |parts| ==> parts[i] == []
    ensures Flatten(parts) == []
  {
    if parts != [] {
      EmptyPartsFlatten(parts[..|parts| - 1]);
    }
  }

  /** When every row's value lies in the domain, none is dropped. */
  lemma {:induction false} AllInDomain(rows: seq<Row>, column: string, lo: real, hi: real)
    requires forall r :: r in rows ==> InDomain(Get(r, column), lo, hi)
    ensures RowsInDomain(rows, column, lo, hi) == rows
  {
    if rows != [] {
      var n := |rows| - 1;
      assert rows == rows[..n] + [rows[n]];
      AllInDomain(rows[..n], column, lo, hi);
    }
  }
}
