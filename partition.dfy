/** `getData(metadata, selectedFeatures, dataset)`: the partition tree.  Each
    node counts its rows per label (and, when the dataset has predictions,
    per prediction and per correct/incorrect outcome); an inner node splits
    its rows along the next selected feature, a leaf holds its row count. */
module Partition {
  import opened JsValues
  import opened Seqs
  import opened D3
  import opened FeatureMetadata

  const Correct := Str("correct")
  const Incorrect := Str("incorrect")

  /** The outcome counts of the rows with one prediction value. */
  datatype Outcomes = Outcomes(prediction: Value, results: seq<Tally>)

  datatype PredictionStats = PredictionStats(predictionCounts: seq<Tally>, predictionResults: seq<Outcomes>)

  /** A node of the partition tree.  `splitFeature` and `splitLabel` say
      which feature and which value or bin produced the node; both are the
      empty string at the root. */
  datatype Node =
    | Leaf(counts: seq<Tally>, predictions: Option<PredictionStats>,
           splitFeature: string, splitLabel: Value, value: nat)
    | Inner(counts: seq<Tally>, predictions: Option<PredictionStats>,
            splitFeature: string, splitLabel: Value, children: seq<Node>)

  /** Every selected feature has a descriptor that is categorical or
      quantitative: for a missing or a temporal descriptor the source throws
      a TypeError instead of returning a tree. */
  predicate Splittable(md: Metadata, selected: seq<string>)
  {
    forall i :: 0 <= i < |selected| ==> selected[i] in md.features && !md.features[selected[i]].Temporal?
  }

  /** `predictionCounts` and `predictionResults` of a node's rows. */
  function Predictions(data: seq<Row>): (ps: PredictionStats)
    ensures TallySum(ps.predictionCounts) == |data|
    ensures |ps.predictionResults| == |ps.predictionCounts|
    ensures forall i :: 0 <= i < |ps.predictionCounts| ==>
      && ps.predictionResults[i].prediction == ps.predictionCounts[i].key
      && TallySum(ps.predictionResults[i].results) == ps.predictionCounts[i].count
  {
    var gs := Groups(data, Field(PredictionColumn));
    RollupCountSum(data, Field(PredictionColumn));
    OutcomeSums(gs);
    PredictionStats(
      RollupCount(data, Field(PredictionColumn)),
      seq(|gs|, i requires 0 <= i < |gs| => Outcomes(gs[i].key, RollupCount(gs[i].rows, Outcome))))
  }

  /** Within each group, the outcome counts add up to the group's size. */
  lemma OutcomeSums(gs: seq<Group>)
    ensures forall i :: 0 <= i < |gs| ==> TallySum(RollupCount(gs[i].rows, Outcome)) == |gs[i].rows|
  {
    forall i | 0 <= i < |gs| ensures TallySum(RollupCount(gs[i].rows, Outcome)) == |gs[i].rows| {
      RollupCountSum(gs[i].rows, Outcome);
    }
  }

  /** The row groups a feature splits the rows into: d3.bin over the
      feature's extent and thresholds for a quantitative feature, d3.groups
      by value for a categorical one. */
  function Splits(f: Feature, name: string, data: seq<Row>): (splits: seq<seq<Row>>)
    requires !f.Temporal?
    ensures f.Categorical? ==> |splits| == |Distinct(Column(data, name))|
    ensures f.Categorical? ==> forall i :: 0 <= i < |splits| ==> splits[i] != []
    ensures f.Quantitative? ==> 1 <= |splits| <= |f.thresholds| + 1
    ensures f.Quantitative? ==> forall i, r :: 0 <= i < |splits| && r in splits[i] ==>
      InDomain(Get(r, name), f.extent.min, f.extent.max)
  {
    GroupsKeys(data, Field(name));
    if f.Quantitative? then Bin(data, name, f.extent.min, f.extent.max, f.thresholds)
    else GroupRows(Groups(data, Field(name)))
  }

  /** `values[i]`, which is `undefined` past the end. */
  function LabelAt(values: seq<Value>, i: nat): Value
  {
    if i < |values| then values[i] else Undefined
  }

  /** `splitData(data, index, splitFeature, splitLabel)`. */
  function SplitData(md: Metadata, selected: seq<string>, data: seq<Row>, index: nat,
                     splitFeature: string, splitLabel: Value): (n: Node)
    requires index <= |selected| && Splittable(md, selected)
    ensures n.splitFeature == splitFeature && n.splitLabel == splitLabel
    ensures TallySum(n.counts) == |data|
    ensures n.Leaf? <==> index == |selected|
    ensures n.Leaf? ==> n.value == |data|
    ensures n.predictions.Some? <==> md.hasPredictions
    decreases |selected| - index
  {
    RollupCountSum(data, Field(LabelColumn));
    var counts := RollupCount(data, Field(LabelColumn));
    var preds := if md.hasPredictions then Some(Predictions(data)) else None;
    if index < |selected| then
      var name := selected[index];
      var f := md.features[name];
      var splits := Splits(f, name, data);
      Inner(counts, preds, splitFeature, splitLabel,
        seq(|splits|, i requires 0 <= i < |splits| =>
          SplitData(md, selected, splits[i], index + 1, name, LabelAt(f.values, i))))
    else
      Leaf(counts, preds, splitFeature, splitLabel, |data|)
  }

  /** `getData`: null exactly when there is no metadata; otherwise the root,
      built from all rows with empty split feature and label. */
  function GetData(md: Option<Metadata>, selected: seq<string>, dataset: seq<Row>): (r: Option<Node>)
    requires md.Some? ==> Splittable(md.value, selected)
    ensures r.None? <==> md.None?
    ensures r.Some? ==> r.value.splitFeature == "" && r.value.splitLabel == Str("")
  {
    if md.None? then None else Some(SplitData(md.value, selected, dataset, 0, "", Str("")))
  }

  // ---------------------------------------------------------------------
  // One node

  /** A node's label counts list every label value of its rows once, in
      first-seen order, with the number of rows carrying it; they add up to
      the node's row count, which a leaf also stores as its value. */
  lemma NodeCounts(md: Metadata, selected: seq<string>, data: seq<Row>, index: nat, sf: string, sl: Value)
    requires index <= |selected| && Splittable(md, selected)
    ensures var n := SplitData(md, selected, data, index, sf, sl);
      && TallyKeys(n.counts) == Distinct(Column(data, LabelColumn))
      && (forall k :: CountOf(n.counts, k) == CountWith(data, Field(LabelColumn), k))
      && TallySum(n.counts) == |data|
      && (n.Leaf? <==> index == |selected|)
      && (n.Leaf? ==> n.value == |data|)
      && (n.predictions.Some? <==> md.hasPredictions)
      && n.splitFeature == sf && n.splitLabel == sl
  {
    RollupCountKeys(data, Field(LabelColumn));
    RollupCountSum(data, Field(LabelColumn));
    forall k ensures CountOf(RollupCount(data, Field(LabelColumn)), k) == CountWith(data, Field(LabelColumn), k) {
      RollupCountLookup(data, Field(LabelColumn), k);
    }
  }

  /** The rows whose prediction and label both equal p. */
  function CorrectRows(rows: seq<Row>, p: Value): seq<Row>
  {
    if rows == [] then []
    else
      var n := |rows| - 1;
      var r := rows[n];
      CorrectRows(rows[..n], p) + (if Get(r, PredictionColumn) == p && Get(r, LabelColumn) == p then [r] else [])
  }

  lemma {:induction false} CorrectAmongPredicted(rows: seq<Row>, p: Value)
    ensures CountWith(RowsWith(rows, Field(PredictionColumn), p), Outcome, Correct) == |CorrectRows(rows, p)|
  {
    if rows != [] {
      var n := |rows| - 1;
      CorrectAmongPredicted(rows[..n], p);
      var g := RowsWith(rows[..n], Field(PredictionColumn), p);
      assert rows[..n] == rows[..|rows| - 1];
      if Get(rows[n], PredictionColumn) == p {
        var h := g + [rows[n]];
        assert RowsWith(rows, Field(PredictionColumn), p) == h;
        assert h[..|h| - 1] == g;
        assert CountWith(h, Outcome, Correct) == CountWith(g, Outcome, Correct) + (if KeyOf(rows[n], Outcome) == Correct then 1 else 0);
        assert KeyOf(rows[n], Outcome) == Correct <==> Get(rows[n], LabelColumn) == p;
      } else {
        assert RowsWith(rows, Field(PredictionColumn), p) == g;
      }
      assert CorrectRows(rows, p) == CorrectRows(rows[..n], p)
        + (if Get(rows[n], PredictionColumn) == p && Get(rows[n], LabelColumn) == p then [rows[n]] else []);
    }
  }

  lemma {:induction false} OutcomesSplit(rows: seq<Row>)
    ensures CountWith(rows, Outcome, Correct) + CountWith(rows, Outcome, Incorrect) == |rows|
  {
    if rows != [] {
      OutcomesSplit(rows[..|rows| - 1]);
    }
  }

  /** Prediction statistics: one entry per distinct prediction, in
      first-seen order, with its row count; of those rows, `correct` counts
      the ones whose label equals the prediction and `incorrect` the rest. */
  lemma PredictionsCorrect(data: seq<Row>)
    ensures var ps := Predictions(data);
      && TallyKeys(ps.predictionCounts) == Distinct(Column(data, PredictionColumn))
      && TallySum(ps.predictionCounts) == |data|
      && |ps.predictionResults| == |ps.predictionCounts|
      && forall i :: 0 <= i < |ps.predictionCounts| ==>
           var p := ps.predictionCounts[i].key;
           && ps.predictionResults[i].prediction == p
           && ps.predictionCounts[i].count == CountWith(data, Field(PredictionColumn), p)
           && CountOf(ps.predictionResults[i].results, Correct) == |CorrectRows(data, p)|
           && CountOf(ps.predictionResults[i].results, Correct)
              + CountOf(ps.predictionResults[i].results, Incorrect) == ps.predictionCounts[i].count
  {
    var sel := Field(PredictionColumn);
    var ps := Predictions(data);
    var gs := Groups(data, sel);
    RollupCountKeys(data, sel);
    RollupCountSum(data, sel);
    GroupsRows(data, sel);
    forall i | 0 <= i < |ps.predictionCounts|
      ensures var p := ps.predictionCounts[i].key;
        && CountOf(ps.predictionResults[i].results, Correct) == |CorrectRows(data, p)|
        && CountOf(ps.predictionResults[i].results, Correct)
           + CountOf(ps.predictionResults[i].results, Incorrect) == ps.predictionCounts[i].count
    {
      var p := gs[i].key;
      var g := gs[i].rows;
      assert g == RowsWith(data, sel, p);
      RollupCountLookup(g, Outcome, Correct);
      RollupCountLookup(g, Outcome, Incorrect);
      CorrectAmongPredicted(data, p);
      OutcomesSplit(g);
    }
  }

  // ---------------------------------------------------------------------
  // The split of an inner node

  lemma {:induction false} PartInFlatten(parts: seq<seq<Row>>, i: nat)
    requires i < |parts|
    ensures multiset(parts[i]) <= multiset(Flatten(parts))
  {
    if i < |parts| - 1 {
      PartInFlatten(parts[..|parts| - 1], i);
    }
  }

  /** The rows of the children: all rows for a categorical split, the rows
      whose value lies in the extent for a quantitative one; each such row
      lands in exactly one child. */
  function SplitRows(f: Feature, name: string, data: seq<Row>): seq<Row>
    requires !f.Temporal?
  {
    if f.Quantitative? then RowsInDomain(data, name, f.extent.min, f.extent.max) else data
  }

  lemma SplitsPartition(f: Feature, name: string, data: seq<Row>)
    requires !f.Temporal?
    ensures multiset(Flatten(Splits(f, name, data))) == multiset(SplitRows(f, name, data))
    ensures forall i :: 0 <= i < |Splits(f, name, data)| ==>
      multiset(Splits(f, name, data)[i]) <= multiset(data)
  {
    var splits := Splits(f, name, data);
    if f.Quantitative? {
      BinPartition(data, name, f.extent.min, f.extent.max, TrimThresholds(f.thresholds, f.extent.min, f.extent.max));
    } else {
      GroupsPartition(data, Field(name));
    }
    if f.Quantitative? {
      RowsInDomainSubset(data, name, f.extent.min, f.extent.max);
    }
    forall i | 0 <= i < |splits| ensures multiset(splits[i]) <= multiset(data) {
      PartInFlatten(splits, i);
    }
  }

  lemma {:induction false} RowsInDomainSubset(rows: seq<Row>, column: string, lo: real, hi: real)
    ensures multiset(RowsInDomain(rows, column, lo, hi)) <= multiset(rows)
  {
    if rows != [] {
      var n := |rows| - 1;
      assert rows == rows[..n] + [rows[n]];
      RowsInDomainSubset(rows[..n], column, lo, hi);
    }
  }

  /** The row counts of an inner node's children add up to the number of
      its rows that the split places: all of them for a categorical feature,
      those inside the extent for a quantitative one. */
  lemma ChildrenPartitionRows(md: Metadata, selected: seq<string>, data: seq<Row>, index: nat, sf: string, sl: Value)
    requires index < |selected| && Splittable(md, selected)
    ensures var n := SplitData(md, selected, data, index, sf, sl);
      var f := md.features[selected[index]];
      && n.Inner?
      && SumNats(seq(|n.children|, i requires 0 <= i < |n.children| => TallySum(n.children[i].counts)))
         == |SplitRows(f, selected[index], data)|
  {
    var n := SplitData(md, selected, data, index, sf, sl);
    var name := selected[index];
    var f := md.features[name];
    var splits := Splits(f, name, data);
    forall i | 0 <= i < |splits|
      ensures TallySum(n.children[i].counts) == |splits[i]|
    {
      NodeCounts(md, selected, splits[i], index + 1, name, LabelAt(f.values, i));
    }
    assert seq(|n.children|, i requires 0 <= i < |n.children| => TallySum(n.children[i].counts)) == Sizes(splits);
    SumSizes(splits);
    SplitsPartition(f, name, data);
    assert |multiset(Flatten(splits))| == |multiset(SplitRows(f, name, data))|;
  }

  /** A categorical split has one child per distinct value of the feature
      among the node's rows, in first-seen order; child i holds exactly the
      rows with the i-th value and is labelled, by position, with the i-th
      entry of the feature's (sorted) values. */
  lemma CategoricalChildren(md: Metadata, selected: seq<string>, data: seq<Row>, index: nat, sf: string, sl: Value)
    requires index < |selected| && Splittable(md, selected)
    requires md.features[selected[index]].Categorical?
    ensures var n := SplitData(md, selected, data, index, sf, sl);
      var name := selected[index];
      var ks := Distinct(Column(data, name));
      && n.Inner?
      && |n.children| == |ks|
      && forall i :: 0 <= i < |ks| ==>
           n.children[i] == SplitData(md, selected, RowsWith(data, Field(name), ks[i]), index + 1, name,
                                      LabelAt(md.features[name].values, i))
  {
    GroupsKeys(data, Field(selected[index]));
    GroupsRows(data, Field(selected[index]));
  }

  /** The label of a categorical child describes its rows exactly when the
      first-seen order of the values agrees, at that position, with the
      feature's sorted values. */
  lemma CategoricalLabelIff(md: Metadata, selected: seq<string>, data: seq<Row>, index: nat, sf: string, sl: Value, i: nat)
    requires index < |selected| && Splittable(md, selected)
    requires md.features[selected[index]].Categorical?
    requires i < |Distinct(Column(data, selected[index]))|
    ensures var n := SplitData(md, selected, data, index, sf, sl);
      var name := selected[index];
      var ks := Distinct(Column(data, name));
      var rows := RowsWith(data, Field(name), ks[i]);
      && |rows| > 0
      && (forall r :: r in rows ==> Get(r, name) == ks[i])
      && |n.children| == |ks|
      && ((forall r :: r in rows ==> Get(r, name) == n.children[i].splitLabel) <==> ks[i] == LabelAt(md.features[name].values, i))
  {
    var name := selected[index];
    CategoricalChildren(md, selected, data, index, sf, sl);
    var ks := Distinct(Column(data, name));
    var rows := RowsWith(data, Field(name), ks[i]);
    assert ks[i] in Column(data, name);
    var j :| 0 <= j < |data| && Column(data, name)[j] == ks[i];
    RowsWithContains(data, Field(name), j);
    NodeCounts(md, selected, rows, index + 1, name, LabelAt(md.features[name].values, i));
  }

  lemma {:induction false} RowsWithContains(rows: seq<Row>, sel: Selector, j: nat)
    requires j < |rows|
    ensures rows[j] in RowsWith(rows, sel, KeyOf(rows[j], sel))
  {
    var n := |rows| - 1;
    if j < n {
      RowsWithContains(rows[..n], sel, j);
    }
  }

  /** With thresholds strictly inside the extent, a quantitative split has
      exactly three children, low, medium and high, holding the rows with
      values in [min, t1), [t1, t2) and [t2, max]. */
  lemma QuantitativeChildren(md: Metadata, selected: seq<string>, data: seq<Row>, index: nat, sf: string, sl: Value)
    requires index < |selected| && Splittable(md, selected)
    requires md.features[selected[index]].Quantitative?
    requires var f := md.features[selected[index]];
      |f.thresholds| == 2 && f.extent.min < f.thresholds[0] < f.thresholds[1] < f.extent.max
    ensures var n := SplitData(md, selected, data, index, sf, sl);
      var name := selected[index];
      var f := md.features[name];
      var splits := Splits(f, name, data);
      var t1, t2 := f.thresholds[0], f.thresholds[1];
      && n.Inner? && |n.children| == 3 && |splits| == 3
      && (forall i :: 0 <= i < 3 ==>
            n.children[i] == SplitData(md, selected, splits[i], index + 1, name, LabelAt(f.values, i)))
      && (forall r :: r in splits[0] ==> Get(r, name).Num? && f.extent.min <= Get(r, name).x < t1)
      && (forall r :: r in splits[1] ==> Get(r, name).Num? && t1 <= Get(r, name).x < t2)
      && (forall r :: r in splits[2] ==> Get(r, name).Num? && t2 <= Get(r, name).x <= f.extent.max)
  {
    var name := selected[index];
    var f := md.features[name];
    var lo, hi := f.extent.min, f.extent.max;
    var ts := f.thresholds;
    assert DropLeading(ts, lo) == ts;
    assert DropTrailing(ts, hi) == ts;
    assert TrimThresholds(ts, lo, hi) == ts;
    BinMembers(data, name, lo, hi, ts);
    var splits := Splits(f, name, data);
    forall r, i | 0 <= i < 3 && r in splits[i]
      ensures Get(r, name).Num? && InDomain(Get(r, name), lo, hi) && BisectRight(ts, Get(r, name).x) == i
    {
    }
  }

  // ---------------------------------------------------------------------
  // The whole tree

  /** Leaves exactly at depth |selected|, and every child of a node at
      depth k split along the k-th selected feature. */
  ghost predicate Shaped(n: Node, selected: seq<string>, index: nat)
    requires index <= |selected|
    decreases |selected| - index
  {
    if index == |selected| then n.Leaf?
    else
      && n.Inner?
      && forall i :: 0 <= i < |n.children| ==>
           n.children[i].splitFeature == selected[index] && Shaped(n.children[i], selected, index + 1)
  }

  /** The prediction statistics of a node agree with its counts. */
  ghost predicate PredictionsAgree(n: Node, hasPredictions: bool)
  {
    && (n.predictions.Some? <==> hasPredictions)
    && (n.predictions.Some? ==>
          var ps := n.predictions.value;
          && TallySum(ps.predictionCounts) == TallySum(n.counts)
          && |ps.predictionResults| == |ps.predictionCounts|
          && forall i :: 0 <= i < |ps.predictionCounts| ==>
               && ps.predictionResults[i].prediction == ps.predictionCounts[i].key
               && CountOf(ps.predictionResults[i].results, Correct)
                  + CountOf(ps.predictionResults[i].results, Incorrect) == ps.predictionCounts[i].count)
  }

  /** At every node the prediction statistics agree with the counts, and a
      leaf's value is the sum of its label counts. */
  ghost predicate Consistent(n: Node, hasPredictions: bool)
    decreases n
  {
    && PredictionsAgree(n, hasPredictions)
    && (n.Leaf? ==> TallySum(n.counts) == n.value)
    && (n.Inner? ==> forall i :: 0 <= i < |n.children| ==> Consistent(n.children[i], hasPredictions))
  }

  /** The number of rows held by the leaves below n. */
  function LeafTotal(n: Node): nat
    decreases n
  {
    match n
    case Leaf(_, _, _, _, v) => v
    case Inner(_, _, _, _, cs) => SumNats(seq(|cs|, i requires 0 <= i < |cs| => LeafTotal(cs[i])))
  }

  /** The tree has depth |selected| - index, split along the selected
      features in order. */
  lemma {:induction false} SplitDataShaped(md: Metadata, selected: seq<string>, data: seq<Row>, index: nat, sf: string, sl: Value)
    requires index <= |selected| && Splittable(md, selected)
    ensures Shaped(SplitData(md, selected, data, index, sf, sl), selected, index)
    decreases |selected| - index
  {
    if index < |selected| {
      var n := SplitData(md, selected, data, index, sf, sl);
      var name := selected[index];
      var f := md.features[name];
      var splits := Splits(f, name, data);
      forall i | 0 <= i < |n.children|
        ensures n.children[i].splitFeature == selected[index] && Shaped(n.children[i], selected, index + 1)
      {
        SplitDataShaped(md, selected, splits[i], index + 1, name, LabelAt(f.values, i));
      }
    }
  }

  /** Every node of the tree is consistent. */
  lemma {:induction false} SplitDataConsistent(md: Metadata, selected: seq<string>, data: seq<Row>, index: nat, sf: string, sl: Value)
    requires index <= |selected| && Splittable(md, selected)
    ensures Consistent(SplitData(md, selected, data, index, sf, sl), md.hasPredictions)
    decreases |selected| - index
  {
    var n := SplitData(md, selected, data, index, sf, sl);
    NodeCounts(md, selected, data, index, sf, sl);
    PredictionsCorrect(data);
    if index < |selected| {
      var name := selected[index];
      var f := md.features[name];
      var splits := Splits(f, name, data);
      forall i | 0 <= i < |n.children| ensures Consistent(n.children[i], md.hasPredictions) {
        SplitDataConsistent(md, selected, splits[i], index + 1, name, LabelAt(f.values, i));
      }
    }
  }

  /** Every row of `data` has, for each selected quantitative feature from
      `index` on, a number inside that feature's extent. */
  ghost predicate Covered(md: Metadata, selected: seq<string>, data: seq<Row>, index: nat)
    requires Splittable(md, selected)
  {
    forall k, r :: index <= k < |selected| && r in data && md.features[selected[k]].Quantitative? ==>
      InDomain(Get(r, selected[k]), md.features[selected[k]].extent.min, md.features[selected[k]].extent.max)
  }

  /** When no row falls outside a quantitative split, the leaves' values
      add up to the number of rows. */
  lemma {:induction false} LeavesCoverRows(md: Metadata, selected: seq<string>, data: seq<Row>, index: nat, sf: string, sl: Value)
    requires index <= |selected| && Splittable(md, selected)
    requires Covered(md, selected, data, index)
    ensures LeafTotal(SplitData(md, selected, data, index, sf, sl)) == |data|
    decreases |selected| - index
  {
    if index < |selected| {
      var n := SplitData(md, selected, data, index, sf, sl);
      var name := selected[index];
      var f := md.features[name];
      var splits := Splits(f, name, data);
      forall i | 0 <= i < |splits| ensures LeafTotal(n.children[i]) == |splits[i]| {
        PartCovered(md, selected, data, index, i);
        LeavesCoverRows(md, selected, splits[i], index + 1, name, LabelAt(f.values, i));
      }
      assert seq(|n.children|, i requires 0 <= i < |n.children| => LeafTotal(n.children[i])) == Sizes(splits);
      SumSizes(splits);
      SplitKeepsCoveredRows(md, selected, data, index);
    }
  }

  /** Every part of a split of covered rows is covered one level down. */
  lemma PartCovered(md: Metadata, selected: seq<string>, data: seq<Row>, index: nat, i: nat)
    requires index < |selected| && Splittable(md, selected)
    requires Covered(md, selected, data, index)
    requires i < |Splits(md.features[selected[index]], selected[index], data)|
    ensures Covered(md, selected, Splits(md.features[selected[index]], selected[index], data)[i], index + 1)
  {
    var name := selected[index];
    var f := md.features[name];
    var part := Splits(f, name, data)[i];
    SplitsPartition(f, name, data);
    forall r | r in part ensures r in data {
      assert r in multiset(part);
    }
    SubsetCovered(md, selected, data, part, index + 1);
  }

  /** A split of covered rows drops none of them. */
  lemma SplitKeepsCoveredRows(md: Metadata, selected: seq<string>, data: seq<Row>, index: nat)
    requires index < |selected| && Splittable(md, selected)
    requires Covered(md, selected, data, index)
    ensures |Flatten(Splits(md.features[selected[index]], selected[index], data))| == |data|
  {
    var name := selected[index];
    var f := md.features[name];
    var splits := Splits(f, name, data);
    SplitsPartition(f, name, data);
    if f.Quantitative? {
      AllInDomain(data, name, f.extent.min, f.extent.max);
    }
    assert |multiset(Flatten(splits))| == |multiset(data)|;
  }

  lemma SubsetCovered(md: Metadata, selected: seq<string>, data: seq<Row>, part: seq<Row>, index: nat)
    requires Splittable(md, selected)
    requires index > 0 && Covered(md, selected, data, index - 1)
    requires forall r :: r in part ==> r in data
    ensures Covered(md, selected, part, index)
  {
  }

  /** A quantitative descriptor's extent contains every number of its column. */
  lemma QuantitativeExtentCovers(rows: seq<Row>, name: string, splitType: string)
    requires Classify(rows, name, splitType).Quantitative?
    ensures var f := Classify(rows, name, splitType);
      forall j :: 0 <= j < |rows| && Get(rows[j], name).Num? ==>
        InDomain(Get(rows[j], name), f.extent.min, f.extent.max)
  {
    var values := Column(rows, name);
    assert |DefaultSort(Distinct(values))| > MaxCategories;
    QuantitativeColumn(rows, name, splitType);
    forall j | 0 <= j < |rows| && Get(rows[j], name).Num?
      ensures Num(Get(rows[j], name).x) in values
    {
      assert values[j] == Get(rows[j], name);
    }
  }

  /** End to end: with metadata computed from the same dataset, and every
      value of each selected quantitative column a number, `getData`
      returns a tree whose root counts all rows and whose leaves' values
      add up to the number of rows. */
  lemma GetDataCoversDataset(ds: Dataset, splitType: string, selected: seq<string>)
    requires ds.columns.Some?
    requires Splittable(GetMetadata(Some(ds), splitType).value, selected)
    requires forall k, r ::
      (0 <= k < |selected| && r in ds.rows && GetMetadata(Some(ds), splitType).value.features[selected[k]].Quantitative?)
      ==> Get(r, selected[k]).Num?
    ensures var md := GetMetadata(Some(ds), splitType);
      var root := GetData(md, selected, ds.rows).value;
      && TallySum(root.counts) == |ds.rows|
      && LeafTotal(root) == |ds.rows|
  {
    var md := GetMetadata(Some(ds), splitType).value;
    GetMetadataFeatures(ds, splitType);
    forall k, r | 0 <= k < |selected| && r in ds.rows && md.features[selected[k]].Quantitative?
      ensures InDomain(Get(r, selected[k]), md.features[selected[k]].extent.min, md.features[selected[k]].extent.max)
    {
      var name := selected[k];
      QuantitativeExtentCovers(ds.rows, name, splitType);
      var j :| 0 <= j < |ds.rows| && ds.rows[j] == r;
    }
    NodeCounts(md, selected, ds.rows, 0, "", Str(""));
    LeavesCoverRows(md, selected, ds.rows, 0, "", Str(""));
  }

  /** Two rows whose `x` values first appear as "b", then "a". */
  function WitnessRows(): seq<Row>
  {
    [map["x" := Str("b")], map["x" := Str("a")]]
  }

  lemma WitnessColumn()
    ensures Distinct(Column(WitnessRows(), "x")) == [Str("b"), Str("a")]
  {
    assert Column(WitnessRows(), "x") == [Str("b"), Str("a")];
    assert [Str("b"), Str("a")][..1] == [Str("b")];
  }

  /** Sorting two distinct values out of order puts them in order. */
  lemma SortPair(a: Value, b: Value)
    requires !SortLe(b, a) && a != b
    ensures DefaultSort([b, a]) == [a, b]
  {
    var v := DefaultSort([b, a]);
    assert |v| == 2 by {
      assert |multiset(v)| == |v|;
    }
    assert v[0] in multiset(v) && v[1] in multiset(v);
    assert SortLe(v[0], v[1]);
  }

  lemma WitnessDescriptor()
    ensures Classify(WitnessRows(), "x", "interval") == Categorical("x", [Str("a"), Str("b")])
  {
    WitnessColumn();
    assert !TextLe("b", "a");
    SortPair(Str("a"), Str("b"));
  }

  lemma WitnessMetadata()
    ensures var md := GetMetadata(Some(Dataset(WitnessRows(), Some(["x"]))), "interval").value;
      "x" in md.features && md.features["x"] == Categorical("x", [Str("a"), Str("b")])
  {
    var ds := Dataset(WitnessRows(), Some(["x"]));
    GetMetadataFeatures(ds, "interval");
    assert "x" in GetMetadata(Some(ds), "interval").value.featureNames;
    WitnessDescriptor();
  }

  /** The positional labelling in action: with metadata computed from the
      dataset itself, a column whose values first appear as "b" then "a" is
      described by the sorted values ["a", "b"], so the first child holds the
      "b" row but is labelled "a". */
  lemma LabelMismatchWitness()
    ensures var md := GetMetadata(Some(Dataset(WitnessRows(), Some(["x"]))), "interval").value;
      && Splittable(md, ["x"])
      && var root := GetData(Some(md), ["x"], WitnessRows()).value;
      && root.Inner? && |root.children| == 2
      && root.children[0].splitLabel == Str("a")
      && root.children[0] == SplitData(md, ["x"], [WitnessRows()[0]], 1, "x", Str("a"))
      && Get(WitnessRows()[0], "x") == Str("b")
  {
    WitnessMetadata();
    WitnessSplit(GetMetadata(Some(Dataset(WitnessRows(), Some(["x"]))), "interval").value, WitnessRows());
  }

  lemma WitnessSplit(md: Metadata, rows: seq<Row>)
    requires "x" in md.features && md.features["x"] == Categorical("x", [Str("a"), Str("b")])
    requires rows == WitnessRows()
    ensures Splittable(md, ["x"])
    ensures var root := SplitData(md, ["x"], rows, 0, "", Str(""));
      && root.Inner? && |root.children| == 2
      && root.children[0].splitLabel == Str("a")
      && root.children[0] == SplitData(md, ["x"], [rows[0]], 1, "x", Str("a"))
      && Get(rows[0], "x") == Str("b")
  {
    WitnessColumn();
    CategoricalChildren(md, ["x"], rows, 0, "", Str(""));
    WitnessFirstGroup();
  }

  lemma WitnessFirstGroup()
    ensures RowsWith(WitnessRows(), Field("x"), Str("b")) == [WitnessRows()[0]]
  {
    var rows := WitnessRows();
    assert rows[..1][..0] == [];
    assert RowsWith(rows[..1], Field("x"), Str("b")) == [rows[0]];
  }
}
