/** `getMetadata(dataset, splitType)`: classifies every column other than
    `label` and `prediction` as categorical (C), quantitative (Q) or
    temporal (T), derives the display bins of the quantitative ones, and
    records the label values, the feature names and whether the dataset
    carries predictions. */
module FeatureMetadata {
  import opened JsValues
  import opened Seqs
  import opened D3
  import Sorting

  const LabelColumn := "label"
  const PredictionColumn := "prediction"

  /** The number of display bins of a quantitative feature. */
  const NumBins: nat := 3

  /** A column with at most this many distinct values is categorical. */
  const MaxCategories: nat := 5

  /** The bin names of a quantitative feature. */
  const Verbs: seq<Value> := [Str("low"), Str("medium"), Str("high")]

  /** The rows, and the `columns` list attached to them (absent when the
      dataset does not expose one). */
  datatype Dataset = Dataset(rows: seq<Row>, columns: Option<seq<string>>)

  datatype FeatureType = C | Q | T

  /** A feature descriptor.  A temporal feature has no values, extent or
      thresholds. */
  datatype Feature =
    | Categorical(name: string, values: seq<Value>)
    | Quantitative(name: string, values: seq<Value>, extent: Extent, thresholds: seq<real>)
    | Temporal(name: string)

  datatype Metadata = Metadata(
    features: map<string, Feature>,
    featureNames: seq<string>,
    labelColumn: string,
    labelValues: seq<Value>,
    hasPredictions: bool)

  /** `dataset.map(d => d[name])`. */
  function Column(rows: seq<Row>, name: string): seq<Value>
  {
    Keys(rows, Field(name))
  }

  /** The columns other than `label` and `prediction`, in order. */
  function FeatureNames(cols: seq<string>): seq<string>
  {
    if cols == [] then []
    else
      (if cols[0] != LabelColumn && cols[0] != PredictionColumn then [cols[0]] else [])
      + FeatureNames(cols[1..])
  }

  /** The feature names are exactly the columns other than `label` and
      `prediction`, each as often as it occurs among the columns, in their
      column order. */
  lemma {:induction false} FeatureNamesFilter(cols: seq<string>)
    ensures forall x :: x in FeatureNames(cols) <==> x in cols && x != LabelColumn && x != PredictionColumn
    ensures Subsequence(FeatureNames(cols), cols)
    ensures forall x ::
              multiset(FeatureNames(cols))[x] == (if x == LabelColumn || x == PredictionColumn then 0 else multiset(cols)[x])
  {
    if cols != [] {
      FeatureNamesFilter(cols[1..]);
      assert cols == [cols[0]] + cols[1..];
      var r := FeatureNames(cols);
      if cols[0] != LabelColumn && cols[0] != PredictionColumn {
        assert r == [cols[0]] + FeatureNames(cols[1..]);
        assert r[0] == cols[0] && r[1..] == FeatureNames(cols[1..]);
      } else {
        assert r == FeatureNames(cols[1..]);
        if r != [] {
          assert r[0] in FeatureNames(cols[1..]);
        }
      }
    }
  }

  /** JavaScript's `isNaN(v)` on the cell kinds: a number and a valid Date
      (whose numeric value is its time value) are not NaN; strings (other
      than numerals) and `undefined` are. */
  predicate JsIsNaN(v: Value)
  {
    match v
    case Num(_) => false
    case DateV(_, _) => false
    case Str(_) => true
    case Undefined => true
  }

  /** The type test of a column with more than MaxCategories distinct values,
      as written: `!isNaN(values[0])` first, `instanceof Date` second. */
  function ProbeAsWritten(first: Value): FeatureType
  {
    if !JsIsNaN(first) then Q else if first.DateV? then T else C
  }

  /** As written, a valid Date first value already passes the numeric test
      (its numeric value is its time value), so the temporal branch is taken
      only for an Invalid Date, which this model does not represent. */
  lemma TemporalUnreachableAsWritten(time: int, text: string)
    ensures ProbeAsWritten(DateV(time, text)) == Q
    ensures forall v :: ProbeAsWritten(v) != T
  {
  }

  /** The type test as intended: numbers are quantitative, Dates temporal,
      everything else categorical. */
  function Probe(first: Value): (t: FeatureType)
    ensures t == Q <==> first.Num?
    ensures t == T <==> first.DateV?
  {
    if first.Num? then Q else if first.DateV? then T else C
  }

  /** The intended test differs from the written one on Dates only. */
  lemma ProbeDiffersOnDatesOnly(v: Value)
    ensures v.DateV? <==> Probe(v) != ProbeAsWritten(v)
  {
  }

  /** `equalIntervalThresholds`: NumBins - 1 cuts splitting [min, max] into
      NumBins equal intervals. */
  function EqualIntervalThresholds(e: Extent): (t: seq<real>)
    ensures |t| == NumBins - 1
    ensures t[0] - e.min == t[1] - t[0] == e.max - t[1]
    ensures e.min <= e.max ==> e.min <= t[0] <= t[1] <= e.max
  {
    var binSize := (e.max - e.min) / NumBins as real;
    seq(NumBins - 1, i requires 0 <= i < NumBins - 1 => e.min + (i + 1) as real * binSize)
  }

  /** `quantileThresholds`: the 1/NumBins, ..., (NumBins-1)/NumBins quantiles. */
  function QuantileThresholds(nums: seq<real>): (t: seq<real>)
    requires |nums| > 0
    ensures |t| == NumBins - 1
    ensures MinOf(nums) <= t[0] <= t[1] <= MaxOf(nums)
  {
    var sorted := SortNumbers(nums);
    var t := seq(NumBins - 1, i requires 0 <= i < NumBins - 1 => Quantile(sorted, (i + 1) as real / NumBins as real));
    assert t[0] == Quantile(sorted, 1.0 / 3.0);
    assert t[1] == Quantile(sorted, 2.0 / 3.0);
    QuantileBounds(sorted, 1.0 / 3.0, 2.0 / 3.0);
    SortedEnds(nums, sorted);
    t
  }

  /** The descriptor of one column (the body of the fold in `getMetadata`). */
  function Classify(rows: seq<Row>, name: string, splitType: string): (f: Feature)
    ensures f.name == name
  {
    var values := Column(rows, name);
    var unique := DefaultSort(Distinct(values));
    if |unique| <= MaxCategories then Categorical(name, unique)
    else
      match Probe(values[0])
      case Q =>
        var nums := Numbers(values);
        var extent := ExtentOf(nums);
        Quantitative(name, Verbs, extent,
          if splitType == "interval" then EqualIntervalThresholds(extent) else QuantileThresholds(nums))
      case T => Temporal(name)
      case C => Categorical(name, unique)
  }

  /** A column with at most MaxCategories distinct values is categorical, and
      its values are its distinct values, each once, in default sort order. */
  lemma CategoricalValues(rows: seq<Row>, name: string, splitType: string)
    requires |Distinct(Column(rows, name))| <= MaxCategories
    ensures Classify(rows, name, splitType).Categorical?
    ensures var f := Classify(rows, name, splitType);
      && (forall v :: v in f.values <==> v in Column(rows, name))
      && NoDup(f.values)
      && Sorting.SortedBy(f.values, SortLe)
  {
    CategoricalValuesAreDistinct(Column(rows, name));
  }

  lemma CategoricalValuesAreDistinct(values: seq<Value>)
    ensures var s := DefaultSort(Distinct(values));
      && (forall v :: v in s <==> v in values)
      && NoDup(s)
  {
    var d := Distinct(values);
    var s := DefaultSort(d);
    NoDupPermutation(d, s);
    forall v ensures v in s <==> v in values {
      assert v in s <==> v in multiset(s);
      assert v in d <==> v in multiset(d);
    }
  }

  /** A column with more distinct values whose first value is neither a
      number nor a Date falls back to categorical, with the same values a
      small column would get. */
  lemma FallbackCategorical(rows: seq<Row>, name: string, splitType: string)
    requires |Distinct(Column(rows, name))| > MaxCategories
    requires var v := Column(rows, name)[0]; !v.Num? && !v.DateV?
    ensures Classify(rows, name, splitType).Categorical?
    ensures var f := Classify(rows, name, splitType);
      && (forall v :: v in f.values <==> v in Column(rows, name))
      && NoDup(f.values)
      && Sorting.SortedBy(f.values, SortLe)
  {
    CategoricalValuesAreDistinct(Column(rows, name));
  }

  /** A column with more distinct values whose first value is a Date is
      temporal. */
  lemma TemporalColumn(rows: seq<Row>, name: string, splitType: string)
    requires |Distinct(Column(rows, name))| > MaxCategories
    requires Column(rows, name)[0].DateV?
    ensures Classify(rows, name, splitType) == Temporal(name)
  {
  }

  /** A column with more distinct values whose first value is a number is
      quantitative: bins low/medium/high, the extent is the least and the
      greatest number of the column, and there are NumBins - 1 ascending
      thresholds inside the extent. */
  lemma QuantitativeColumn(rows: seq<Row>, name: string, splitType: string)
    requires |Distinct(Column(rows, name))| > MaxCategories
    requires Column(rows, name)[0].Num?
    ensures Classify(rows, name, splitType).Quantitative?
    ensures var f := Classify(rows, name, splitType);
      && f.values == Verbs
      && Num(f.extent.min) in Column(rows, name)
      && Num(f.extent.max) in Column(rows, name)
      && (forall x :: Num(x) in Column(rows, name) ==> f.extent.min <= x <= f.extent.max)
      && |f.thresholds| == NumBins - 1
      && f.extent.min <= f.thresholds[0] <= f.thresholds[1] <= f.extent.max
      && (splitType == "interval" ==> f.thresholds == EqualIntervalThresholds(f.extent))
      && (splitType != "interval" ==> f.thresholds == QuantileThresholds(Numbers(Column(rows, name))))
  {
    var values := Column(rows, name);
    var nums := Numbers(values);
    var e := ExtentOf(nums);
    var f := Classify(rows, name, splitType);
    if splitType != "interval" {
      var t := QuantileThresholds(nums);
      assert MinOf(nums) <= t[0] && t[1] <= MaxOf(nums);
    }
  }

  lemma SortedEnds(nums: seq<real>, sorted: seq<real>)
    requires |nums| > 0 && multiset(sorted) == multiset(nums)
    ensures MinOf(nums) <= sorted[0] && sorted[|sorted| - 1] <= MaxOf(nums)
  {
    assert |multiset(sorted)| == |multiset(nums)|;
    var a, b := sorted[0], sorted[|sorted| - 1];
    assert a in multiset(sorted) && b in multiset(sorted);
    assert a in nums && b in nums;
    MinOfBelow(nums, a);
    MaxOfAbove(nums, b);
  }

  lemma MinOfBelow(nums: seq<real>, x: real)
    requires x in nums
    ensures MinOf(nums) <= x
  {
  }

  lemma MaxOfAbove(nums: seq<real>, x: real)
    requires x in nums
    ensures x <= MaxOf(nums)
  {
  }

  /** The `reduce` over the feature names: each name mapped to its descriptor. */
  function FoldFeatures(names: seq<string>, rows: seq<Row>, splitType: string, acc: map<string, Feature>): (r: map<string, Feature>)
    ensures r.Keys == acc.Keys + set n | n in names
  {
    if names == [] then acc
    else
      assert names == [names[0]] + names[1..];
      FoldFeatures(names[1..], rows, splitType, acc[names[0] := Classify(rows, names[0], splitType)])
  }

  /** The fold adds exactly the names, each with its own descriptor, and
      keeps the entries it started with for the other keys. */
  lemma {:induction false} FoldFeaturesContents(names: seq<string>, rows: seq<Row>, splitType: string, acc: map<string, Feature>)
    ensures FoldFeatures(names, rows, splitType, acc).Keys == acc.Keys + set n | n in names
    ensures forall k :: k in names ==> FoldFeatures(names, rows, splitType, acc)[k] == Classify(rows, k, splitType)
    ensures forall k :: k in acc && k !in names ==> FoldFeatures(names, rows, splitType, acc)[k] == acc[k]
  {
    if names != [] {
      var acc' := acc[names[0] := Classify(rows, names[0], splitType)];
      FoldFeaturesContents(names[1..], rows, splitType, acc');
      assert names == [names[0]] + names[1..];
    }
  }

  /** `getMetadata(dataset, splitType)`: null without a dataset or without
      its `columns` list. */
  function GetMetadata(dataset: Option<Dataset>, splitType: string): (r: Option<Metadata>)
    ensures r.None? <==> dataset.None? || dataset.value.columns.None?
    ensures r.Some? ==> r.value.labelColumn == LabelColumn
    ensures r.Some? ==> (r.value.hasPredictions <==> PredictionColumn in dataset.value.columns.value)
  {
    if dataset.None? || dataset.value.columns.None? then None
    else
      var rows := dataset.value.rows;
      var cols := dataset.value.columns.value;
      var names := FeatureNames(cols);
      Some(Metadata(
        FoldFeatures(names, rows, splitType, map[]),
        names,
        LabelColumn,
        Distinct(Column(rows, LabelColumn)),
        PredictionColumn in cols))
  }

  /** The feature names are the columns without `label` and `prediction`,
      in column order; every one of them, and nothing else, has exactly one
      descriptor, named after its key and classified from its column. */
  lemma GetMetadataFeatures(ds: Dataset, splitType: string)
    requires ds.columns.Some?
    ensures var md := GetMetadata(Some(ds), splitType).value;
      && (forall x :: x in md.featureNames <==> x in ds.columns.value && x != LabelColumn && x != PredictionColumn)
      && Subsequence(md.featureNames, ds.columns.value)
      && md.features.Keys == (set n | n in md.featureNames)
      && (forall k :: k in md.features ==> md.features[k].name == k && md.features[k] == Classify(ds.rows, k, splitType))
  {
    FeatureNamesFilter(ds.columns.value);
    FoldFeaturesContents(FeatureNames(ds.columns.value), ds.rows, splitType, map[]);
  }

  /** The label values are the values of the `label` column, each once, in
      the order of their first row. */
  lemma GetMetadataLabelValues(ds: Dataset, splitType: string)
    requires ds.columns.Some?
    ensures var md := GetMetadata(Some(ds), splitType).value;
      && NoDup(md.labelValues)
      && (forall v :: v in md.labelValues <==> v in Column(ds.rows, LabelColumn))
      && (forall i, j :: 0 <= i < j < |md.labelValues| ==>
            FirstIndex(Column(ds.rows, LabelColumn), md.labelValues[i]) < FirstIndex(Column(ds.rows, LabelColumn), md.labelValues[j]))
  {
    DistinctFirstSeen(Column(ds.rows, LabelColumn));
  }
}
