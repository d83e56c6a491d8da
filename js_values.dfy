/** The JavaScript values found in the cells of a dataset row, with the two
    JavaScript behaviours the transform depends on: value equality (used by
    `Set`, `d3.groups` and `d3.rollup`) and the default order of
    `Array.prototype.sort`, which compares the string renderings of the
    elements and moves `undefined` to the end. */
module JsValues {
  import Sorting

  datatype Option<T> = None | Some(value: T)

  /** A cell.  The JavaScript type probes of the source (`isNaN`,
      `instanceof Date`) become these constructor tags.  A Date carries its
      time value and its `toString()` rendering, which depends on the host's
      time zone and is therefore an input here.  `Undefined` is what a row
      yields for a column it does not have. */
  datatype Value =
    | Str(s: string)
    | Num(x: real)
    | DateV(time: int, text: string)
    | Undefined

  /** A row of the dataset: column name to cell. */
  type Row = map<string, Value>

  /** `row[column]`: `undefined` for a missing column. */
  function Get(row: Row, column: string): Value
  {
    if column in row then row[column] else Undefined
  }

  function DigitChar(d: int): char
    requires 0 <= d <= 9
  {
    "0123456789"[d]
  }

  function DigitValue(c: char): nat
  {
    if '0' <= c <= '9' then (c - '0') as nat else 0
  }

  /** The decimal numeral of n, without leading zeros. */
  function NatToDecimal(n: nat): (s: string)
    ensures |s| > 0
    ensures forall i :: 0 <= i < |s| ==> '0' <= s[i] <= '9'
    ensures n > 0 ==> s[0] != '0'
  {
    if n < 10 then [DigitChar(n)] else NatToDecimal(n / 10) + [DigitChar(n % 10)]
  }

  /** The number a string of decimal digits denotes. */
  function DecimalValue(s: string): nat
  {
    if s == [] then 0 else DecimalValue(s[..|s| - 1]) * 10 + DigitValue(s[|s| - 1])
  }

  /** Reading back the numeral of n gives n. */
  lemma {:induction false} NatToDecimalRoundTrip(n: nat)
    ensures DecimalValue(NatToDecimal(n)) == n
  {
    if n >= 10 {
      var s := NatToDecimal(n);
      assert s[..|s| - 1] == NatToDecimal(n / 10);
      NatToDecimalRoundTrip(n / 10);
    }
  }

  /** The digits after the decimal point of a fraction f, at most `fuel` of them. */
  function FractionDigits(f: real, fuel: nat): (s: string)
    requires 0.0 <= f < 1.0
    ensures |s| <= fuel
    decreases fuel
  {
    if fuel == 0 || f == 0.0 then ""
    else
      var d := (f * 10.0).Floor;
      [DigitChar(d)] + FractionDigits(f * 10.0 - d as real, fuel - 1)
  }

  /** How many digits of a fraction the rendering keeps. */
  const MaxFractionDigits: nat := 20

  /** `String(x)` for a number: integers exactly, fractions with their
      decimal digits. */
  function NumberText(x: real): string
  {
    if x < 0.0 then "-" + UnsignedText(-x) else UnsignedText(x)
  }

  function UnsignedText(x: real): string
    requires x >= 0.0
  {
    var n := x.Floor;
    NatToDecimal(n) + (if x == n as real then "" else "." + FractionDigits(x - n as real, MaxFractionDigits))
  }

  /** `String(v)`, the key by which the default sort compares values. */
  function Text(v: Value): string
  {
    match v
    case Str(s) => s
    case Num(x) => NumberText(x)
    case DateV(_, text) => text
    case Undefined => "undefined"
  }

  /** Lexicographic order on strings; a proper prefix comes first. */
  predicate TextLe(a: string, b: string)
  {
    |a| == 0 || (|b| > 0 && (a[0] < b[0] || (a[0] == b[0] && TextLe(a[1..], b[1..]))))
  }

  /** The order of the default sort: by string rendering, with `undefined`
      after everything else. */
  predicate SortLe(a: Value, b: Value)
  {
    if b.Undefined? then true
    else if a.Undefined? then false
    else TextLe(Text(a), Text(b))
  }

  lemma {:induction false} TextLeTotal(a: string, b: string)
    ensures TextLe(a, b) || TextLe(b, a)
  {
    if |a| > 0 && |b| > 0 && a[0] == b[0] {
      TextLeTotal(a[1..], b[1..]);
    }
  }

  lemma {:induction false} TextLeTransitive(a: string, b: string, c: string)
    requires TextLe(a, b) && TextLe(b, c)
    ensures TextLe(a, c)
  {
    if |a| > 0 && a[0] == b[0] && b[0] == c[0] {
      TextLeTransitive(a[1..], b[1..], c[1..]);
    }
  }

  /** The default sort order is a total preorder, so sorting by it is well defined. */
  lemma SortLeTotalPreorder()
    ensures Sorting.TotalPreorder(SortLe)
  {
    forall a, b ensures SortLe(a, b) || SortLe(b, a) {
      TextLeTotal(Text(a), Text(b));
    }
    forall a, b, c | SortLe(a, b) && SortLe(b, c) ensures SortLe(a, c) {
      if !c.Undefined? {
        TextLeTransitive(Text(a), Text(b), Text(c));
      }
    }
  }

  /** `Array.prototype.sort()` with no comparator. */
  function DefaultSort(s: seq<Value>): (r: seq<Value>)
    ensures multiset(r) == multiset(s)
    ensures Sorting.SortedBy(r, SortLe)
  {
    SortLeTotalPreorder();
    Sorting.SortBySorted(s, SortLe);
    Sorting.SortBy(s, SortLe)
  }
}
