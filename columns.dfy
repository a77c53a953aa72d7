/**
 * What the column inferencer and the metric selector share: header lookup,
 * the 1000-row sample, the cells of one column, the share of numeric cells
 * in a column, and the "last column reaching the best ratio" scan.
 *
 * Ratios are exact rationals. The source divides floats; as both operands
 * are counts of at most 1000, distinct ratios differ by far more than one
 * rounding step, so every comparison the source makes between two ratios,
 * or between a ratio and 0.5, has the same outcome on the exact values.
 */
module Columns {
  import opened Results
  import opened ValueParser

  /** `headers.index(name)`: the first position holding `name`, if any. */
  function IndexOf(headers: seq<string>, name: string): (r: Option<nat>)
    ensures r.None? <==> name !in headers
    ensures r.Some? ==> r.value < |headers| && headers[r.value] == name
    ensures r.Some? ==> forall j :: 0 <= j < r.value ==> headers[j] != name
  {
    if headers == [] then None
    else if headers[0] == name then Some(0)
    else match IndexOf(headers[1..], name)
      case None => None
      case Some(k) => Some(k + 1)
  }

  const SampleSize := 1000

  /** `rows[:1000]`. */
  function Sample(rows: seq<seq<string>>): (s: seq<seq<string>>)
    ensures |s| <= SampleSize && |s| <= |rows|
    ensures |rows| <= SampleSize ==> s == rows
    ensures |rows| > SampleSize ==> |s| == SampleSize
    ensures s == rows[..|s|]
  {
    if |rows| <= SampleSize then rows else rows[..SampleSize]
  }

  /** Rows past the first thousand never reach the sample. */
  lemma SampleIgnoresTail(rows: seq<seq<string>>, extra: seq<seq<string>>)
    requires |rows| >= SampleSize
    ensures Sample(rows + extra) == Sample(rows)
  {
    assert (rows + extra)[..SampleSize] == rows[..SampleSize];
  }

  /** `_parse_float(cell) is not None`. */
  predicate IsNumeric(cell: string) {
    ParseValue(Some(cell)).Some?
  }

  /** The cells of column `c`, in row order, from the rows long enough to
      have one. */
  function ColumnValues(sample: seq<seq<string>>, c: nat): (vals: seq<string>)
    ensures |vals| <= |sample|
  {
    if sample == [] then []
    else
      var last := sample[|sample| - 1];
      ColumnValues(sample[..|sample| - 1], c) + (if c < |last| then [last[c]] else [])
  }

  /** Column values keep row order: the cells of a longer sample extend
      those of its prefix. */
  lemma {:induction false} ColumnValuesAppend(a: seq<seq<string>>, b: seq<seq<string>>, c: nat)
    ensures ColumnValues(a + b, c) == ColumnValues(a, c) + ColumnValues(b, c)
  {
    if b == [] {
      assert a + b == a;
    } else {
      var b' := b[..|b| - 1];
      assert (a + b)[..|a + b| - 1] == a + b';
      ColumnValuesAppend(a, b', c);
    }
  }

  /** A cell is a column value exactly when some sampled row is long enough
      to hold it. */
  lemma {:induction false} ColumnValuesMembers(sample: seq<seq<string>>, c: nat, cell: string)
    ensures cell in ColumnValues(sample, c) <==>
      exists i :: 0 <= i < |sample| && c < |sample[i]| && sample[i][c] == cell
  {
    if sample != [] {
      var init := sample[..|sample| - 1];
      ColumnValuesMembers(init, c, cell);
      if exists i :: 0 <= i < |sample| && c < |sample[i]| && sample[i][c] == cell {
        var i :| 0 <= i < |sample| && c < |sample[i]| && sample[i][c] == cell;
        if i < |init| {
          assert init[i] == sample[i];
        }
      }
      if exists i :: 0 <= i < |init| && c < |init[i]| && init[i][c] == cell {
        var i :| 0 <= i < |init| && c < |init[i]| && init[i][c] == cell;
        assert sample[i] == init[i];
      }
    }
  }

  /** Adding one row appends that row's cell of column `c`, if it has one. */
  lemma ColumnValuesStep(sample: seq<seq<string>>, i: nat, c: nat)
    requires i < |sample|
    ensures ColumnValues(sample[..i + 1], c) ==
      ColumnValues(sample[..i], c) + (if c < |sample[i]| then [sample[i][c]] else [])
  {
    assert sample[..i + 1][..i] == sample[..i];
  }

  /** `sum(1 for v in vals if _parse_float(v) is not None)`. */
  function NumericCount(vals: seq<string>): (n: nat)
    ensures n <= |vals|
  {
    if vals == [] then 0
    else NumericCount(vals[..|vals| - 1]) + (if IsNumeric(vals[|vals| - 1]) then 1 else 0)
  }

  /** One more cell adds one when it parses. */
  lemma NumericCountStep(vals: seq<string>, v: string)
    ensures NumericCount(vals + [v]) == NumericCount(vals) + (if IsNumeric(v) then 1 else 0)
  {
    assert (vals + [v])[..|vals|] == vals;
  }

  /** Adding one row to the sample adds its cell of column `c`, if it has
      one, to the total, and to the numeric count when that cell parses. */
  lemma CountsStep(sample: seq<seq<string>>, i: nat, c: nat)
    requires i < |sample|
    ensures |ColumnValues(sample[..i + 1], c)| ==
      |ColumnValues(sample[..i], c)| + (if c < |sample[i]| then 1 else 0)
    ensures NumericCount(ColumnValues(sample[..i + 1], c)) ==
      NumericCount(ColumnValues(sample[..i], c)) + (if c < |sample[i]| && IsNumeric(sample[i][c]) then 1 else 0)
  {
    var vals := ColumnValues(sample[..i], c);
    ColumnValuesStep(sample, i, c);
    if c < |sample[i]| {
      NumericCountStep(vals, sample[i][c]);
    } else {
      assert vals + [] == vals;
    }
  }

  /** The count is additive over concatenation. */
  lemma {:induction false} NumericCountAppend(a: seq<string>, b: seq<string>)
    ensures NumericCount(a + b) == NumericCount(a) + NumericCount(b)
  {
    if b != [] {
      var b' := b[..|b| - 1];
      assert (a + b)[..|a + b| - 1] == a + b';
      NumericCountAppend(a, b');
    }
    else {
      assert a + b == a;
    }
  }

  /** The share `numeric / total`, and 0 when nothing was counted. */
  function Ratio(numeric: nat, total: nat): (r: real)
    requires numeric <= total
    ensures 0.0 <= r <= 1.0
    ensures total == 0 ==> r == 0.0
  {
    if total == 0 then 0.0 else numeric as real / total as real
  }

  /** A non-empty ratio times its total gives back the count. */
  lemma RatioTimesTotal(numeric: nat, total: nat)
    requires numeric <= total && total > 0
    ensures Ratio(numeric, total) * total as real == numeric as real
  {
  }

  /** Multiplying by a positive number keeps the order. */
  lemma MulMono(a: real, b: real, t: real)
    requires t > 0.0
    ensures a <= b <==> a * t <= b * t
  {
    assert b * t - a * t == (b - a) * t;
    if a <= b {
      assert (b - a) * t >= 0.0;
    } else {
      assert (a - b) * t > 0.0;
    }
  }

  /** A factor reaches one half exactly when the product reaches half the
      other factor. */
  lemma HalfOfProduct(r: real, t: real, p: real)
    requires t > 0.0 && r * t == p
    ensures r >= 0.5 <==> p >= 0.5 * t
  {
    MulMono(0.5, r, t);
  }

  /** Reaching one half is the integer comparison `2 * numeric >= total`
      on a non-empty count. */
  lemma RatioHalf(numeric: nat, total: nat)
    requires numeric <= total
    ensures Ratio(numeric, total) >= 0.5 <==> total > 0 && 2 * numeric >= total
  {
    if total > 0 {
      RatioTimesTotal(numeric, total);
      HalfOfProduct(Ratio(numeric, total), total as real, numeric as real);
    }
  }

  /** Ratios compare as their cross products. */
  lemma RatioCompare(n1: nat, t1: nat, n2: nat, t2: nat)
    requires n1 <= t1 && n2 <= t2 && t1 > 0 && t2 > 0
    ensures Ratio(n1, t1) <= Ratio(n2, t2) <==> n1 * t2 <= n2 * t1
  {
    var r1, r2 := Ratio(n1, t1), Ratio(n2, t2);
    var a, b := t1 as real, t2 as real;
    RatioTimesTotal(n1, t1);
    RatioTimesTotal(n2, t2);
    MulMono(r1, r2, a * b);
    assert r1 * (a * b) == (r1 * a) * b == (n1 * t2) as real;
    assert r2 * (a * b) == (r2 * b) * a == (n2 * t1) as real;
  }

  /** The share of numeric cells among the sampled cells of column `c`; a
      column no sampled row reaches has ratio 0. */
  function ColumnRatio(sample: seq<seq<string>>, c: nat): (r: real)
    ensures 0.0 <= r <= 1.0
    ensures ColumnValues(sample, c) == [] ==> r == 0.0
  {
    var vals := ColumnValues(sample, c);
    Ratio(NumericCount(vals), |vals|)
  }

  /** The ratios of columns 0 .. n-1. */
  function Ratios(sample: seq<seq<string>>, n: nat): (rs: seq<real>)
    ensures |rs| == n
    ensures forall c :: 0 <= c < n ==> rs[c] == ColumnRatio(sample, c)
  {
    seq(n, c requires 0 <= c < n => ColumnRatio(sample, c))
  }

  /** One more column appends its ratio. */
  lemma RatiosStep(sample: seq<seq<string>>, n: nat)
    ensures Ratios(sample, n + 1) == Ratios(sample, n) + [ColumnRatio(sample, n)]
  {
  }

  /** The bar a ratio must reach in the scan: 0.5 until a column is chosen,
      then the chosen column's ratio. */
  function Bar(rs: seq<real>, chosen: Option<nat>): (b: real)
    requires chosen.Some? ==> chosen.value < |rs|
  {
    if chosen.None? then 0.5 else rs[chosen.value]
  }

  /** The forward scan `if ratio >= best_ratio: best_ratio = ratio; best = idx`
      started from `best_ratio = 0.5`: the column it ends on. */
  function LastBest(rs: seq<real>): (r: Option<nat>)
    ensures r.Some? ==> r.value < |rs|
  {
    if rs == [] then None
    else
      var init := rs[..|rs| - 1];
      var p := LastBest(init);
      if rs[|rs| - 1] >= Bar(init, p) then Some(|rs| - 1) else p
  }

  /** One step of the scan: a ratio reaching the bar takes over and becomes
      the bar; a lower one changes nothing. */
  lemma ScanStep(rs: seq<real>, k: nat, best: Option<nat>, bar: real)
    requires k < |rs| && best == LastBest(rs[..k]) && bar == Bar(rs[..k], best)
    ensures rs[k] >= bar ==> LastBest(rs[..k + 1]) == Some(k) && Bar(rs[..k + 1], Some(k)) == rs[k]
    ensures rs[k] < bar ==> LastBest(rs[..k + 1]) == best && Bar(rs[..k + 1], best) == bar
  {
    assert rs[..k + 1][..k] == rs[..k];
  }

  /** The scan chooses nothing exactly when every ratio is below 0.5;
      otherwise it chooses a column whose ratio is the maximum and at least
      0.5, and the last such column, as `>=` lets a tie take over. */
  lemma {:induction false} LastBestSpec(rs: seq<real>)
    ensures LastBest(rs).None? <==> forall i :: 0 <= i < |rs| ==> rs[i] < 0.5
    ensures LastBest(rs).Some? ==>
      var k := LastBest(rs).value;
      rs[k] >= 0.5 &&
      (forall i :: 0 <= i < |rs| ==> rs[i] <= rs[k]) &&
      (forall i :: k < i < |rs| ==> rs[i] < rs[k])
  {
    if rs != [] {
      var init := rs[..|rs| - 1];
      LastBestSpec(init);
      assert forall i :: 0 <= i < |init| ==> rs[i] == init[i];
    }
  }

  /** The characterization pins the chosen column down: any column that is
      maximal, at least 0.5 and beaten by every later one is the one chosen. */
  lemma LastBestUnique(rs: seq<real>, k: nat)
    requires k < |rs| && rs[k] >= 0.5
    requires forall i :: 0 <= i < |rs| ==> rs[i] <= rs[k]
    requires forall i :: k < i < |rs| ==> rs[i] < rs[k]
    ensures LastBest(rs) == Some(k)
  {
    LastBestSpec(rs);
    var j := LastBest(rs).value;
    assert rs[j] == rs[k];
  }

  /** The first set flag at or after `from`. */
  function FirstSet(flags: seq<bool>, from: nat): (r: Option<nat>)
    ensures r.Some? ==> from <= r.value < |flags|
    decreases |flags| - from
  {
    if from >= |flags| then None
    else if flags[from] then Some(from)
    else FirstSet(flags, from + 1)
  }

  /** The search finds nothing exactly when no flag from `from` on is set,
      and otherwise the first set one. */
  lemma {:induction false} FirstSetSpec(flags: seq<bool>, from: nat)
    ensures FirstSet(flags, from).None? <==> forall c :: from <= c < |flags| ==> !flags[c]
    ensures FirstSet(flags, from).Some? ==>
      flags[FirstSet(flags, from).value] &&
      forall c :: from <= c < FirstSet(flags, from).value ==> !flags[c]
    decreases |flags| - from
  {
    if from < |flags| && !flags[from] {
      FirstSetSpec(flags, from + 1);
    }
  }
}
