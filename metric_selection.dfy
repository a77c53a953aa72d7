/**
 * `find_best_metric_column` (accounts/utils.py): the first preferred name
 * whose column is numeric enough, else the last column with the highest
 * numeric ratio when that ratio reaches one half, else nothing.
 */
module MetricSelection {
  import opened Results
  import opened Columns

  /** `{h: i for i, h in enumerate(headers)}`: a later duplicate overwrites
      an earlier one, so every name maps to its last position. */
  function NameToIndex(headers: seq<string>): (m: map<string, nat>)
    ensures forall name :: name in m ==> m[name] < |headers|
  {
    if headers == [] then map[]
    else NameToIndex(headers[..|headers| - 1])[headers[|headers| - 1] := |headers| - 1]
  }

  /** The map holds exactly the header names, each at the last position
      that carries it. */
  lemma {:induction false} NameToIndexSpec(headers: seq<string>, name: string)
    ensures name in NameToIndex(headers) <==> name in headers
    ensures name in NameToIndex(headers) ==>
      var i := NameToIndex(headers)[name];
      headers[i] == name && forall j :: i < j < |headers| ==> headers[j] != name
  {
    if headers != [] {
      var init := headers[..|headers| - 1];
      NameToIndexSpec(init, name);
      assert headers == init + [headers[|headers| - 1]];
    }
  }

  /** A duplicated header is looked up at its later position: headers
      "x", "y", "x" send "x" to position 2. */
  lemma DuplicateNameTakesLastIndex(headers: seq<string>)
    requires headers == ["x", "y", "x"]
    ensures NameToIndex(headers)["x"] == 2
  {
    NameToIndexSpec(headers, "x");
  }

  /** `is_numeric_enough(idx) >= 0.5` for the column of `name`, when the
      name is a header. */
  predicate NumericEnough(headers: seq<string>, sample: seq<seq<string>>, name: string) {
    name in NameToIndex(headers) && ColumnRatio(sample, NameToIndex(headers)[name]) >= 0.5
  }

  /** Whether `name` passes, read off the looked-up positions and the
      column ratios. */
  predicate Passes(nameToIdx: map<string, nat>, rs: seq<real>, name: string) {
    name in nameToIdx && nameToIdx[name] < |rs| && rs[nameToIdx[name]] >= 0.5
  }

  /** Which preferred names pass. */
  function Qualified(nameToIdx: map<string, nat>, rs: seq<real>, names: seq<string>): (flags: seq<bool>)
    ensures |flags| == |names|
    ensures forall i :: 0 <= i < |names| ==> flags[i] == Passes(nameToIdx, rs, names[i])
  {
    seq(|names|, i requires 0 <= i < |names| => Passes(nameToIdx, rs, names[i]))
  }

  /** Reading a name's ratio off the ratio list is computing it. */
  lemma PassesIsNumericEnough(headers: seq<string>, sample: seq<seq<string>>, name: string)
    ensures Passes(NameToIndex(headers), Ratios(sample, |headers|), name) == NumericEnough(headers, sample, name)
  {
  }

  /** What `find_best_metric_column` returns. */
  function BestMetric(headers: seq<string>, rows: seq<seq<string>>, preferred: Option<seq<string>>): (r: Option<string>)
    ensures headers == [] || rows == [] ==> r == None
  {
    if headers == [] || rows == [] then None
    else
      var rs := Ratios(Sample(rows), |headers|);
      var names := if preferred.Some? then preferred.value else [];
      match FirstSet(Qualified(NameToIndex(headers), rs, names), 0)
      case Some(i) => Some(names[i])
      case None =>
        match LastBest(rs)
        case Some(k) => Some(headers[k])
        case None => None
  }

  /** The first preferred name that is a header with a ratio of at least
      one half wins, whatever the other columns hold. */
  lemma PreferredNameWins(headers: seq<string>, rows: seq<seq<string>>, names: seq<string>, i: nat)
    requires headers != [] && rows != []
    requires i < |names| && NumericEnough(headers, Sample(rows), names[i])
    requires forall j :: 0 <= j < i ==> !NumericEnough(headers, Sample(rows), names[j])
    ensures BestMetric(headers, rows, Some(names)) == Some(names[i])
    ensures names[i] in headers
  {
    var sample := Sample(rows);
    var flags := Qualified(NameToIndex(headers), Ratios(sample, |headers|), names);
    forall j | 0 <= j <= i
      ensures flags[j] == NumericEnough(headers, sample, names[j])
    {
      PassesIsNumericEnough(headers, sample, names[j]);
    }
    FirstSetSpec(flags, 0);
    NameToIndexSpec(headers, names[i]);
  }

  /** No preferred name passes. */
  predicate NonePasses(headers: seq<string>, sample: seq<seq<string>>, preferred: Option<seq<string>>) {
    preferred.Some? ==>
      forall j :: 0 <= j < |preferred.value| ==> !NumericEnough(headers, sample, preferred.value[j])
  }

  lemma NoFlagSet(headers: seq<string>, rows: seq<seq<string>>, preferred: Option<seq<string>>)
    requires headers != [] && rows != []
    requires NonePasses(headers, Sample(rows), preferred)
    ensures FirstSet(Qualified(NameToIndex(headers), Ratios(Sample(rows), |headers|),
      if preferred.Some? then preferred.value else []), 0) == None
  {
    var sample := Sample(rows);
    var names := if preferred.Some? then preferred.value else [];
    var flags := Qualified(NameToIndex(headers), Ratios(sample, |headers|), names);
    forall j | 0 <= j < |names|
      ensures !flags[j]
    {
      PassesIsNumericEnough(headers, sample, names[j]);
    }
    FirstSetSpec(flags, 0);
  }

  /** When no preferred name passes and every column's ratio is below one
      half, there is no metric column, and only then. */
  lemma FallbackFindsNothing(headers: seq<string>, rows: seq<seq<string>>, preferred: Option<seq<string>>)
    requires headers != [] && rows != []
    requires NonePasses(headers, Sample(rows), preferred)
    ensures BestMetric(headers, rows, preferred) == None <==>
      forall c :: 0 <= c < |headers| ==> ColumnRatio(Sample(rows), c) < 0.5
  {
    NoFlagSet(headers, rows, preferred);
    LastBestSpec(Ratios(Sample(rows), |headers|));
  }

  /** When no preferred name passes, the metric is the column whose ratio
      reaches one half, is the highest, and is beaten by every later column:
      the last column with the highest ratio. */
  lemma FallbackToMostNumeric(headers: seq<string>, rows: seq<seq<string>>, preferred: Option<seq<string>>, k: nat)
    requires headers != [] && rows != []
    requires NonePasses(headers, Sample(rows), preferred)
    requires k < |headers| && ColumnRatio(Sample(rows), k) >= 0.5
    requires forall c :: 0 <= c < |headers| ==> ColumnRatio(Sample(rows), c) <= ColumnRatio(Sample(rows), k)
    requires forall c :: k < c < |headers| ==> ColumnRatio(Sample(rows), c) < ColumnRatio(Sample(rows), k)
    ensures BestMetric(headers, rows, preferred) == Some(headers[k])
  {
    NoFlagSet(headers, rows, preferred);
    LastBestUnique(Ratios(Sample(rows), |headers|), k);
  }

  /** One row of `is_numeric_enough`'s loop. */
  method CountRow(sample: seq<seq<string>>, i: nat, idx: nat, total: nat, numeric: nat)
    returns (total': nat, numeric': nat)
    requires i < |sample|
    requires total == |ColumnValues(sample[..i], idx)|
    requires numeric == NumericCount(ColumnValues(sample[..i], idx))
    ensures total' == |ColumnValues(sample[..i + 1], idx)|
    ensures numeric' == NumericCount(ColumnValues(sample[..i + 1], idx))
  {
    var row := sample[i];
    CountsStep(sample, i, idx);
    total', numeric' := total, numeric;
    if idx < |row| {
      total' := total' + 1;
      if IsNumeric(row[idx]) {
        numeric' := numeric' + 1;
      }
    }
  }

  /** `is_numeric_enough`: counts the sampled rows long enough to have the
      column and, among them, those whose cell parses. */
  method NumericRatio(sample: seq<seq<string>>, idx: nat) returns (ratio: real)
    ensures ratio == ColumnRatio(sample, idx)
  {
    var total := 0;
    var numeric := 0;
    var i := 0;
    while i < |sample|
      invariant 0 <= i <= |sample|
      invariant total == |ColumnValues(sample[..i], idx)|
      invariant numeric == NumericCount(ColumnValues(sample[..i], idx))
    {
      total, numeric := CountRow(sample, i, idx, total, numeric);
      i := i + 1;
    }
    assert sample[..i] == sample;
    ratio := Ratio(numeric, total);
  }

  /** The preferred-name loop of `find_best_metric_column`: the position
      of the first name that is a header whose column is numeric enough. */
  method FirstPreferred(sample: seq<seq<string>>, nameToIdx: map<string, nat>, n: nat, names: seq<string>)
    returns (found: Option<nat>)
    requires forall name :: name in nameToIdx ==> nameToIdx[name] < n
    ensures found == FirstSet(Qualified(nameToIdx, Ratios(sample, n), names), 0)
  {
    ghost var flags := Qualified(nameToIdx, Ratios(sample, n), names);
    var i := 0;
    while i < |names|
      invariant 0 <= i <= |names|
      invariant FirstSet(flags, i) == FirstSet(flags, 0)
    {
      var name := names[i];
      if name in nameToIdx {
        var ratio := NumericRatio(sample, nameToIdx[name]);
        if ratio >= 0.5 {
          return Some(i);
        }
      }
      i := i + 1;
    }
    return None;
  }

  /** The fallback loop of `find_best_metric_column`: `>=` lets a later
      column with the same ratio take over. */
  method MostNumericColumn(sample: seq<seq<string>>, n: nat) returns (bestIdx: Option<nat>)
    ensures bestIdx == LastBest(Ratios(sample, n))
  {
    ghost var ratios := Ratios(sample, n);
    bestIdx := None;
    var bestRatio := 0.5;
    var idx := 0;
    while idx < n
      invariant 0 <= idx <= n
      invariant bestIdx == LastBest(ratios[..idx])
      invariant bestRatio == Bar(ratios[..idx], bestIdx)
    {
      var ratio := NumericRatio(sample, idx);
      ScanStep(ratios, idx, bestIdx, bestRatio);
      if ratio >= bestRatio {
        bestRatio := ratio;
        bestIdx := Some(idx);
      }
      idx := idx + 1;
    }
    assert ratios[..idx] == ratios;
  }

  /** `find_best_metric_column`. */
  method FindBestMetricColumn(headers: seq<string>, rows: seq<seq<string>>, preferred: Option<seq<string>>)
    returns (r: Option<string>)
    ensures r == BestMetric(headers, rows, preferred)
  {
    if headers == [] || rows == [] {
      return None;
    }
    var sample := Sample(rows);
    var nameToIdx := NameToIndex(headers);
    var names := if preferred.Some? then preferred.value else [];
    var found := FirstPreferred(sample, nameToIdx, |headers|, names);
    if found.Some? {
      return Some(names[found.value]);
    }
    var bestIdx := MostNumericColumn(sample, |headers|);
    return if bestIdx.Some? then Some(headers[bestIdx.value]) else None;
  }
}
