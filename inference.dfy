/**
 * `infer_default_columns` (accounts/utils.py): from the sampled rows, pick
 * a column to group by (the first mostly non-numeric column with a
 * moderate number of distinct values) and a column to aggregate (the last
 * column with the highest numeric ratio, if that ratio reaches one half).
 */
module Inference {
  import opened Results
  import opened Text
  import opened Columns

  /** `set(v.strip() for v in vals if v.strip())`: the distinct non-blank
      values, trimmed. */
  function Distinct(vals: seq<string>): (d: set<string>)
    ensures forall t :: t in d ==> t != []
  {
    set i | 0 <= i < |vals| && !IsBlank(vals[i]) :: Strip(vals[i])
  }

  /** A trimmed text is a distinct value exactly when some cell strips to it
      and it is not empty. */
  lemma DistinctMembers(vals: seq<string>, t: string)
    ensures t in Distinct(vals) <==> t != [] && exists i :: 0 <= i < |vals| && Strip(vals[i]) == t
  {
    if t != [] && exists i :: 0 <= i < |vals| && Strip(vals[i]) == t {
      var i :| 0 <= i < |vals| && Strip(vals[i]) == t;
      assert !IsBlank(vals[i]);
    }
  }

  const MinGroups := 2
  const MaxGroups := 50

  /** A column fit to group by, from its ratio and its cells: mostly
      non-numeric, with 2 to 50 distinct non-blank values. */
  predicate Candidate(ratio: real, vals: seq<string>) {
    ratio < 0.5 && MinGroups <= |Distinct(vals)| <= MaxGroups
  }

  /** Column `c` of the sample is fit to group by. */
  predicate GroupCandidate(sample: seq<seq<string>>, c: nat) {
    Candidate(ColumnRatio(sample, c), ColumnValues(sample, c))
  }

  /** Which of columns 0 .. n-1 are group candidates. */
  function Candidates(sample: seq<seq<string>>, n: nat): (flags: seq<bool>)
    ensures |flags| == n
    ensures forall c :: 0 <= c < n ==> flags[c] == GroupCandidate(sample, c)
  {
    seq(n, c requires 0 <= c < n => GroupCandidate(sample, c))
  }

  /** The candidate flags read off the ratio list and the collected cells. */
  function CandidateFlags(ratios: seq<real>, columnValues: seq<seq<string>>): (flags: seq<bool>)
    requires |ratios| == |columnValues|
    ensures |flags| == |ratios|
    ensures forall c :: 0 <= c < |ratios| ==> flags[c] == Candidate(ratios[c], columnValues[c])
  {
    seq(|ratios|, c requires 0 <= c < |ratios| => Candidate(ratios[c], columnValues[c]))
  }

  /** With the cells and ratios of the sample, those flags are the
      candidates. */
  lemma CandidateFlagsOfSample(sample: seq<seq<string>>, columnValues: seq<seq<string>>, ratios: seq<real>)
    requires forall c :: 0 <= c < |columnValues| ==> columnValues[c] == ColumnValues(sample, c)
    requires ratios == Ratios(sample, |columnValues|)
    ensures CandidateFlags(ratios, columnValues) == Candidates(sample, |columnValues|)
  {
  }

  /** The group-by column: the first candidate, else column 0. */
  function GroupByColumn(sample: seq<seq<string>>, n: nat): (c: nat)
    requires n > 0
    ensures c < n
  {
    match FirstSet(Candidates(sample, n), 0)
    case Some(k) => k
    case None => 0
  }

  /** The aggregate column: the scan's choice, else column 1 when there is
      one, else column 0. */
  function AggregateColumn(sample: seq<seq<string>>, n: nat): (c: nat)
    requires n > 0
    ensures c < n
  {
    match LastBest(Ratios(sample, n))
    case Some(k) => k
    case None => if n > 1 then 1 else 0
  }

  /** The group-by column is the first column that is mostly non-numeric and
      has 2 to 50 distinct trimmed values; when there is none it is 0. */
  lemma GroupByColumnSpec(sample: seq<seq<string>>, n: nat)
    requires n > 0
    ensures (forall c :: 0 <= c < n ==> !GroupCandidate(sample, c)) ==> GroupByColumn(sample, n) == 0
    ensures (exists c :: 0 <= c < n && GroupCandidate(sample, c)) ==>
      GroupCandidate(sample, GroupByColumn(sample, n)) &&
      forall c :: 0 <= c < GroupByColumn(sample, n) ==> !GroupCandidate(sample, c)
  {
    FirstSetSpec(Candidates(sample, n), 0);
  }

  /** The aggregate column has the highest ratio, at least one half, and
      is the last column with that ratio; when every ratio is below one
      half it is column 1, or column 0 for a single column. */
  lemma AggregateColumnSpec(sample: seq<seq<string>>, n: nat)
    requires n > 0
    ensures (forall c :: 0 <= c < n ==> ColumnRatio(sample, c) < 0.5) ==>
      AggregateColumn(sample, n) == (if n > 1 then 1 else 0)
    ensures (exists c :: 0 <= c < n && ColumnRatio(sample, c) >= 0.5) ==>
      var k := AggregateColumn(sample, n);
      ColumnRatio(sample, k) >= 0.5 &&
      (forall c :: 0 <= c < n ==> ColumnRatio(sample, c) <= ColumnRatio(sample, k)) &&
      (forall c :: k < c < n ==> ColumnRatio(sample, c) < ColumnRatio(sample, k))
  {
    LastBestSpec(Ratios(sample, n));
  }

  /** The nested loop that files every sampled cell under its column. */
  method CollectColumnValues(sample: seq<seq<string>>, n: nat) returns (columnValues: seq<seq<string>>)
    ensures |columnValues| == n
    ensures forall c :: 0 <= c < n ==> columnValues[c] == ColumnValues(sample, c)
  {
    columnValues := seq(n, _ => []);
    var i := 0;
    while i < |sample|
      invariant 0 <= i <= |sample|
      invariant |columnValues| == n
      invariant forall c :: 0 <= c < n ==> columnValues[c] == ColumnValues(sample[..i], c)
    {
      var row := sample[i];
      forall c | 0 <= c < n
        ensures ColumnValues(sample[..i + 1], c) ==
          ColumnValues(sample[..i], c) + (if c < |row| then [row[c]] else [])
      {
        ColumnValuesStep(sample, i, c);
      }
      var j := 0;
      while j < n && j < |row|
        invariant 0 <= j <= n && j <= |row|
        invariant |columnValues| == n
        invariant forall c :: 0 <= c < j ==> columnValues[c] == ColumnValues(sample[..i + 1], c)
        invariant forall c :: j <= c < n ==> columnValues[c] == ColumnValues(sample[..i], c)
      {
        columnValues := columnValues[j := columnValues[j] + [row[j]]];
        j := j + 1;
      }
      i := i + 1;
    }
    assert sample[..i] == sample;
  }

  /** Dividing by 1 in place of an empty total gives the column's ratio,
      0 for an empty column. */
  lemma OneForEmpty(sample: seq<seq<string>>, c: nat, vals: seq<string>)
    requires vals == ColumnValues(sample, c)
    ensures NumericCount(vals) as real / (if vals != [] then |vals| else 1) as real == ColumnRatio(sample, c)
  {
  }

  /** The ratio loop; `total` is 1 for an empty column, so its ratio is 0. */
  method NumericRatios(sample: seq<seq<string>>, columnValues: seq<seq<string>>) returns (ratios: seq<real>)
    requires forall c :: 0 <= c < |columnValues| ==> columnValues[c] == ColumnValues(sample, c)
    ensures ratios == Ratios(sample, |columnValues|)
  {
    ratios := [];
    var c := 0;
    while c < |columnValues|
      invariant 0 <= c <= |columnValues| && |ratios| == c
      invariant ratios == Ratios(sample, c)
    {
      var vals := columnValues[c];
      var total := if vals != [] then |vals| else 1;
      var numeric := NumericCount(vals);
      OneForEmpty(sample, c, vals);
      RatiosStep(sample, c);
      ratios := ratios + [numeric as real / total as real];
      c := c + 1;
    }
  }

  /** The aggregate scan: `>=` lets a later column with the same ratio take
      over. */
  method ScanAggregate(ratios: seq<real>) returns (aggIdx: Option<nat>)
    ensures aggIdx == LastBest(ratios)
  {
    aggIdx := None;
    var bestRatio := 0.5;
    var k := 0;
    while k < |ratios|
      invariant 0 <= k <= |ratios|
      invariant aggIdx == LastBest(ratios[..k])
      invariant bestRatio == Bar(ratios[..k], aggIdx)
    {
      ScanStep(ratios, k, aggIdx, bestRatio);
      if ratios[k] >= bestRatio {
        bestRatio := ratios[k];
        aggIdx := Some(k);
      }
      k := k + 1;
    }
    assert ratios[..k] == ratios;
  }

  /** The group-by search, which stops at the first candidate. */
  method ScanGroupBy(columnValues: seq<seq<string>>, ratios: seq<real>) returns (groupIdx: Option<nat>)
    requires |ratios| == |columnValues|
    ensures groupIdx == FirstSet(CandidateFlags(ratios, columnValues), 0)
  {
    ghost var flags := CandidateFlags(ratios, columnValues);
    groupIdx := None;
    var k := 0;
    while k < |ratios|
      invariant 0 <= k <= |ratios|
      invariant FirstSet(flags, k) == FirstSet(flags, 0)
    {
      if ratios[k] < 0.5 {
        var distinct := Distinct(columnValues[k]);
        if MinGroups <= |distinct| <= MaxGroups {
          groupIdx := Some(k);
          break;
        }
      }
      k := k + 1;
    }
  }

  /** `infer_default_columns`: no suggestion without headers or rows;
      otherwise the names of the inferred group-by and aggregate columns,
      computed from the first 1000 rows only. */
  method InferDefaultColumns(headers: seq<string>, rows: seq<seq<string>>)
    returns (groupBy: Option<string>, agg: Option<string>)
    ensures headers == [] || rows == [] ==> groupBy == None && agg == None
    ensures headers != [] && rows != [] ==>
      groupBy == Some(headers[GroupByColumn(Sample(rows), |headers|)]) &&
      agg == Some(headers[AggregateColumn(Sample(rows), |headers|)])
  {
    if headers == [] || rows == [] {
      return None, None;
    }
    var n := |headers|;
    var sample := Sample(rows);
    var columnValues := CollectColumnValues(sample, n);
    var ratios := NumericRatios(sample, columnValues);
    var aggIdx := ScanAggregate(ratios);
    var groupIdx := ScanGroupBy(columnValues, ratios);
    CandidateFlagsOfSample(sample, columnValues, ratios);

    // fallbacks
    var g, a;
    if groupIdx == None {
      g := 0;
    } else {
      g := groupIdx.value;
    }
    if aggIdx == None {
      a := if n > 1 then 1 else 0;
    } else {
      a := aggIdx.value;
    }
    return Some(headers[g]), Some(headers[a]);
  }

  /** A tie for the highest ratio goes to the later column: with ratios
      0.9, 0.9 and 0.3 the scan settles on the second column. */
  lemma TieGoesToLaterColumn(rs: seq<real>)
    requires rs == [0.9, 0.9, 0.3]
    ensures LastBest(rs) == Some(1)
  {
    LastBestUnique(rs, 1);
  }
}
