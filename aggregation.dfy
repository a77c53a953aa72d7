/**
 * `group_and_aggregate` (accounts/utils.py): rows are bucketed by the exact
 * text of their group cell, in order of first appearance; each bucket's
 * parsed values are reduced with sum, count, avg, min or max; the result
 * rows are then stably sorted by lower-cased label.
 */
module Aggregation {
  import opened Results
  import opened ValueParser
  import opened Columns
  import opened LabelOrder

  /** `parsed if parsed is not None else 0.0`: a cell that does not parse
      counts as 0. */
  function CellValue(cell: string): (v: real)
    ensures !IsNumeric(cell) ==> v == 0.0
    ensures IsNumeric(cell) ==> ParseValue(Some(cell)) == Some(v)
  {
    match ParseValue(Some(cell))
    case Some(x) => x
    case None => 0.0
  }

  /** Python's `sum`. */
  function Sum(vs: seq<real>): (s: real) {
    if vs == [] then 0.0 else Sum(vs[..|vs| - 1]) + vs[|vs| - 1]
  }

  /** Python's `min`: the first value no later value undercuts. */
  function Min(vs: seq<real>): (m: real)
    requires vs != []
  {
    if |vs| == 1 then vs[0]
    else
      var m := Min(vs[..|vs| - 1]);
      if vs[|vs| - 1] < m then vs[|vs| - 1] else m
  }

  /** Python's `max`. */
  function Max(vs: seq<real>): (m: real)
    requires vs != []
  {
    if |vs| == 1 then vs[0]
    else
      var m := Max(vs[..|vs| - 1]);
      if vs[|vs| - 1] > m then vs[|vs| - 1] else m
  }

  /** The minimum is one of the values and no value is smaller. */
  lemma {:induction false} MinSpec(vs: seq<real>)
    requires vs != []
    ensures Min(vs) in vs
    ensures forall v :: v in vs ==> Min(vs) <= v
  {
    if |vs| > 1 {
      var init := vs[..|vs| - 1];
      MinSpec(init);
      assert vs == init + [vs[|vs| - 1]];
    }
  }

  /** The maximum is one of the values and no value is greater. */
  lemma {:induction false} MaxSpec(vs: seq<real>)
    requires vs != []
    ensures Max(vs) in vs
    ensures forall v :: v in vs ==> v <= Max(vs)
  {
    if |vs| > 1 {
      var init := vs[..|vs| - 1];
      MaxSpec(init);
      assert vs == init + [vs[|vs| - 1]];
    }
  }

  /** The reduction of one bucket; an empty bucket gives 0 and an
      unrecognised `agg` sums. */
  function Reduce(agg: string, values: seq<real>): (r: real) {
    if values == [] then 0.0
    else if agg == "count" then |values| as real
    else if agg == "avg" then Sum(values) / |values| as real
    else if agg == "min" then Min(values)
    else if agg == "max" then Max(values)
    else Sum(values)
  }

  /** What each reducer computes on a non-empty bucket: `count` is the
      number of values, `min` and `max` are values of the bucket bounding
      all of them, anything other than the four names is the sum. */
  lemma ReduceSpec(agg: string, values: seq<real>)
    ensures values == [] ==> Reduce(agg, values) == 0.0
    ensures values != [] && agg == "count" ==> Reduce(agg, values) == |values| as real
    ensures values != [] && agg == "min" ==>
      Reduce(agg, values) in values && forall v :: v in values ==> Reduce(agg, values) <= v
    ensures values != [] && agg == "max" ==>
      Reduce(agg, values) in values && forall v :: v in values ==> v <= Reduce(agg, values)
    ensures agg != "count" && agg != "avg" && agg != "min" && agg != "max" ==> Reduce(agg, values) == Sum(values)
  {
    if values != [] {
      MinSpec(values);
      MaxSpec(values);
    }
  }

  /** `avg` is the mean: times the number of values it gives their sum. */
  lemma ReduceAvg(values: seq<real>)
    requires values != []
    ensures Reduce("avg", values) * |values| as real == Sum(values)
  {
    var n := |values| as real;
    assert Reduce("avg", values) == Sum(values) / n;
  }

  /** Every row has a cell at position `c`. */
  predicate Reach(rows: seq<seq<string>>, c: nat) {
    forall i :: 0 <= i < |rows| ==> c < |rows[i]|
  }

  /** The group cells, one per row. */
  function GroupCells(rows: seq<seq<string>>, g: nat): (cells: seq<string>)
    requires Reach(rows, g)
    ensures |cells| == |rows|
    ensures forall i :: 0 <= i < |rows| ==> cells[i] == rows[i][g]
  {
    seq(|rows|, i requires 0 <= i < |rows| => rows[i][g])
  }

  /** The parsed value cells, one per row. */
  function Values(rows: seq<seq<string>>, v: nat): (vals: seq<real>)
    requires Reach(rows, v)
    ensures |vals| == |rows|
  {
    if rows == [] then [] else Values(rows[..|rows| - 1], v) + [CellValue(rows[|rows| - 1][v])]
  }

  /** The value of row `i` is its parsed cell. */
  lemma {:induction false} ValuesAt(rows: seq<seq<string>>, v: nat, i: nat)
    requires Reach(rows, v) && i < |rows|
    ensures Values(rows, v)[i] == CellValue(rows[i][v])
    decreases |rows|
  {
    if i < |rows| - 1 {
      ValuesAt(rows[..|rows| - 1], v, i);
    }
  }

  /** The dict's keys in insertion order: the distinct keys in order of
      first appearance. */
  function Labels(keys: seq<string>): (ls: seq<string>) {
    if keys == [] then []
    else
      var ks := Labels(keys[..|keys| - 1]);
      var key := keys[|keys| - 1];
      if key in ks then ks else ks + [key]
  }

  /** The labels are exactly the keys. */
  lemma {:induction false} LabelsMembers(keys: seq<string>, key: string)
    ensures key in Labels(keys) <==> key in keys
  {
    if keys != [] {
      var init := keys[..|keys| - 1];
      LabelsMembers(init, key);
      assert keys == init + [keys[|keys| - 1]];
    }
  }

  /** Each label appears once. */
  lemma {:induction false} LabelsDistinct(keys: seq<string>)
    ensures forall i, j :: 0 <= i < j < |Labels(keys)| ==> Labels(keys)[i] != Labels(keys)[j]
  {
    if keys != [] {
      LabelsDistinct(keys[..|keys| - 1]);
    }
  }

  /** Labels are in order of first appearance: the labels of the first `n`
      keys start the labels of all keys. */
  lemma {:induction false} LabelsPrefix(keys: seq<string>, n: nat)
    requires n <= |keys|
    ensures Labels(keys[..n]) <= Labels(keys)
    decreases |keys| - n
  {
    if n < |keys| {
      assert keys[..n + 1][..n] == keys[..n];
      LabelsPrefix(keys, n + 1);
    } else {
      assert keys[..n] == keys;
    }
  }

  /** The values of the rows whose key is `key`, in row order. */
  function Bucket(keys: seq<string>, vals: seq<real>, key: string): (b: seq<real>)
    requires |keys| == |vals|
    ensures |b| <= |keys|
  {
    if keys == [] then []
    else
      var n := |keys| - 1;
      Bucket(keys[..n], vals[..n], key) + (if keys[n] == key then [vals[n]] else [])
  }

  /** A bucket holds one value per row carrying its key. */
  lemma {:induction false} BucketSize(keys: seq<string>, vals: seq<real>, key: string)
    requires |keys| == |vals|
    ensures |Bucket(keys, vals, key)| == multiset(keys)[key]
  {
    if keys != [] {
      var n := |keys| - 1;
      BucketSize(keys[..n], vals[..n], key);
      assert keys == keys[..n] + [keys[n]];
    }
  }

  /** A bucket holds exactly the values of the rows carrying its key. */
  lemma {:induction false} BucketMembers(keys: seq<string>, vals: seq<real>, key: string, x: real)
    requires |keys| == |vals|
    ensures x in Bucket(keys, vals, key) <==> exists i :: 0 <= i < |keys| && keys[i] == key && vals[i] == x
  {
    if keys != [] {
      var n := |keys| - 1;
      var ks, vs := keys[..n], vals[..n];
      BucketMembers(ks, vs, key, x);
      var tail := if keys[n] == key then [vals[n]] else [];
      assert Bucket(keys, vals, key) == Bucket(ks, vs, key) + tail;
      if x in Bucket(ks, vs, key) {
        var i :| 0 <= i < n && ks[i] == key && vs[i] == x;
        assert keys[i] == key && vals[i] == x;
      } else if x in tail {
        assert keys[n] == key && vals[n] == x;
      }
      if exists i :: 0 <= i < |keys| && keys[i] == key && vals[i] == x {
        var i :| 0 <= i < |keys| && keys[i] == key && vals[i] == x;
        if i < n {
          assert ks[i] == key && vs[i] == x;
        } else {
          assert x in tail;
        }
      }
    }
  }

  /** A key no row carries has an empty bucket. */
  lemma {:induction false} EmptyBucket(keys: seq<string>, vals: seq<real>, key: string)
    requires |keys| == |vals| && key !in keys
    ensures Bucket(keys, vals, key) == []
  {
    if keys != [] {
      var n := |keys| - 1;
      assert key !in keys[..n];
      EmptyBucket(keys[..n], vals[..n], key);
    }
  }

  /** One result row per label, in label order, before sorting. */
  function Grouped(keys: seq<string>, vals: seq<real>, agg: string): (r: seq<GroupMetric>)
    requires |keys| == |vals|
    ensures |r| == |Labels(keys)|
    ensures forall i :: 0 <= i < |r| ==>
      r[i] == GroupMetric(Labels(keys)[i], Reduce(agg, Bucket(keys, vals, Labels(keys)[i])))
  {
    var ks := Labels(keys);
    seq(|ks|, i requires 0 <= i < |ks| => GroupMetric(ks[i], Reduce(agg, Bucket(keys, vals, ks[i]))))
  }

  /** What the source demands of its rows: both looked-up columns exist in
      every row (the model's stand-in for the IndexError it would raise). */
  predicate RowsReach(headers: seq<string>, rows: seq<seq<string>>, groupCol: string, aggCol: string) {
    IndexOf(headers, groupCol).Some? && IndexOf(headers, aggCol).Some? ==>
      Reach(rows, IndexOf(headers, groupCol).value) && Reach(rows, IndexOf(headers, aggCol).value)
  }

  /** What `group_and_aggregate` returns. */
  function Aggregate(headers: seq<string>, rows: seq<seq<string>>, groupCol: string, aggCol: string, agg: string)
    : (r: seq<GroupMetric>)
    requires RowsReach(headers, rows, groupCol, aggCol)
    ensures headers == [] || groupCol !in headers || aggCol !in headers ==> r == []
  {
    if headers == [] then []
    else match (IndexOf(headers, groupCol), IndexOf(headers, aggCol))
      case (Some(g), Some(v)) => LabelSort(Grouped(GroupCells(rows, g), Values(rows, v), agg))
      case _ => []
  }

  /** No two rows share a label. */
  predicate DistinctGroups(s: seq<GroupMetric>) {
    forall i, j :: 0 <= i < j < |s| ==> s[i].group != s[j].group
  }

  /** A sequence with two equal elements counts that element twice. */
  lemma TwiceCounted(s: seq<GroupMetric>, i: nat, j: nat)
    requires i < j < |s| && s[i] == s[j]
    ensures multiset(s)[s[i]] >= 2
  {
    assert s == s[..j] + [s[j]] + s[j + 1..];
    assert s[i] in s[..j];
  }

  /** A sequence of rows with distinct labels counts each row once. */
  lemma {:induction false} DistinctCountedOnce(s: seq<GroupMetric>, x: GroupMetric)
    requires DistinctGroups(s)
    ensures multiset(s)[x] <= 1
  {
    if s != [] {
      var init := s[..|s| - 1];
      DistinctCountedOnce(init, x);
      assert s == init + [s[|s| - 1]];
      if x == s[|s| - 1] {
        assert x !in init;
      }
    }
  }

  /** A rearrangement of rows with distinct labels has distinct labels. */
  lemma PermutedDistinct(r: seq<GroupMetric>, s: seq<GroupMetric>)
    requires multiset(r) == multiset(s) && DistinctGroups(s)
    ensures DistinctGroups(r)
  {
    forall i, j | 0 <= i < j < |r|
      ensures r[i].group != r[j].group
    {
      assert r[i] in multiset(s) && r[j] in multiset(s);
      var m :| 0 <= m < |s| && s[m] == r[i];
      var n :| 0 <= n < |s| && s[n] == r[j];
      if r[i].group == r[j].group {
        assert m == n;
        TwiceCounted(r, i, j);
        DistinctCountedOnce(s, r[i]);
        assert false;
      }
    }
  }

  /** The unsorted rows carry distinct labels. */
  lemma GroupedDistinct(keys: seq<string>, vals: seq<real>, agg: string)
    requires |keys| == |vals|
    ensures DistinctGroups(Grouped(keys, vals, agg))
  {
    LabelsDistinct(keys);
  }

  /** A row is an unsorted row exactly when its label is a key and its
      metric the reduction of that key's bucket. */
  lemma GroupedRow(keys: seq<string>, vals: seq<real>, agg: string, x: GroupMetric)
    requires |keys| == |vals|
    ensures x in Grouped(keys, vals, agg) <==> x.group in keys && x.metric == Reduce(agg, Bucket(keys, vals, x.group))
  {
    var grouped := Grouped(keys, vals, agg);
    var ks := Labels(keys);
    LabelsMembers(keys, x.group);
    if x.group in ks && x.metric == Reduce(agg, Bucket(keys, vals, x.group)) {
      var m :| 0 <= m < |ks| && ks[m] == x.group;
      assert grouped[m] == x;
    }
  }

  /** The result of `group_and_aggregate`: one row per distinct group cell
      (exact, case-sensitive text), each label once, each metric the
      reduction of that label's bucket; sorted by lower-cased label, and
      rows whose labels lower-case alike stay in order of first appearance. */
  lemma AggregateResult(headers: seq<string>, rows: seq<seq<string>>, groupCol: string, aggCol: string,
                        agg: string, g: nat, v: nat)
    requires RowsReach(headers, rows, groupCol, aggCol)
    requires headers != [] && IndexOf(headers, groupCol) == Some(g) && IndexOf(headers, aggCol) == Some(v)
    ensures var r := Aggregate(headers, rows, groupCol, aggCol, agg);
      var keys := GroupCells(rows, g);
      var vals := Values(rows, v);
      |r| == |Labels(keys)| &&
      (forall x :: x in r <==> x.group in keys && x.metric == Reduce(agg, Bucket(keys, vals, x.group))) &&
      DistinctGroups(r) &&
      Sorted(r) &&
      (forall k :: WithKey(r, k) == WithKey(Grouped(keys, vals, agg), k))
  {
    var keys := GroupCells(rows, g);
    var vals := Values(rows, v);
    var grouped := Grouped(keys, vals, agg);
    var r := LabelSort(grouped);
    LabelSortSorted(grouped);
    LabelSortPermutes(grouped);
    GroupedDistinct(keys, vals, agg);
    PermutedDistinct(r, grouped);
    forall k {
      LabelSortStable(grouped, k);
    }
    forall x
      ensures x in r <==> x.group in keys && x.metric == Reduce(agg, Bucket(keys, vals, x.group))
    {
      assert x in r <==> x in multiset(grouped);
      GroupedRow(keys, vals, agg, x);
    }
  }

  /** `group_and_aggregate`. */
  method GroupAndAggregate(headers: seq<string>, rows: seq<seq<string>>, groupCol: string, aggCol: string,
                           agg: string) returns (results: seq<GroupMetric>)
    requires RowsReach(headers, rows, groupCol, aggCol)
    ensures results == Aggregate(headers, rows, groupCol, aggCol, agg)
  {
    if headers == [] {
      return [];
    }
    var groupIdx := IndexOf(headers, groupCol);
    var valueIdx := IndexOf(headers, aggCol);
    if groupIdx.None? || valueIdx.None? {
      return [];
    }
    var g, v := groupIdx.value, valueIdx.value;
    var groups, order := Bucketize(rows, g, v);
    var unsorted := ReduceGroups(GroupCells(rows, g), Values(rows, v), groups, order, agg);
    var a := new GroupMetric[|unsorted|](i requires 0 <= i < |unsorted| => unsorted[i]);
    assert a[..] == unsorted;
    SortByLabel(a);
    results := a[..];
  }

  /** The dict of the row loop, as a map and the order of its keys. */
  ghost predicate Filed(keys: seq<string>, vals: seq<real>, groups: map<string, seq<real>>, order: seq<string>)
    requires |keys| == |vals|
  {
    order == Labels(keys) &&
    (forall key :: key in groups <==> key in order) &&
    (forall key :: key in groups ==> groups[key] == Bucket(keys, vals, key))
  }

  /** The row loop: `groups.setdefault(group_key, []).append(num_val)`. */
  method Bucketize(rows: seq<seq<string>>, g: nat, v: nat)
    returns (groups: map<string, seq<real>>, order: seq<string>)
    requires Reach(rows, g) && Reach(rows, v)
    ensures Filed(GroupCells(rows, g), Values(rows, v), groups, order)
  {
    ghost var keys, vals := GroupCells(rows, g), Values(rows, v);
    groups, order := map[], [];
    var i := 0;
    while i < |rows|
      invariant 0 <= i <= |rows|
      invariant Filed(keys[..i], vals[..i], groups, order)
    {
      var row := rows[i];
      var groupKey := row[g];
      var numVal := CellValue(row[v]);
      ValuesAt(rows, v, i);
      groups, order := AddRow(keys, vals, i, groups, order, groupKey, numVal);
      i := i + 1;
    }
    assert keys[..i] == keys && vals[..i] == vals;
  }

  /** One pass of the row loop, `groups.setdefault(group_key,
      []).append(num_val)`: the row's value joins its group, which is
      created (and its key recorded) on first sight. */
  method AddRow(ghost keys: seq<string>, ghost vals: seq<real>, i: nat, groups: map<string, seq<real>>,
                order: seq<string>, groupKey: string, numVal: real)
    returns (groups': map<string, seq<real>>, order': seq<string>)
    requires |keys| == |vals| && i < |keys| && keys[i] == groupKey && vals[i] == numVal
    requires Filed(keys[..i], vals[..i], groups, order)
    ensures Filed(keys[..i + 1], vals[..i + 1], groups', order')
  {
    ghost var ks, vs := keys[..i], vals[..i];
    assert keys[..i + 1] == ks + [groupKey] && vals[..i + 1] == vs + [numVal];
    var bucket := if groupKey in groups then groups[groupKey] else [];
    order' := if groupKey in groups then order else order + [groupKey];
    groups' := groups[groupKey := bucket + [numVal]];
    assert order' == Labels(ks + [groupKey]) by {
      LabelsSnoc(ks, groupKey);
      LabelsMembers(ks, groupKey);
    }
    forall key | key in groups'
      ensures groups'[key] == Bucket(ks + [groupKey], vs + [numVal], key)
    {
      BucketSnoc(ks, vs, groupKey, numVal, key);
      if key == groupKey && groupKey !in groups {
        LabelsMembers(ks, groupKey);
        EmptyBucket(ks, vs, groupKey);
      }
    }
  }

  /** One more key is added to the labels when new. */
  lemma LabelsSnoc(ks: seq<string>, k: string)
    ensures Labels(ks + [k]) == if k in Labels(ks) then Labels(ks) else Labels(ks) + [k]
  {
    assert (ks + [k])[..|ks|] == ks;
  }

  /** One more row extends its own key's bucket and no other. */
  lemma BucketSnoc(ks: seq<string>, vs: seq<real>, k: string, x: real, key: string)
    requires |ks| == |vs|
    ensures Bucket(ks + [k], vs + [x], key) == Bucket(ks, vs, key) + (if k == key then [x] else [])
  {
    assert (ks + [k])[..|ks|] == ks && (vs + [x])[..|vs|] == vs;
  }

  /** The results loop: one row per key, in key order, with the reduced
      bucket. */
  method ReduceGroups(ghost keys: seq<string>, ghost vals: seq<real>, groups: map<string, seq<real>>,
                      order: seq<string>, agg: string) returns (results: seq<GroupMetric>)
    requires |keys| == |vals| && Filed(keys, vals, groups, order)
    ensures results == Grouped(keys, vals, agg)
  {
    results := [];
    var k := 0;
    while k < |order|
      invariant 0 <= k <= |order|
      invariant results == Grouped(keys, vals, agg)[..k]
    {
      var key := order[k];
      var values := groups[key];
      var metric := Reduce(agg, values);
      results := results + [GroupMetric(key, metric)];
      k := k + 1;
    }
  }
}
