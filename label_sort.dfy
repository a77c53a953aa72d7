/**
 * The last step of `group_and_aggregate` (accounts/utils.py): the stable
 * in-place sort of the result rows by lower-cased group label. The group
 * label is never None (it is a cell of the table), so the key
 * `(x["group"] is None, str(x["group"]).lower())` orders exactly as the
 * lower-cased label does.
 */
module LabelOrder {
  import opened Text

  /** One result row, `{"group": key, "metric": metric}`. */
  datatype GroupMetric = GroupMetric(group: string, metric: real)

  /** The sort key. */
  function Key(x: GroupMetric): (k: string) {
    Lower(x.group)
  }

  /** `a` goes no later than `b`. */
  predicate KeyLe(a: GroupMetric, b: GroupMetric) {
    LexLe(Key(a), Key(b))
  }

  predicate Sorted(s: seq<GroupMetric>) {
    forall i, j :: 0 <= i < j < |s| ==> KeyLe(s[i], s[j])
  }

  predicate AdjacentSorted(s: seq<GroupMetric>) {
    forall i :: 0 < i < |s| ==> KeyLe(s[i - 1], s[i])
  }

  lemma LexLeReflexive(a: string)
    ensures LexLe(a, a)
  {
    if a != [] {
      LexLeReflexive(a[1..]);
    }
  }

  /** Ordering neighbours is ordering every pair. */
  lemma {:induction false} AdjacentSortedIsSorted(s: seq<GroupMetric>)
    requires AdjacentSorted(s)
    ensures Sorted(s)
  {
    if |s| > 1 {
      var init := s[..|s| - 1];
      assert AdjacentSorted(init) by {
        forall i | 0 < i < |init|
          ensures KeyLe(init[i - 1], init[i])
        {
          assert init[i - 1] == s[i - 1] && init[i] == s[i];
        }
      }
      AdjacentSortedIsSorted(init);
      forall i, j | 0 <= i < j < |s|
        ensures KeyLe(s[i], s[j])
      {
        if j < |s| - 1 {
          assert s[i] == init[i] && s[j] == init[j];
        } else if i < |s| - 2 {
          assert KeyLe(init[i], init[|s| - 2]);
          LexLeTransitive(Key(s[i]), Key(s[|s| - 2]), Key(s[j]));
        }
      }
    }
  }

  /** Insert `x` into the sorted `s` after every row whose key is not
      greater than its own, as one step of an insertion sort does. */
  function Insert(x: GroupMetric, s: seq<GroupMetric>): (r: seq<GroupMetric>)
    ensures |r| == |s| + 1
  {
    if s == [] then [x]
    else if KeyLe(s[|s| - 1], x) then s + [x]
    else Insert(x, s[..|s| - 1]) + [s[|s| - 1]]
  }

  /** The stable sort: each row in turn is inserted into the sorted rows
      before it. */
  function LabelSort(s: seq<GroupMetric>): (r: seq<GroupMetric>)
    ensures |r| == |s|
  {
    if s == [] then [] else Insert(s[|s| - 1], LabelSort(s[..|s| - 1]))
  }

  /** Inserting keeps the rows and adds `x`. */
  lemma {:induction false} InsertPermutes(x: GroupMetric, s: seq<GroupMetric>)
    ensures multiset(Insert(x, s)) == multiset(s) + multiset{x}
  {
    if s != [] && !KeyLe(s[|s| - 1], x) {
      var init := s[..|s| - 1];
      InsertPermutes(x, init);
      assert s == init + [s[|s| - 1]];
    }
  }

  /** The last row after inserting is `x` or the old last row. */
  lemma InsertLast(x: GroupMetric, s: seq<GroupMetric>)
    ensures var r := Insert(x, s);
      r[|r| - 1] == x || (s != [] && r[|r| - 1] == s[|s| - 1])
  {
  }

  /** Inserting into a sorted sequence keeps it sorted. */
  lemma {:induction false} InsertSorted(x: GroupMetric, s: seq<GroupMetric>)
    requires AdjacentSorted(s)
    ensures AdjacentSorted(Insert(x, s))
  {
    if s != [] {
      var last := s[|s| - 1];
      var init := s[..|s| - 1];
      if KeyLe(last, x) {
        assert AdjacentSorted(s + [x]) by {
          forall i | 0 < i < |s| + 1
            ensures KeyLe((s + [x])[i - 1], (s + [x])[i])
          {
            if i < |s| {
              assert (s + [x])[i - 1] == s[i - 1] && (s + [x])[i] == s[i];
            }
          }
        }
      } else {
        assert AdjacentSorted(init) by {
          forall i | 0 < i < |init|
            ensures KeyLe(init[i - 1], init[i])
          {
            assert init[i - 1] == s[i - 1] && init[i] == s[i];
          }
        }
        InsertSorted(x, init);
        var r := Insert(x, init);
        InsertLast(x, init);
        assert KeyLe(r[|r| - 1], last) by {
          LexLeTotal(Key(last), Key(x));
          if r[|r| - 1] != x {
            assert r[|r| - 1] == s[|s| - 2] && KeyLe(s[|s| - 2], s[|s| - 1]);
          }
        }
        forall i | 0 < i < |r| + 1
          ensures KeyLe((r + [last])[i - 1], (r + [last])[i])
        {
          if i < |r| {
            assert (r + [last])[i - 1] == r[i - 1] && (r + [last])[i] == r[i];
          }
        }
      }
    }
  }

  /** The sort's result is ordered by lower-cased label. */
  lemma {:induction false} LabelSortSorted(s: seq<GroupMetric>)
    ensures Sorted(LabelSort(s))
    ensures AdjacentSorted(LabelSort(s))
  {
    if s != [] {
      LabelSortSorted(s[..|s| - 1]);
      InsertSorted(s[|s| - 1], LabelSort(s[..|s| - 1]));
    }
    AdjacentSortedIsSorted(LabelSort(s));
  }

  /** The sort's result holds exactly the rows it was given. */
  lemma {:induction false} LabelSortPermutes(s: seq<GroupMetric>)
    ensures multiset(LabelSort(s)) == multiset(s)
  {
    if s != [] {
      var init := s[..|s| - 1];
      var last := s[|s| - 1];
      LabelSortPermutes(init);
      InsertPermutes(last, LabelSort(init));
      assert LabelSort(s) == Insert(last, LabelSort(init));
      assert multiset(s) == multiset(init) + multiset{last} by {
        assert s == init + [last];
      }
    }
  }

  /** The rows whose key is `k`, in their order. */
  function WithKey(s: seq<GroupMetric>, k: string): (r: seq<GroupMetric>)
    ensures |r| <= |s|
  {
    if s == [] then []
    else WithKey(s[..|s| - 1], k) + (if Key(s[|s| - 1]) == k then [s[|s| - 1]] else [])
  }

  lemma {:induction false} WithKeyAppend(a: seq<GroupMetric>, b: seq<GroupMetric>, k: string)
    ensures WithKey(a + b, k) == WithKey(a, k) + WithKey(b, k)
  {
    if b == [] {
      assert a + b == a;
    } else {
      var b' := b[..|b| - 1];
      assert (a + b)[..|a + b| - 1] == a + b';
      WithKeyAppend(a, b', k);
    }
  }

  /** Inserting only ever passes rows with a greater key, so rows with the
      same key as `x` stay before it. */
  lemma {:induction false} WithKeyInsert(x: GroupMetric, s: seq<GroupMetric>, k: string)
    ensures WithKey(Insert(x, s), k) == WithKey(s, k) + (if Key(x) == k then [x] else [])
  {
    if s == [] {
      assert WithKey([x], k) == WithKey([], k) + (if Key(x) == k then [x] else []);
    } else {
      var last := s[|s| - 1];
      var init := s[..|s| - 1];
      if KeyLe(last, x) {
        WithKeyAppend(s, [x], k);
        assert [x][..0] == [];
      } else {
        LexLeReflexive(Key(x));
        assert Key(last) != Key(x);
        WithKeyInsert(x, init, k);
        WithKeyAppend(Insert(x, init), [last], k);
        WithKeyAppend(init, [last], k);
        assert [last][..0] == [];
        assert s == init + [last];
      }
    }
  }

  /** The sort is stable: rows with equal lower-cased labels keep their
      relative order. */
  lemma {:induction false} LabelSortStable(s: seq<GroupMetric>, k: string)
    ensures WithKey(LabelSort(s), k) == WithKey(s, k)
  {
    if s != [] {
      var init := s[..|s| - 1];
      LabelSortStable(init, k);
      WithKeyInsert(s[|s| - 1], LabelSort(init), k);
    }
  }

  /** `x` lands right after the rows whose keys are not greater than its
      own, when every row from `j` on has a greater key. */
  lemma {:induction false} InsertAt(x: GroupMetric, s: seq<GroupMetric>, j: nat)
    requires j <= |s| && (j == 0 || KeyLe(s[j - 1], x))
    requires forall k :: j <= k < |s| ==> !KeyLe(s[k], x)
    ensures Insert(x, s) == s[..j] + [x] + s[j..]
    decreases |s|
  {
    if j < |s| {
      var init := s[..|s| - 1];
      assert init[..j] == s[..j];
      assert j == 0 || init[j - 1] == s[j - 1];
      InsertAt(x, init, j);
      assert init[j..] + [s[|s| - 1]] == s[j..];
    } else {
      assert s[..j] == s;
    }
  }

  /** The shifting loop of one insertion pass: rows of the sorted prefix
      with a key greater than that of `x` move one place right, leaving a
      gap at `j`. */
  method ShiftGreater(a: array<GroupMetric>, i: nat, x: GroupMetric) returns (j: nat)
    requires i < a.Length
    modifies a
    ensures j <= i
    ensures forall k :: 0 <= k < j ==> a[k] == old(a[k])
    ensures forall k :: j < k <= i ==> a[k] == old(a[k - 1])
    ensures forall k :: i < k < a.Length ==> a[k] == old(a[k])
    ensures j == 0 || KeyLe(old(a[j - 1]), x)
    ensures forall k :: j <= k < i ==> !KeyLe(old(a[k]), x)
  {
    j := i;
    while j > 0 && !KeyLe(a[j - 1], x)
      invariant j <= i
      invariant forall k :: 0 <= k < j ==> a[k] == old(a[k])
      invariant forall k :: j < k <= i ==> a[k] == old(a[k - 1])
      invariant forall k :: i < k < a.Length ==> a[k] == old(a[k])
      invariant forall k :: j <= k < i ==> !KeyLe(old(a[k]), x)
    {
      a[j] := a[j - 1];
      j := j - 1;
    }
  }

  /** One pass of the insertion sort: the row at `i` moves left past every
      row of the sorted prefix whose key is greater than its own. */
  method InsertInto(a: array<GroupMetric>, i: nat)
    requires i < a.Length
    modifies a
    ensures a[..i + 1] == Insert(old(a[i]), old(a[..i]))
    ensures forall k :: i < k < a.Length ==> a[k] == old(a[k])
  {
    ghost var sorted := a[..i];
    var x := a[i];
    var j := ShiftGreater(a, i, x);
    a[j] := x;
    InsertAt(x, sorted, j);
    ghost var r := sorted[..j] + [x] + sorted[j..];
    forall k | 0 <= k <= i
      ensures a[k] == r[k]
    {
      if k < j {
        assert r[k] == sorted[k];
      } else if j < k {
        assert r[k] == sorted[j..][k - j - 1] == sorted[k - 1];
      }
    }
    assert a[..i + 1] == r;
  }

  /** `results.sort(key=...)`: an in-place stable insertion sort. */
  method SortByLabel(a: array<GroupMetric>)
    modifies a
    ensures a[..] == LabelSort(old(a[..]))
  {
    ghost var input := a[..];
    var i := 0;
    while i < a.Length
      invariant 0 <= i <= a.Length
      invariant a[..i] == LabelSort(input[..i])
      invariant forall k :: i <= k < a.Length ==> a[k] == input[k]
    {
      InsertInto(a, i);
      assert input[..i + 1][..i] == input[..i];
      i := i + 1;
    }
    assert a[..] == a[..a.Length] && input[..a.Length] == input;
  }

  /** Labels that lower-case alike keep their order: "b", "A", "a" sort to
      "A", "a", "b". */
  lemma SortExample(s: seq<GroupMetric>)
    requires s == [GroupMetric("b", 1.0), GroupMetric("A", 2.0), GroupMetric("a", 3.0)]
    ensures LabelSort(s) == [GroupMetric("A", 2.0), GroupMetric("a", 3.0), GroupMetric("b", 1.0)]
  {
    var b, upper, lower := s[0], s[1], s[2];
    assert Key(b) == "b" && Key(upper) == "a" && Key(lower) == "a";
    assert s[..1] == [b] && s[..2] == [b, upper];
    assert !KeyLe(b, upper) && !KeyLe(b, lower) && KeyLe(upper, lower);
    assert [b, upper][..1] == [b] && [upper, b][..1] == [upper];
    assert LabelSort([b]) == [b];
    assert LabelSort([b, upper]) == Insert(upper, [b]) == [upper, b];
    assert Insert(lower, [upper]) == [upper, lower];
    assert LabelSort(s) == Insert(lower, [upper, b]) == [upper, lower, b];
  }
}
