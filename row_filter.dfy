/**
 * `filter_rows_by_value` (accounts/utils.py): the rows whose cell in the
 * named column equals the wanted value once both are stripped of
 * surrounding whitespace, in their original order.
 */
module RowFilter {
  import opened Results
  import opened Text
  import opened Columns

  /** The row has a cell at `c` that matches `value` after stripping. */
  predicate Matches(row: seq<string>, c: nat, value: string) {
    c < |row| && Strip(row[c]) == Strip(value)
  }

  /** The matching rows, in order. */
  function KeepMatching(rows: seq<seq<string>>, c: nat, value: string): (kept: seq<seq<string>>)
    ensures |kept| <= |rows|
  {
    if rows == [] then []
    else
      var last := rows[|rows| - 1];
      KeepMatching(rows[..|rows| - 1], c, value) + (if Matches(last, c, value) then [last] else [])
  }

  /** What `filter_rows_by_value` returns: nothing without headers, rows or
      the named column; otherwise the rows matching at the column's first
      position. */
  function FilterRowsByValue(headers: seq<string>, rows: seq<seq<string>>, column: string, value: string)
    : (kept: seq<seq<string>>)
    ensures headers == [] || rows == [] || column !in headers ==> kept == []
  {
    if headers == [] || rows == [] then []
    else match IndexOf(headers, column)
      case None => []
      case Some(c) => KeepMatching(rows, c, value)
  }

  /** A row is kept exactly when it is one of the rows and matches. */
  lemma {:induction false} KeepMatchingMembers(rows: seq<seq<string>>, c: nat, value: string, row: seq<string>)
    ensures row in KeepMatching(rows, c, value) <==> row in rows && Matches(row, c, value)
  {
    if rows != [] {
      var init := rows[..|rows| - 1];
      KeepMatchingMembers(init, c, value, row);
      assert rows == init + [rows[|rows| - 1]];
    }
  }

  /** Filtering keeps the order of the rows: it distributes over
      concatenation. */
  lemma {:induction false} KeepMatchingAppend(a: seq<seq<string>>, b: seq<seq<string>>, c: nat, value: string)
    ensures KeepMatching(a + b, c, value) == KeepMatching(a, c, value) + KeepMatching(b, c, value)
  {
    if b == [] {
      assert a + b == a;
    } else {
      var init := b[..|b| - 1];
      assert (a + b)[..|a + b| - 1] == a + init;
      KeepMatchingAppend(a, init, c, value);
    }
  }

  /** Every kept row matches, so filtering again keeps them all. */
  lemma {:induction false} KeepMatchingIdempotent(rows: seq<seq<string>>, c: nat, value: string)
    ensures KeepMatching(KeepMatching(rows, c, value), c, value) == KeepMatching(rows, c, value)
  {
    if rows != [] {
      var init := rows[..|rows| - 1];
      var last := rows[|rows| - 1];
      KeepMatchingIdempotent(init, c, value);
      KeepMatchingAppend(KeepMatching(init, c, value), if Matches(last, c, value) then [last] else [], c, value);
      assert [last][..0] == [];
    }
  }

  /** The result holds exactly the rows with a matching cell in the column's
      first position, when the headers, the rows and the column are there. */
  lemma FilterMembers(headers: seq<string>, rows: seq<seq<string>>, column: string, value: string, c: nat,
                      row: seq<string>)
    requires headers != [] && rows != [] && IndexOf(headers, column) == Some(c)
    ensures row in FilterRowsByValue(headers, rows, column, value) <==>
      row in rows && c < |row| && Strip(row[c]) == Strip(value)
  {
    KeepMatchingMembers(rows, c, value, row);
  }

  /** Filtering the result again by the same column and value changes
      nothing. */
  lemma FilterIdempotent(headers: seq<string>, rows: seq<seq<string>>, column: string, value: string)
    ensures var once := FilterRowsByValue(headers, rows, column, value);
      FilterRowsByValue(headers, once, column, value) == once
  {
    if headers != [] && rows != [] && IndexOf(headers, column).Some? {
      KeepMatchingIdempotent(rows, IndexOf(headers, column).value, value);
    }
  }

  /** Whitespace around the wanted value does not matter. */
  lemma FilterIgnoresPadding(headers: seq<string>, rows: seq<seq<string>>, column: string, pre: string,
                             value: string, post: string)
    requires AllSpace(pre) && AllSpace(post) && Trimmed(value)
    ensures FilterRowsByValue(headers, rows, column, pre + value + post) == FilterRowsByValue(headers, rows, column, value)
  {
    StripOfPadded(pre, value, post);
    StripOfPadded([], value, []);
    assert [] + value + [] == value;
    PaddingInvisible(rows, if IndexOf(headers, column).Some? then IndexOf(headers, column).value else 0,
      pre + value + post, value);
  }

  /** Values that strip alike keep the same rows. */
  lemma {:induction false} PaddingInvisible(rows: seq<seq<string>>, c: nat, v1: string, v2: string)
    requires Strip(v1) == Strip(v2)
    ensures KeepMatching(rows, c, v1) == KeepMatching(rows, c, v2)
  {
    if rows != [] {
      PaddingInvisible(rows[..|rows| - 1], c, v1, v2);
    }
  }
}
