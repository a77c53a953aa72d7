/**
 * The sheet fetcher (accounts/utils.py, `build_published_csv_url`,
 * `build_export_csv_url_with_gid`, `fetch_sheet_as_rows`): which URL is
 * fetched, how the outcome of the transfer becomes a result or an error,
 * and how the parsed table is normalized into headers and rows.
 *
 * The HTTP transfer, the UTF-8 decoding of the body and the CSV tokenizer
 * are one function parameter, `transport`, that yields the parsed table or
 * the kind of failure.
 */
module SheetFetch {
  import opened Results
  import opened Text
  import opened PercentEncoding

  /** The three ways a fetch fails. */
  datatype FetchError =
    | ArgumentError
    | TransportError(status: int, reason: string)
    | NetworkError(reason: string)

  /** What the transfer yields: the parsed CSV table, an HTTP error
      (`HTTPError`) or a connection-level error (`URLError`). */
  datatype Transfer =
    | Delivered(table: seq<seq<string>>)
    | HttpFailure(status: int, reason: string)
    | UrlFailure(reason: string)

  /** Headers and data rows. */
  datatype Dataset = Dataset(headers: seq<string>, rows: seq<seq<string>>)

  const SheetsBase := "https://docs.google.com/spreadsheets/d/"

  /** Everything before the quoted worksheet name. */
  function GvizPrefix(sheetId: string): (p: string) {
    SheetsBase + sheetId + "/gviz/tq?tqx=out:csv&sheet="
  }

  /** Everything before the quoted worksheet id. */
  function ExportPrefix(sheetId: string): (p: string) {
    SheetsBase + sheetId + "/export?format=csv&gid="
  }

  /** `build_published_csv_url`: the gviz CSV endpoint of the spreadsheet,
      then the worksheet name as one query value that decodes back to the
      name and holds no '&', '=', '#' or '/' of its own. */
  function PublishedCsvUrl(sheetId: string, sheetName: string): (url: string)
    ensures |GvizPrefix(sheetId)| <= |url| && url[..|GvizPrefix(sheetId)|] == GvizPrefix(sheetId)
    ensures PercentDecode(url[|GvizPrefix(sheetId)|..]) == Some(Utf8(sheetName))
    ensures forall i :: |GvizPrefix(sheetId)| <= i < |url| ==> QuotedChar(url[i])
  {
    var p := GvizPrefix(sheetId);
    QuoteRoundTrip(sheetName);
    QuoteChars(sheetName);
    var url := p + Quote(sheetName);
    assert url[|p|..] == Quote(sheetName);
    url
  }

  /** `build_export_csv_url_with_gid`: the CSV export endpoint, then the
      worksheet id as one query value that decodes back to the id. */
  function ExportCsvUrlWithGid(sheetId: string, gid: string): (url: string)
    ensures |ExportPrefix(sheetId)| <= |url| && url[..|ExportPrefix(sheetId)|] == ExportPrefix(sheetId)
    ensures PercentDecode(url[|ExportPrefix(sheetId)|..]) == Some(Utf8(gid))
    ensures forall i :: |ExportPrefix(sheetId)| <= i < |url| ==> QuotedChar(url[i])
  {
    var p := ExportPrefix(sheetId);
    QuoteRoundTrip(gid);
    QuoteChars(gid);
    var url := p + Quote(gid);
    assert url[|p|..] == Quote(gid);
    url
  }

  /** Different worksheet names give different URLs. */
  lemma PublishedCsvUrlInjective(sheetId: string, a: string, b: string)
    requires PublishedCsvUrl(sheetId, a) == PublishedCsvUrl(sheetId, b)
    ensures a == b
  {
    var p := GvizPrefix(sheetId);
    assert PublishedCsvUrl(sheetId, a)[|p|..] == PublishedCsvUrl(sheetId, b)[|p|..];
    Utf8Injective(a, b);
  }

  /** Different worksheet ids give different URLs. */
  lemma ExportCsvUrlInjective(sheetId: string, a: string, b: string)
    requires ExportCsvUrlWithGid(sheetId, a) == ExportCsvUrlWithGid(sheetId, b)
    ensures a == b
  {
    var p := ExportPrefix(sheetId);
    assert ExportCsvUrlWithGid(sheetId, a)[|p|..] == ExportCsvUrlWithGid(sheetId, b)[|p|..];
    Utf8Injective(a, b);
  }

  /** A worksheet-id URL is never a worksheet-name URL. */
  lemma UrlFormsDiffer(sheetId: string, gid: string, sheetName: string)
    ensures ExportCsvUrlWithGid(sheetId, gid) != PublishedCsvUrl(sheetId, sheetName)
  {
    var head := SheetsBase + sheetId;
    var k := |head| + 1;
    var e, g := "/export?format=csv&gid=", "/gviz/tq?tqx=out:csv&sheet=";
    assert ExportPrefix(sheetId) == head + e && GvizPrefix(sheetId) == head + g;
    assert ExportPrefix(sheetId)[k] == e[1] == 'e';
    assert GvizPrefix(sheetId)[k] == g[1] == 'g';
  }

  /** Python's truth value of an optional string: present and not empty. */
  predicate IsGiven(o: Option<string>) {
    o.Some? && o.value != []
  }

  /** The URL `fetch_sheet_as_rows` requests: by worksheet id whenever one is
      given, else by worksheet name, else an argument error. */
  function SheetUrl(sheetId: string, sheetName: Option<string>, gid: Option<string>): (r: Result<string, FetchError>)
    ensures r.Err? <==> !IsGiven(gid) && !IsGiven(sheetName)
    ensures r.Err? ==> r.error == ArgumentError
    ensures IsGiven(gid) ==> r == Ok(ExportCsvUrlWithGid(sheetId, gid.value))
    ensures !IsGiven(gid) && IsGiven(sheetName) ==> r == Ok(PublishedCsvUrl(sheetId, sheetName.value))
  {
    if IsGiven(gid) then Ok(ExportCsvUrlWithGid(sheetId, gid.value))
    else if !IsGiven(sheetName) then Err(ArgumentError)
    else Ok(PublishedCsvUrl(sheetId, sheetName.value))
  }

  /** Python's `any(cell.strip() for cell in row)`. */
  predicate HasContent(row: seq<string>) {
    exists i :: 0 <= i < |row| && !IsBlank(row[i])
  }

  /** The data rows that have a non-blank cell, in their original order. */
  function KeepNonBlank(rows: seq<seq<string>>): (r: seq<seq<string>>)
    ensures |r| <= |rows|
    ensures forall i :: 0 <= i < |r| ==> HasContent(r[i])
  {
    if rows == [] then []
    else (if HasContent(rows[0]) then [rows[0]] else []) + KeepNonBlank(rows[1..])
  }

  /** Filtering distributes over concatenation: the kept rows of a table
      are those of its parts, in the same order. */
  lemma {:induction false} KeepNonBlankAppend(a: seq<seq<string>>, b: seq<seq<string>>)
    ensures KeepNonBlank(a + b) == KeepNonBlank(a) + KeepNonBlank(b)
  {
    if a == [] {
      assert a + b == b;
    } else {
      var h := if HasContent(a[0]) then [a[0]] else [];
      assert (a + b)[0] == a[0];
      assert (a + b)[1..] == a[1..] + b;
      assert KeepNonBlank(a + b) == h + KeepNonBlank(a[1..] + b);
      KeepNonBlankAppend(a[1..], b);
      assert h + (KeepNonBlank(a[1..]) + KeepNonBlank(b)) == (h + KeepNonBlank(a[1..])) + KeepNonBlank(b);
    }
  }

  /** A row is kept exactly when it has a non-blank cell. */
  lemma {:induction false} KeepNonBlankMembers(rows: seq<seq<string>>, row: seq<string>)
    ensures row in KeepNonBlank(rows) <==> row in rows && HasContent(row)
  {
    if rows != [] {
      KeepNonBlankMembers(rows[1..], row);
      assert rows == [rows[0]] + rows[1..];
    }
  }

  function Blanks(k: nat): (r: seq<string>)
    ensures |r| == k && forall i :: 0 <= i < k ==> r[i] == []
  {
    seq(k, _ => [])
  }

  /** `(row + [""] * (n - len(row)))[:n]`: the row padded with empty cells
      or truncated to exactly `n` cells. */
  function Fit(row: seq<string>, n: nat): (r: seq<string>)
    ensures |r| == n
    ensures |row| >= n ==> r == row[..n]
    ensures |row| < n ==> r == row + Blanks(n - |row|)
  {
    if |row| >= n then row[..n] else row + Blanks(n - |row|)
  }

  function FitAll(rows: seq<seq<string>>, n: nat): (r: seq<seq<string>>)
    ensures |r| == |rows|
    ensures forall i :: 0 <= i < |r| ==> r[i] == Fit(rows[i], n)
  {
    seq(|rows|, i requires 0 <= i < |rows| => Fit(rows[i], n))
  }

  function StripAll(row: seq<string>): (r: seq<string>)
    ensures |r| == |row| && forall i :: 0 <= i < |row| ==> r[i] == Strip(row[i])
  {
    seq(|row|, i requires 0 <= i < |row| => Strip(row[i]))
  }

  /** The post-parse step of `fetch_sheet_as_rows`: an empty table gives no
      headers and no rows; otherwise the headers are the trimmed first row
      and the data rows are the later rows with some content, each fitted
      to the number of headers. */
  function Normalize(table: seq<seq<string>>): (d: Dataset)
    ensures table == [] ==> d == Dataset([], [])
    ensures table != [] ==> d.headers == StripAll(table[0])
    ensures table != [] ==> |d.rows| <= |table| - 1
    ensures forall i :: 0 <= i < |d.rows| ==> |d.rows[i]| == |d.headers|
  {
    if table == [] then Dataset([], [])
    else
      var headers := StripAll(table[0]);
      Dataset(headers, FitAll(KeepNonBlank(table[1..]), |headers|))
  }

  /** Fitting works row by row, so it distributes over concatenation. */
  lemma FitAllAppend(a: seq<seq<string>>, b: seq<seq<string>>, n: nat)
    ensures FitAll(a + b, n) == FitAll(a, n) + FitAll(b, n)
  {
    var l, r := FitAll(a + b, n), FitAll(a, n) + FitAll(b, n);
    forall i | 0 <= i < |l|
      ensures l[i] == r[i]
    {
      if i < |a| {
        assert (a + b)[i] == a[i];
      } else {
        assert (a + b)[i] == b[i - |a|];
      }
    }
  }

  /** A single data row under the header row `h` survives exactly when it
      has content, and then as the row fitted to the header width. */
  lemma {:induction false} NormalizeSingleRow(h: seq<string>, row: seq<string>)
    ensures Normalize([h, row]).rows == if HasContent(row) then [Fit(row, |h|)] else []
  {
    assert [h, row][1..] == [row];
    assert [row][1..] == [];
    assert KeepNonBlank([row]) == (if HasContent(row) then [row] else []) + KeepNonBlank([]);
  }

  /** The data rows are normalized one by one: normalizing a table whose
      data rows are `a + b` gives the rows from `a` followed by the rows
      from `b`, under the same header row. */
  lemma {:induction false} NormalizeAppend(h: seq<string>, a: seq<seq<string>>, b: seq<seq<string>>)
    ensures Normalize([h] + a + b).rows == Normalize([h] + a).rows + Normalize([h] + b).rows
  {
    assert ([h] + a + b)[1..] == a + b;
    assert ([h] + a)[1..] == a;
    assert ([h] + b)[1..] == b;
    KeepNonBlankAppend(a, b);
    FitAllAppend(KeepNonBlank(a), KeepNonBlank(b), |h|);
  }

  /** When no data row is wider than the header row, no blank row survives
      normalization. */
  lemma NoBlankRowsWithinWidth(table: seq<seq<string>>)
    requires table != []
    requires forall i :: 1 <= i < |table| ==> |table[i]| <= |table[0]|
    ensures forall i :: 0 <= i < |Normalize(table).rows| ==> HasContent(Normalize(table).rows[i])
  {
    var kept := KeepNonBlank(table[1..]);
    var n := |table[0]|;
    forall i | 0 <= i < |kept|
      ensures HasContent(Fit(kept[i], n))
    {
      assert kept[i] in kept;
      KeepNonBlankMembers(table[1..], kept[i]);
      var j :| 0 <= j < |kept[i]| && !IsBlank(kept[i][j]);
      var k :| 0 <= k < |table[1..]| && table[1..][k] == kept[i];
      assert |kept[i]| <= n;
      assert Fit(kept[i], n)[j] == kept[i][j];
    }
  }

  /** Blank rows are dropped before rows are fitted, so a row whose only
      content lies beyond the last header survives as a row of blanks:
      headers ["a"] and the data row ["", "x"] give the data row [""]. */
  lemma TruncationCanLeaveBlankRow(table: seq<seq<string>>)
    requires table == [["a"], ["", "x"]]
    ensures Normalize(table).rows == [[""]]
    ensures !HasContent(Normalize(table).rows[0])
  {
    var row := table[1];
    assert !IsBlank(row[1]) by {
      BlankIffAllSpace(row[1]);
      assert !IsSpace(row[1][0]);
    }
    assert HasContent(row);
    assert table[1..] == [row];
    assert KeepNonBlank(table[1..]) == [row] + KeepNonBlank([]);
    assert StripAll(table[0]) == ["a"] by {
      StripOfPadded([], "a", []);
      assert [] + "a" + [] == "a";
    }
    assert Fit(row, 1) == [""];
    assert IsBlank("") by {
      BlankIffAllSpace("");
    }
  }

  /** `fetch_sheet_as_rows`: the URL is chosen first; only then is the
      transfer made, with the caller's timeout; an HTTP failure becomes a
      transport error and a connection failure a network error, both with
      their details; a delivered table is normalized. */
  function FetchSheetAsRows(
    sheetId: string, sheetName: Option<string>, gid: Option<string>, timeoutSec: int,
    transport: (string, int) -> Transfer): (r: Result<Dataset, FetchError>)
    ensures r == Err(ArgumentError) <==> !IsGiven(gid) && !IsGiven(sheetName)
    ensures r.Ok? ==> forall i :: 0 <= i < |r.value.rows| ==> |r.value.rows[i]| == |r.value.headers|
    ensures SheetUrl(sheetId, sheetName, gid).Ok? ==>
      var t := transport(SheetUrl(sheetId, sheetName, gid).value, timeoutSec);
      (t.Delivered? <==> r.Ok?) &&
      (t.Delivered? ==> r.value == Normalize(t.table)) &&
      (t.HttpFailure? ==> r == Err(TransportError(t.status, t.reason))) &&
      (t.UrlFailure? ==> r == Err(NetworkError(t.reason)))
  {
    match SheetUrl(sheetId, sheetName, gid)
    case Err(e) => Err(e)
    case Ok(url) =>
      match transport(url, timeoutSec)
      case Delivered(table) => Ok(Normalize(table))
      case HttpFailure(status, reason) => Err(TransportError(status, reason))
      case UrlFailure(reason) => Err(NetworkError(reason))
  }

  /** Without a worksheet id or name the fetch fails before any transfer:
      the outcome does not depend on the transport at all. */
  lemma ArgumentErrorBeforeFetch(
    sheetId: string, sheetName: Option<string>, gid: Option<string>, timeoutSec: int,
    t1: (string, int) -> Transfer, t2: (string, int) -> Transfer)
    requires !IsGiven(gid) && !IsGiven(sheetName)
    ensures FetchSheetAsRows(sheetId, sheetName, gid, timeoutSec, t1) == Err(ArgumentError)
    ensures FetchSheetAsRows(sheetId, sheetName, gid, timeoutSec, t1) == FetchSheetAsRows(sheetId, sheetName, gid, timeoutSec, t2)
  {
  }

  /** The transfer requested is exactly the chosen URL with the caller's
      timeout: two transports that agree on that one request give the same
      outcome. */
  lemma FetchUsesChosenUrl(
    sheetId: string, sheetName: Option<string>, gid: Option<string>, timeoutSec: int,
    t1: (string, int) -> Transfer, t2: (string, int) -> Transfer)
    requires SheetUrl(sheetId, sheetName, gid).Ok?
    requires t1(SheetUrl(sheetId, sheetName, gid).value, timeoutSec) == t2(SheetUrl(sheetId, sheetName, gid).value, timeoutSec)
    ensures FetchSheetAsRows(sheetId, sheetName, gid, timeoutSec, t1) == FetchSheetAsRows(sheetId, sheetName, gid, timeoutSec, t2)
  {
  }
}
