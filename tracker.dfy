/** The batch over the uploaded sheet (app.py, lines 56-78 and 80-94): every
    row whose profile cell is a string containing `leetcode.com` yields one
    output row, in input order; every other row is skipped. The POST of
    `get_leetcode_submissions` is the parameter `post`, from username to
    reply. */
module Tracker {
  import opened Strings
  import opened Fetcher

  /** A spreadsheet cell as pandas hands it over: a string, a number, or a
      blank cell (pandas' NaN). */
  datatype Cell = Text(text: string) | Number(value: int) | Blank

  /** The two columns the tracker reads; other columns are ignored. */
  datatype InputRow = InputRow(rollNumber: Cell, profile: Cell)

  /** One row of the result table, in the column order of the export. */
  datatype OutputRow = OutputRow(
    rollNumber: Cell,
    profileLink: string,
    totalSubmissions: nat,
    easy: nat,
    medium: nat,
    hard: nat)

  /** The guard of app.py line 62, negated: the row is processed. */
  predicate IsProfileRow(row: InputRow)
  {
    row.profile.Text? && Contains(row.profile.text, Marker)
  }

  /** `get_leetcode_submissions(username)`, with the POST supplied by `post`. */
  function GetSubmissions(username: string, post: string -> Response): Stats
  {
    StatsOf(post(username))
  }

  /** The dict appended for a processed row (app.py, lines 65-78). */
  function RowFor(row: InputRow, post: string -> Response): OutputRow
    requires IsProfileRow(row)
  {
    var stats := GetSubmissions(Username(row.profile.text), post);
    OutputRow(row.rollNumber, row.profile.text, stats.total, stats.easy, stats.medium, stats.hard)
  }

  /** The result table as a filter-map over the rows: the specification the
      loop is proved against. */
  function Expected(rows: seq<InputRow>, post: string -> Response): (table: seq<OutputRow>)
    ensures |table| <= |rows|
    ensures forall k :: 0 <= k < |table| ==> Contains(table[k].profileLink, Marker)
    decreases |rows|
  {
    if rows == [] then []
    else
      var row := rows[|rows| - 1];
      Expected(rows[..|rows| - 1], post) + (if IsProfileRow(row) then [RowFor(row, post)] else [])
  }

  /** The positions of the processed rows, in increasing order: every entry
      is a processed row, and every processed row is listed. */
  function ProfileIndices(rows: seq<InputRow>): (idx: seq<nat>)
    ensures forall k :: 0 <= k < |idx| ==> idx[k] < |rows| && IsProfileRow(rows[idx[k]])
    ensures forall k, l :: 0 <= k < l < |idx| ==> idx[k] < idx[l]
    ensures forall i :: 0 <= i < |rows| && IsProfileRow(rows[i]) ==> i in idx
    ensures |idx| <= |rows|
    decreases |rows|
  {
    if rows == [] then []
    else
      var n := |rows| - 1;
      ProfileIndices(rows[..n]) + (if IsProfileRow(rows[n]) then [n] else [])
  }

  /** The loop over `df.iterrows()`: `results` grows by one row per
      processed input row. */
  method ProcessRows(rows: seq<InputRow>, post: string -> Response) returns (results: seq<OutputRow>)
    ensures results == Expected(rows, post)
  {
    results := [];
    var i := 0;
    while i < |rows|
      invariant 0 <= i <= |rows|
      invariant results == Expected(rows[..i], post)
    {
      var row := rows[i];
      assert rows[..i + 1][..i] == rows[..i];
      if !row.profile.Text? || !Contains(row.profile.text, Marker) {
        i := i + 1;
        continue;
      }
      var username := Username(row.profile.text);
      var submissionData := GetSubmissions(username, post);
      results := results + [OutputRow(row.rollNumber, row.profile.text,
        submissionData.total, submissionData.easy, submissionData.medium, submissionData.hard)];
      i := i + 1;
    }
    assert rows[..|rows|] == rows;
  }

  /** The table of a concatenation is the concatenation of the tables: rows
      are handled one at a time, independently and in order. */
  lemma {:induction false} ExpectedAppend(a: seq<InputRow>, b: seq<InputRow>, post: string -> Response)
    ensures Expected(a + b, post) == Expected(a, post) + Expected(b, post)
    decreases |b|
  {
    if b != [] {
      var n := |b| - 1;
      var ab := a + b;
      assert ab[..|ab| - 1] == a + b[..n];
      assert ab[|ab| - 1] == b[n];
      ExpectedAppend(a, b[..n], post);
      var tail := if IsProfileRow(b[n]) then [RowFor(b[n], post)] else [];
      assert Expected(ab, post) == Expected(a + b[..n], post) + tail;
      assert Expected(b, post) == Expected(b[..n], post) + tail;
      assert Expected(a, post) + Expected(b[..n], post) + tail
          == Expected(a, post) + (Expected(b[..n], post) + tail);
    } else {
      assert a + b == a;
    }
  }

  /** A skipped row contributes nothing; a processed one contributes exactly
      its own output row, in its place. */
  lemma RowContribution(a: seq<InputRow>, row: InputRow, b: seq<InputRow>, post: string -> Response)
    ensures !IsProfileRow(row) ==> Expected(a + [row] + b, post) == Expected(a, post) + Expected(b, post)
    ensures IsProfileRow(row) ==>
      Expected(a + [row] + b, post) == Expected(a, post) + [RowFor(row, post)] + Expected(b, post)
  {
    ExpectedAppend(a + [row], b, post);
    ExpectedAppend(a, [row], post);
    assert [row][..0] == [];
  }

  /** Output row `k` comes from the `k`-th processed input row: it echoes that
      row's roll number and link verbatim and carries the statistics fetched
      for the username of that link. With ProfileIndices' contract this says
      the table keeps input order, drops exactly the skipped rows and merges
      no duplicates. */
  lemma {:induction false} ExpectedIsIndexedMap(rows: seq<InputRow>, post: string -> Response)
    ensures |Expected(rows, post)| == |ProfileIndices(rows)|
    ensures forall k :: 0 <= k < |ProfileIndices(rows)| ==>
      var row := rows[ProfileIndices(rows)[k]];
      var stats := StatsOf(post(Username(row.profile.text)));
      Expected(rows, post)[k]
        == OutputRow(row.rollNumber, row.profile.text, stats.total, stats.easy, stats.medium, stats.hard)
    decreases |rows|
  {
    if rows != [] {
      var n := |rows| - 1;
      ExpectedIsIndexedMap(rows[..n], post);
      var idx := ProfileIndices(rows[..n]);
      forall k | 0 <= k < |idx| ensures rows[..n][idx[k]] == rows[idx[k]] {
      }
    }
  }

  /** The usernames looked up for the table are non-empty and contain no
      slash, so each lookup names a single profile path segment. */
  lemma LookedUpNamesAreSegments(rows: seq<InputRow>)
    ensures forall k :: 0 <= k < |ProfileIndices(rows)| ==>
      var u := Username(rows[ProfileIndices(rows)[k]].profile.text);
      u != [] && '/' !in u
  {
    var idx := ProfileIndices(rows);
    forall k | 0 <= k < |idx|
      ensures Username(rows[idx[k]].profile.text) != []
    {
      UsernameOfMarkedLinkNonEmpty(rows[idx[k]].profile.text);
    }
  }

  /** Every row is processed exactly when every row has a position in
      ProfileIndices. */
  lemma AllProcessedIff(rows: seq<InputRow>)
    ensures |ProfileIndices(rows)| == |rows| <==> forall i :: 0 <= i < |rows| ==> IsProfileRow(rows[i])
  {
    if forall i :: 0 <= i < |rows| ==> IsProfileRow(rows[i]) {
      AllProcessedCount(rows);
    } else {
      var j :| 0 <= j < |rows| && !IsProfileRow(rows[j]);
      SkippedRowShortens(rows, j);
    }
  }

  /** When every row is processed, every position is listed. */
  lemma {:induction false} AllProcessedCount(rows: seq<InputRow>)
    requires forall i :: 0 <= i < |rows| ==> IsProfileRow(rows[i])
    ensures |ProfileIndices(rows)| == |rows|
    decreases |rows|
  {
    if rows != [] {
      var n := |rows| - 1;
      var init := rows[..n];
      assert forall i :: 0 <= i < n ==> init[i] == rows[i];
      AllProcessedCount(init);
    }
  }

  /** A skipped row leaves the index list shorter than the sheet. */
  lemma {:induction false} SkippedRowShortens(rows: seq<InputRow>, j: nat)
    requires j < |rows| && !IsProfileRow(rows[j])
    ensures |ProfileIndices(rows)| < |rows|
    decreases |rows|
  {
    var n := |rows| - 1;
    var init := rows[..n];
    if j < n {
      assert init[j] == rows[j];
      SkippedRowShortens(init, j);
    }
  }

  /** The table never has more rows than the sheet, and has as many exactly
      when every row is processed. */
  lemma TableSize(rows: seq<InputRow>, post: string -> Response)
    ensures |Expected(rows, post)| <= |rows|
    ensures |Expected(rows, post)| == |rows| <==> forall i :: 0 <= i < |rows| ==> IsProfileRow(rows[i])
  {
    ExpectedIsIndexedMap(rows, post);
    AllProcessedIff(rows);
  }

  /** What the page shows once the batch is done (app.py, lines 80-94). */
  datatype Display = NoValidProfiles | ProcessedData(table: seq<OutputRow>)

  /** The table is empty exactly when no row of the sheet is processed. */
  lemma EmptyTableIff(rows: seq<InputRow>, post: string -> Response)
    ensures Expected(rows, post) == [] <==> forall i :: 0 <= i < |rows| ==> !IsProfileRow(rows[i])
  {
    ExpectedIsIndexedMap(rows, post);
    var idx := ProfileIndices(rows);
    if exists i :: 0 <= i < |rows| && IsProfileRow(rows[i]) {
      var i :| 0 <= i < |rows| && IsProfileRow(rows[i]);
      assert i in idx;
    }
  }

  /** The whole run on an uploaded sheet (app.py, lines 54-94): build the
      table, then show the warning if it is empty, or else the table, which
      the page renders and offers as a CSV download. */
  method ProcessUpload(rows: seq<InputRow>, post: string -> Response) returns (display: Display)
    ensures display == NoValidProfiles <==> forall i :: 0 <= i < |rows| ==> !IsProfileRow(rows[i])
    ensures display.ProcessedData? ==> display.table == Expected(rows, post)
  {
    var results := ProcessRows(rows, post);
    EmptyTableIff(rows, post);
    if results != [] {
      display := ProcessedData(results);
    } else {
      display := NoValidProfiles;
    }
  }

  /** A link on leetcode.com passes the filter. The link is passed in
      through `requires`, so that the verifier does not unfold `Contains` on
      a constant. */
  lemma LeetCodeLinkProcessed(a: InputRow)
    requires a.profile == Text("https://leetcode.com/alice123/")
    ensures IsProfileRow(a)
  {
    assert a.profile.text == "https://" + Marker + "/alice123/";
    OccursInMiddle("https://", Marker, "/alice123/");
    ContainsIff(a.profile.text, Marker);
  }

  /** A GitHub link does not pass the filter. The link is passed in
      through `requires`, so that the verifier does not unfold `Contains` on
      a constant. */
  lemma GitHubLinkSkipped(b: InputRow)
    requires b.profile == Text("https://github.com/bob")
    ensures !IsProfileRow(b)
  {
    assert 'l' !in b.profile.text;
    NotContainsFirstChar(b.profile.text, Marker);
  }

  /** A sheet with one LeetCode link and one GitHub link gives a one-row
      table built from the LeetCode row alone. The links are passed in
      through `requires`, so that the verifier does not unfold `Contains` on
      a constant. */
  lemma MixedSheetExample(a: InputRow, b: InputRow, post: string -> Response)
    requires a.profile == Text("https://leetcode.com/alice123/")
    requires b.profile == Text("https://github.com/bob")
    ensures IsProfileRow(a) && Expected([a, b], post) == [RowFor(a, post)]
  {
    LeetCodeLinkProcessed(a);
    GitHubLinkSkipped(b);
    OneProcessedThenSkipped(a, b, post);
  }

  /** The table of a processed row followed by a skipped one. */
  lemma OneProcessedThenSkipped(a: InputRow, b: InputRow, post: string -> Response)
    requires IsProfileRow(a) && !IsProfileRow(b)
    ensures Expected([a, b], post) == [RowFor(a, post)]
  {
    assert [a, b][..1] == [a];
    assert Expected([a, b], post) == Expected([a], post);
    assert [a][..0] == [];
    assert Expected([a], post) == Expected([], post) + [RowFor(a, post)];
  }

  /** The username of `https://leetcode.com/alice123`, with or without a
      trailing slash, is `alice123`. The links are passed in through
      `requires`, so that the verifier does not unfold `Split` on a
      constant. */
  lemma AliceUsernameExample(withSlash: string, without: string)
    requires withSlash == "https://leetcode.com/alice123/"
    requires without == "https://leetcode.com/alice123"
    ensures Username(withSlash) == "alice123" && Username(without) == "alice123"
  {
    var base, seg := "https://leetcode.com", "alice123";
    assert without == base + "/" + seg;
    assert withSlash == base + "/" + seg + "/";
    UsernameOfProfileUrl(base, seg);
  }
}
