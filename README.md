# LeetCode submissions tracker — Dafny model

The tracker reads a spreadsheet of student roll numbers and LeetCode profile
links. For each row whose link is a string containing `leetcode.com`, it
derives the username from the link. It asks LeetCode's GraphQL endpoint for
that user's accepted-submission counts and appends one output row. That row
holds the roll number, the link and the four counts (total, easy, medium,
hard). Rows with any other profile cell are skipped. If no row is left, the
page shows a warning; otherwise it shows the table and offers it as a CSV
download.

The model has four modules:

- `Strings` (strings.dfy): Python's `str.rstrip`, `str.split` and substring
  test `in`, plus the username extraction `link.rstrip('/').split('/')[-1]`.
- `Fetcher` (fetcher.dfy): the HTTP reply as a value (`Response`: status code,
  an `errors` flag, an optional `matchedUser`). `StatsOf` maps it to the
  statistics record. The dictionary built from `acSubmissionNum` is
  `ByDifficulty`. It is proved equal to an independent reference, `LastCount`
  (later duplicates win, a missing bucket reads as 0).
- `Tracker` (tracker.dfy): spreadsheet rows, the filter-map specification
  `Expected`, and the loop `ProcessRows`, proved equal to it. It also holds the
  lemmas on order, lengths and verbatim echo. `ProcessUpload` is the whole
  run: it builds the table, then either shows the warning or shows the table.
- `Wrappers` (wrappers.dfy): `Option`.

The POST to the endpoint is the parameter `post: string -> Response`, a
function from username to reply. The spreadsheet is a `seq<InputRow>` whose
cells are `Text`, `Number` or `Blank` (pandas' NaN).

Not every failure of the fetch becomes the zero record; the model follows the
code:

- Only a non-200 status, an `errors` key, or a missing, null or empty
  `matchedUser` give zeros. A reply with an `errors` key gives zeros whatever
  else it holds.
- A network exception from `requests.post`, a body that is not JSON, `data`
  set to null without an `errors` key, and a non-empty `matchedUser` without
  `submitStats` and without an `errors` key all raise in the source. They are
  not modelled (see below).

## Model

| member | source | states |
|---|---|---|
| `Strings.RStrip` | app.py:65 | `rstrip('/')` returns a prefix of the link that does not end in `/`, and everything it removed is `/` |
| `Strings.RStripUnique` | app.py:65 | those three facts determine the stripped string uniquely |
| `Strings.RStripIgnoresTrailing` | app.py:65 | appending any number of the stripped character leaves the result unchanged |
| `Strings.RStripIdempotent` | app.py:65 | stripping twice is the same as stripping once |
| `Strings.Split` | app.py:65 | `split('/')` yields at least one piece; no piece contains `/`; there is exactly one piece iff the string has no `/` |
| `Strings.JoinSplit` | app.py:65 | joining the pieces of a split with the separator gives back the original string |
| `Strings.SplitJoin` | app.py:65 | splitting a join of separator-free pieces gives back the pieces |
| `Strings.SplitPieceThenSep` | app.py:65 | a separator-free piece followed by the separator splits off as the first piece |
| `Strings.SplitNoSep` | app.py:65 | a string without the separator splits into itself alone |
| `Strings.LastPieceIsSuffix` | app.py:65 | `split('/')[-1]` is a separator-free suffix of the string that is either the whole string or preceded by `/` |
| `Strings.LastPieceAfterSep` | app.py:65 | the last piece of `pre + "/" + seg` is `seg` whenever `seg` has no `/` |
| `Strings.Username` | app.py:65 | the extracted username never contains `/` |
| `Strings.UsernameIgnoresTrailingSlashes` | app.py:65 | appending any number of `/` to a link leaves its username unchanged |
| `Strings.UsernameOfProfileUrl` | app.py:65 | the username of `base/seg` and of `base/seg/` is `seg` for any non-empty slash-free `seg` |
| `Strings.UsernameEmptyIff` | app.py:65 | the username is empty exactly when the link consists only of `/` characters |
| `Strings.Contains` | app.py:62 | the substring test `pat in s`; ContainsIff gives its meaning |
| `Strings.ContainsIff` | app.py:62 | the substring test holds exactly when the pattern occurs at some index of the string |
| `Strings.OccursShift` | app.py:62 | an occurrence in a non-empty string is at index 0 or is an occurrence in its tail shifted by one |
| `Strings.OccursInMiddle` | app.py:62 | a pattern occurs in `p + pat + q` at index `|p|` |
| `Strings.NotContainsFirstChar` | app.py:62 | a string lacking the pattern's first character fails the substring test |
| `Strings.UsernameOfMarkedLinkNonEmpty` | app.py:62-65 | every link that passes the `leetcode.com` filter yields a non-empty username |
| `Fetcher.Succeeded` | app.py:33-37 | the two guards negated: status 200, no `errors` key, and a non-empty `matchedUser`; StatsOf's contract gives its meaning |
| `Fetcher.ByDifficulty` | app.py:41 | the comprehension's dict has exactly the difficulties that occur in the list as keys |
| `Fetcher.HasBucketLast` | app.py:41 | a difficulty occurs in a non-empty list iff it occurs before the last entry or is the last entry's |
| `Fetcher.GetOrZero` | app.py:44-47 | `dict.get(key, 0)`; on the comprehension's dict its value is given by LookupIsLastCount |
| `Fetcher.StatsOf` | app.py:33-48 | a non-200 status, an `errors` key, or a missing or empty `matchedUser` gives exactly the all-zero record; otherwise Total, Easy, Medium and Hard are the last `All`, `Easy`, `Medium` and `Hard` accepted counts, 0 where absent |
| `Fetcher.LastCountSpec` | app.py:41 | the reference lookup gives the count of the last entry with the bucket, or 0 when no entry has it |
| `Fetcher.LookupIsLastCount` | app.py:41-47 | `dict.get(bucket, 0)` on the comprehension's dict equals the reference lookup: the last entry wins, and a missing bucket reads as 0 |
| `Fetcher.LastCountTracked` | app.py:43-47 | removing entries with untracked buckets does not change a tracked lookup |
| `Fetcher.OnlyTrackedEntriesMatter` | app.py:40-48 | two successful replies with the same tracked accepted entries give the same record, whatever their other buckets and `totalSubmissionNum` |
| `Fetcher.FourBucketExample` | app.py:40-48 | accepted counts `All 10, Easy 5, Medium 3, Hard 2` give `Stats(10, 5, 3, 2)` |
| `Tracker.IsProfileRow` | app.py:62-63 | the guard negated: the profile cell is a string containing `leetcode.com`; UsernameOfMarkedLinkNonEmpty and LookedUpNamesAreSegments give its consequences |
| `Tracker.GetSubmissions` | app.py:6-48 | `get_leetcode_submissions(username)`, with the POST of line 31 supplied by `post`; StatsOf's contract gives its meaning |
| `Tracker.RowFor` | app.py:65-78 | the dict appended for a processed row; ExpectedIsIndexedMap states what each output row holds |
| `Tracker.Expected` | app.py:58-78 | the filter-map over the rows is never longer than the sheet, and every link in it contains `leetcode.com` |
| `Tracker.ProfileIndices` | app.py:58-63 | lists, in strictly increasing order, exactly the positions of the rows that pass the filter |
| `Tracker.ProcessRows` | app.py:56-78 | the loop's `results` equals the filter-map specification over all input rows |
| `Tracker.ExpectedAppend` | app.py:58-78 | the table of `a + b` is the table of `a` followed by the table of `b` |
| `Tracker.RowContribution` | app.py:62-78 | a skipped row adds nothing; a processed row adds exactly its own output row, in its place |
| `Tracker.ExpectedIsIndexedMap` | app.py:58-78 | output row `k` echoes the roll number and link of the `k`-th processed input row verbatim and carries the stats fetched for that link's username |
| `Tracker.LookedUpNamesAreSegments` | app.py:62-68 | every username that is looked up is non-empty and has no `/` |
| `Tracker.AllProcessedIff` | app.py:62-63 | every row has a position in the index list exactly when every row passes the filter |
| `Tracker.AllProcessedCount` | app.py:62-63 | when every row passes the filter, every position is listed |
| `Tracker.SkippedRowShortens` | app.py:62-63 | a skipped row leaves the index list shorter than the sheet |
| `Tracker.TableSize` | app.py:58-78 | the table has at most as many rows as the sheet, and exactly as many iff every row passes the filter |
| `Tracker.EmptyTableIff` | app.py:58-80 | the table is empty exactly when no row passes the filter |
| `Tracker.ProcessUpload` | app.py:54-94 | the run shows the warning exactly when no row of the sheet passes the filter; otherwise it shows the filter-map table |
| `Tracker.LeetCodeLinkProcessed` | app.py:62 | a row with link `https://leetcode.com/alice123/` passes the filter |
| `Tracker.GitHubLinkSkipped` | app.py:62 | a row with link `https://github.com/bob` is skipped |
| `Tracker.OneProcessedThenSkipped` | app.py:58-78 | a processed row followed by a skipped row gives a one-row table |
| `Tracker.MixedSheetExample` | app.py:58-78 | a LeetCode row followed by a GitHub row gives a table holding only the LeetCode row's output |
| `Tracker.AliceUsernameExample` | app.py:65 | `https://leetcode.com/alice123/` and `https://leetcode.com/alice123` both give the username `alice123` |

## Left out

- The POST (app.py:31) and `response.json()` (app.py:36) are network I/O and a foreign JSON decoder. They become the `post` parameter and the `Response` value.
- Exceptions the source does not catch are not modelled, since the model covers only replies shaped like the query's answer. A reply with an `errors` key never raises, since it gives zeros first (app.py:37). Without that key, the uncaught cases are: a failing `requests.post` (app.py:31); a body that is not JSON (app.py:36); `data` set to null (AttributeError, app.py:37); and, from app.py:40-41, a non-empty `matchedUser` without `submitStats` (KeyError), `submitStats` set to null (TypeError), `acSubmissionNum` missing (KeyError) or null (TypeError), an entry without `difficulty` or `count` (KeyError), and an unhashable `difficulty` such as a list (TypeError). The `SubmitStats` and `Entry` types cannot express these shapes.
- The post function is pure, which has two consequences. First, the model does not record that each processed row makes exactly one request and skipped rows make none. Second, two rows with the same username get the same reply in the model, while the source sends a new request for each row and those replies may differ.
- A sheet without a `roll_number` or `leetcode_profile` column raises KeyError at its first row (app.py:59-60) and stops the run. Here every row carries both cells, so that failure is not modelled.
- The GraphQL query text, URL and request headers (app.py:7-30) are constants with no behaviour.
- Streamlit calls (title, uploader, table display, download button, warning) and pandas' `read_excel`, `DataFrame` and `to_csv` are UI and library code. Only the choice between warning and table is modelled (`ProcessUpload`). CSV formatting and its round trip belong to pandas and are not part of this model.
- Spreadsheet cells: numeric cells are `int`; floating-point cells, including NaN as a number, are folded into `Number` or `Blank`. Only whether a cell is a string matters to the filter.
- Submission counts are `nat`: the endpoint reports non-negative integers, and other JSON values for `count` are not modelled.
