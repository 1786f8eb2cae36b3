# Class check-in: a verified model of the response pipeline

This project models the data side of a one-page classroom check-in app
(`app.py`). A student picks one of six feelings, may name their class
(`turma`) and may leave a comment. The app appends one row per check-in
to a CSV response file. The instructor panel loads that file and shows:

- a class selector;
- a per-feeling distribution;
- a trend line of feeling scores in submission order;
- a newest-first comment feed.

The instructor can also purge the file.

The model lifts that inline script into pure functions over immutable rows.
Each module follows one part of the script:

| module | file | models |
|---|---|---|
| `Text` | text.dfy | Python's `str.strip()` (with Python's whitespace set) and Python's code-point string order |
| `Feelings` | feelings.dfy | the `FEELINGS` catalog, `dict(FEELINGS).get`, and the separate trend `scale_map` |
| `Rows` | rows.dfy | the stored row and its five columns |
| `Submission` | submission.dfy | shaping the row a submitted form stores |
| `Store` | store.dfy | the response file: absent, or a header plus positional records; `load_df`, `append_row`, purge |
| `Seqs` | seqs.dfy | order-preserving row selection (a boolean mask) |
| `ClassFilter` | class_filter.dfy | the `(Sem turma)` bucket, the sorted distinct selector options, filtering by class |
| `Distribution` | distribution.dfy | `value_counts().reindex(order).fillna(0)` |
| `Trend` | trend.dfy | the 1-based timeline and its scores |
| `CommentFeed` | comment_feed.dfy | the comment feed and its descending timestamp sort |
| `Dashboard` | dashboard.dfy | the panel's data flow from the store to every view |
| `Wrappers` | wrappers.dfy | `Option` and `Result` |

Parameters stand in for the clock, the form widgets and the file system:

- **Timestamp.** It is an opaque string passed in by the caller.
- **Form values.** They are arguments, and a missing one is `None`.
- **The file.** It is the value `Store.Store`: `None` while the file does not
  exist, and otherwise a `Csv` with a header and records of cells.
- **Reading the file.** It is by column name. A column the header lacks reads as `""`, and so
  does a cell past the end of a short record. A record with more cells than
  the header has columns makes the load fail (`LoadError`).

The model follows `app.py`. Later revisions of the form add a level catalog,
a seventh feeling and a rule-based "class climate" classifier. `app.py`
contains none of these, so neither does the model. The feeling table here is
the six-entry one of `app.py`.

## Model

| member | source | states |
|---|---|---|
| `Feelings.DictGet` | app.py:96 | A dict built from a list of pairs keeps the last pair for a repeated key. `.get` returns that pair's value, or the default when no pair has the key. |
| `Feelings.LabelsDistinct` | app.py:19-26 | No two catalog options share a label, so a label identifies one option. |
| `Feelings.Detail` | app.py:96 | The stored detail is the description paired with the chosen label. It is `""` for a label outside the catalog. |
| `Feelings.Labels` | app.py:149 | The reindex order is the catalog labels, in catalog order. |
| `Feelings.Score` | app.py:160-168 | A feeling scores its `scale_map` value, or 0 when the map has no entry for it. Every score lies in [-2, 3]. |
| `Feelings.ScaleFollowsCatalog` | app.py:160-167 | The scale's keys are exactly the catalog labels. The score is 3 for the first option and falls by one per catalog position, down to -2. Unknown feelings score 0. |
| `Text.Trim` | app.py:111-112 | `strip()` returns a slice of its input, with only whitespace removed on either side. The result neither starts nor ends with whitespace. |
| `Text.StripUnique` | app.py:111-112 | Any slice with that characterisation is the strip, so the characterisation defines `strip()` completely. |
| `Text.TrimIdempotent` | app.py:111-112 | Stripping an already stripped string changes nothing. |
| `Text.TrimEmptyIffAllSpace` | app.py:174 | A string strips to `""` exactly when it is all whitespace. |
| `Submission.NewRow` | app.py:106-113 | The stored row keeps the timestamp and chosen label. Its comment and class label are the stripped typed text, with `None` counting as `""`. A stored comment is never longer than the typed one, so the form's 200-character cap carries over. The detail is the catalog description of the label, or `""`. |
| `Submission.StoredTextStable` | app.py:111-112 | A stored comment or class label is already stripped. |
| `Submission.StoredTextBlank` | app.py:111-112 | A stored comment or class label is `""` exactly when the typed text was missing or blank. |
| `Store.Position` | app.py:37-41 | A column is found at its first position in the header, and only when the header has it. |
| `Store.ReadRecord` | app.py:37-41 | In a record read as a row, a column the header lacks is `""`. A present column keeps its cell, or is `""` past the end of a short record. |
| `Store.FirstRagged` | app.py:37 | This finds the first record with more cells than the header: every record before it fits. It reports none exactly when every record fits. |
| `Store.ReadAll` | app.py:37-41 | Loading keeps one row per record, in file order. Every missing column among the five reads as `""` in every row. Every present column keeps its cell. |
| `Store.Load` | app.py:34-42 | An absent file loads as no rows. A file loads exactly when no record overflows its header, and then gives one row per record. A failure names an overflowing record. |
| `Store.AppendAsWritten` | app.py:44-49 | A missing file is created with the five-column header and one record. An existing file keeps its header and gains the row's five cells at the end, in the fixed column order. |
| `Store.Purge` | app.py:198-199 | After a purge the file is absent, whether or not it existed, and the store loads as no rows. |
| `Store.AppendAsWrittenLoads` | app.py:44-49 | On a file the form wrote itself, appending then loading gives the earlier rows followed by the new row. The file stays in the form's own layout. |
| `Store.AsWrittenBreaksShortHeader` | app.py:39-49 | Take a file whose header lacks `turma`, which loading accepts. After the form's append, that file no longer loads (see Findings). |
| `Store.Append` | app.py:44-49 | The corrected append. The file ends up holding all five columns. Earlier records and header names are kept as a prefix, and exactly one record is added. |
| `Store.AppendThenLoad` | app.py:44-49 | On any store that loads, the corrected append then a load gives the earlier rows followed by the new row. |
| `Store.AppendMatchesAsWritten` | app.py:44-49 | On a file the form wrote, the corrected append writes exactly what the form's append writes. |
| `Store.ReplayLoads` | app.py:34-49 | Start from any store that loads and apply any run of submissions, using the corrected append, and purges. The store then loads as exactly the rows submitted since the last purge, or the starting rows plus all submissions when there was no purge. |
| `Store.ReplayAsWrittenMatches` | app.py:44-49 | From a store in the form's own layout, a run of submissions through the form's positional append and purges writes exactly what the corrected run writes. |
| `Store.ReplayAsWrittenLoads` | app.py:34-49 | The program's own state machine: from a store in the form's own layout, including no file, any run of the form's submissions and purges loads as exactly the rows submitted since the last purge, after the starting rows when there was none. |
| `Store.ReplayCanonical` | app.py:44-49 | A store in the form's own layout stays in that layout under any run of submissions and purges. |
| `ClassFilter.Bucket` | app.py:143 | Only the exact empty class label is renamed, to `(Sem turma)`. Every bucket is non-empty. |
| `ClassFilter.Normalize` | app.py:142-143 | The working copy has the same rows in the same order. The only change is the class label, which becomes its bucket. |
| `ClassFilter.Select` | app.py:142-145 | `(Todas)` keeps every normalised row. Any other selection keeps only rows of that bucket, and keeps every row of that bucket. |
| `ClassFilter.SelectExact` | app.py:144-145 | A selection other than `(Todas)` is a subsequence of the normalised rows. It holds each row of the bucket as often as it occurs, and no other row. |
| `ClassFilter.SelectAppend` | app.py:142-145 | Selecting from two batches of rows gives the two selections concatenated, so later check-ins never reorder earlier ones. |
| `ClassFilter.SortedDistinct` | app.py:139 | `sorted(unique(...))` yields strictly increasing values (so no duplicates), and exactly the values that occur. |
| `ClassFilter.Options` | app.py:139 | The selector lists `(Todas)` first. The entries after it are strictly increasing, and are exactly the buckets that occur. |
| `ClassFilter.OptionsDistinct` | app.py:139 | The selector has no repeated entry exactly when no row's class label is literally `(Todas)`. |
| `Distribution.CountOf` | app.py:150 | The count of a label is the number of rows whose feeling is that label. |
| `Distribution.Tally` | app.py:150 | There is one entry per requested label, in the requested order. Each entry holds that label's count, which is 0 for an unseen label. |
| `Distribution.Counts` | app.py:149-150 | The bar chart has exactly one entry per catalog label, in catalog order. Each count is the number of rows carrying that label. |
| `Distribution.TallyTotal` | app.py:150 | With distinct labels, the counts add up to the number of rows whose feeling is among the labels. |
| `Distribution.CountsTotal` | app.py:149-150 | The bar chart's counts add up to the number of selected rows with a catalog feeling. Rows with an unknown feeling are not counted, so the total never exceeds the row count. |
| `Trend.SeriesFrom` | app.py:157 | Numbering from a start value gives consecutive positions, one per row, in row order. |
| `Trend.Series` | app.py:156-168 | There is one point per selected row, at positions exactly 1..N in submission order. Each point carries its row's timestamp, feeling and score, and every score lies in [-2, 3]. |
| `Trend.SeriesAppend` | app.py:156-168 | A later check-in adds one point at position N+1 and leaves every earlier point unchanged. |
| `CommentFeed.HasCommentIffNotBlank` | app.py:174 | A row counts as commented exactly when its comment is not all whitespace. |
| `CommentFeed.SortNewestFirst` | app.py:178 | Sorting by timestamp, descending, keeps the same lines and puts them in non-increasing timestamp order. |
| `CommentFeed.Feed` | app.py:174-178 | The feed is a permutation of the commented rows, projected to (timestamp, feeling, comment, turma). Timestamps never increase along it. |
| `CommentFeed.FeedMembers` | app.py:174 | A line is in the feed exactly when some row with a non-blank comment projects to it. |
| `CommentFeed.FeedEmpty` | app.py:174-176 | The feed is empty, so the panel says there are no comments, exactly when no selected row has a non-blank comment. |
| `Dashboard.Panel` | app.py:135-145 | No panel is built for an empty store. Otherwise a panel is always built. |
| `Dashboard.PanelAgrees` | app.py:139-178 | The trend has one point per selected row and the distribution has six counts. Those counts total at most the number of selected rows, and the feed has at most one line per selected row. Selecting `(Todas)` keeps every row. |
| `Dashboard.Open` | app.py:120-137 | Opening the panel fails exactly when the file cannot be read. An absent or empty store shows no panel. |

## Left out

- Page layout, tabs, forms, metrics, charts, the popover, the confirm checkbox and the logout button (app.py:79-206). They only present data.
- `require_admin` (app.py:51-74): it depends on `st.secrets` and the session, and it sleeps and reruns the page.
- `now_iso` (app.py:31-32): it reads the wall clock. The timestamp is a caller-supplied opaque string.
- Creating the data directory (app.py:16-17), CSV bytes, quoting, the UTF-8 byte-order mark, and the CSV export of the download button (app.py:187). These are file I/O and formatting.
- The summary metrics (app.py:126-133): row count, distinct class labels, last timestamp. They are display values and are not part of the modelled pipeline.
- Pandas' missing-value handling. The model gives empty cells the intended meaning `""`. The library actually reads empty cells back as NaN, with three consequences the model does not reproduce:
  - `replace("", "(Sem turma)")` would not see those cells;
  - `astype(str)` would turn a missing comment into `"nan"`;
  - `sorted` would compare NaN with strings.
- Store.Load: only one parse failure is modelled, a record with more cells than its header. Other malformed-file errors are not. When such a record is the first data line, the CSV reader infers an index column instead of failing; that rule is not modelled either.
- Store.Load: the CSV reader's type inference is not modelled. A column whose cells all look like numbers, such as class labels `2` and `10`, is read back as numbers, so the class selector lists 2 before 10, where `ClassFilter.Options` orders the strings and lists "10" first. Cells such as `NA`, `null`, `None` or `N/A` read back as missing values, like empty cells, where the model keeps them as text. Both are dtype behaviour of the library rather than of the program.
- Store.Load: header columns other than the five are read but ignored, because no part of the pipeline uses them.
- CommentFeed.Feed: does not state the order among lines with equal timestamps, because the panel's sort is not stable.
- Submission.NewRow: the 200-character cap is enforced by the text widget, not by the code. The model only proves that storing never lengthens the comment.

## Findings

| source | as written | input that shows it | evidently intended | confidence | as-written member | corrected member |
|---|---|---|---|---|---|---|
| app.py:44-49 | `append_row` adds the new record by position without a header. It writes the five cells in fixed column order, whatever header the existing file has. | Take a file with header `timestamp,feeling,detail,comment` and one record. `load_df` accepts it because it fills in the missing `turma`. After one more check-in, the new record has five cells under a four-column header, so the file no longer loads and the panel fails. | Appending to any file that loads keeps it loadable, and loading then gives the earlier rows plus the new one (`Store.AppendThenLoad`). This is the tolerance for missing columns that `load_df` evidently intends. | medium, not executed | `Store.AsWrittenBreaksShortHeader` | `Store.Append` |

`Store.Append` first adds any of the five columns the header lacks, at the
end of the header. It then writes the new record by column name.
`Store.AppendMatchesAsWritten` proves it writes exactly what the form writes
on every file the form creates itself. `Store.ReplayCanonical` proves that
those files keep that layout. So the two appends differ only on files
written by something else, such as an earlier form.
