# Comment engine of the comment manager, in Dafny

`3.py` is a desktop tool that loads a CSV export of video comments. Each row
carries a comment id, a parent comment id, an author, a timestamp and a few
count fields. The tool rebuilds the reply tree from those rows and gives every
comment an engagement tier (A1 to D). It shows the tree with a search filter
and sortable columns, and writes the tree out as indented text.

This project models the part of `CommentApp` that does not touch the window:

- **`process_data`**: the schema check, the row loop, the reply-list sort, the
  original poster and the two rating loops;
- **`assign_rating`**, with its decision table and the `rating_order` ranks;
- **the range check of `convert_timestamp`**;
- **`search_comments`**, and the top-level selection and Time sort of
  `populate_tree`;
- **the Time and Rating branches of `sort_column`**;
- **the text layout of `export_txt_thread` / `write_replies`**.

## Files

- `basics.dfy` (`Basics`): an option type, order-preserving sublists, and
  decimal rendering of row indices.
- `text.dfy` (`Text`): `str.strip()`, ASCII `str.lower()` and the substring
  test.
- `sorting.dfy` (`Sorting`): a stable sort on an integer key with Python's
  `reverse=` flag. It is proved sorted, a permutation and stable, and it is
  shown to be the only sequence with those three properties.
- `comment_store.dfy` (`CommentStore`):
  - the rows, the comment records and the store;
  - the row loop as a fold with all its invariants;
  - the top-level comments and the original poster.
- `rating.dfy` (`Rating`): the tiers, the decision table, the rank table, and
  the rating every record holds after the two loops.
- `timestamp.dfy` (`Timestamp`): `convert_timestamp`. The date library is a
  parameter.
- `search.dfy` (`Search`): the search filter and the sorted top-level view.
- `text_export.dfy` (`TextExport`): the sequence of writes of the text export,
  with the Python recursion limit as fuel.
- `app.dfy` (`App`): the class `CommentApp`. Its fields are the ones the
  source updates. Its methods do the work step by step, with loops, and each
  method is proved to leave the state, or return the writes, that the
  functions above describe.

## How the store is represented

- The comment dicts in Python are objects shared between `comments` and the
  reply lists. The model keeps them all in `records`, keyed by the pandas
  index label of their row, which is the row's position because `read_csv`
  numbers rows from 0 and `dropna` keeps the labels.
- `comments` maps an id to a label, and `order` is its key order.
- `replies` maps a parent id to a list of labels, and `parents` is its key
  order.
- The `"rating"` entry of each dict is the `ratings` map. So a record that a
  later duplicate id pushed out of `comments` still exists, still sits in its
  reply list, and keeps its empty `""` rating, as in the source.

## Behaviour of the program the model keeps

- **Stored ids are not always unique.** A taken id is rewritten to
  `"{id}_{idx}"` once (3.py:199-201), and the new id is not checked again.
  `TextExport.LoopRows` is a three-row table in which two records end up
  with the id `a_2`. `TextExport.LoopRowsStore` proves it. Two rows that both
  find the same id taken still get different ids
  (`CommentStore.RewrittenIdsDistinct`). When two records share an id, the
  key names the later one (3.py:224, `CommentStore.KeyNamesLastRow`); the
  earlier one stays in its reply list but is no longer rated
  (`Rating.LiveIffLastUnderId`).
- **`write_replies` has no cycle guard.** It looks children up by stored id,
  while they were filed under their raw parent id (3.py:227-229, 508), so it can
  recurse without end. The model gives the recursion a frame budget (`fuel`),
  which stands for Python's recursion limit; running out is the
  RecursionError. A reply filed under its own stored id recurses until the
  limit (`TextExport.SelfFiledNeverEnds`). The export of `LoopRows` fails
  whatever the limit (`TextExport.LoopRowsNeverExport`).
- **The millisecond rescaling is dead.** The rescaling at 3.py:340-341 cannot
  be reached after the range check at 3.py:338-339. The model keeps it where
  the code has it and proves it unreachable
  (`Timestamp.MillisecondBranchUnreachable`).

## Model

| member | source | states |
|---|---|---|
| CommentStore.MissingColumns | 3.py:177-184 | the reported columns are exactly the required columns absent from the header, listed in the order of the required list |
| App.CommentApp.ProcessData | 3.py:172-254 | no table: returns and changes nothing; a missing column: the error names exactly the missing columns and nothing changes; otherwise the object holds the built store, the original poster and every rating, and returns the blank-video-id warning list |
| App.CommentApp.Rebuild | 3.py:186-254 | after the schema check, the object holds the store built from the rows, the original poster and the ratings; the warning list is that of the row loop |
| App.CommentApp.LoadRows | 3.py:192-229 | the row loop leaves the store and warning list of the fold over all rows, skipping rows without a numeric create_time, with every record's rating empty |
| App.CommentApp.FileRow | 3.py:198-229 | one row: the record is stored under its own id, or "{id}_{idx}" if that is taken; it is filed in comments and appended to the list of its raw parent id, and its rating starts empty |
| App.CommentApp.CleanVideoId | 3.py:203-209 | the executable counterpart of CommentStore.StoredVideoId, proved equal to it: the stored video id is the stripped id, or "N/A" when the stripped id is empty, and the warning flag is raised exactly then |
| App.CommentApp.MakeRecord | 3.py:211-224 | the executable counterpart of CommentStore.RecordOf, proved equal to it: the record carries the row's cells under the given id, with the cleaned video id |
| CommentStore.IngestRows | 3.py:197-229 | no contract of its own: the row loop as a fold, skipping rows without a numeric create_time; CommentStore.IngestInvariant proves each prefix's store consistent and built from its rows, CommentStore.KeyNamesLastRow that each key names the last row stored under it, and CommentStore.OrderIsFirstStorageOrder that the keys are ordered by the row first stored under each |
| CommentStore.Append | 3.py:198-209 | no contract of its own: one pass of the row loop with the blank-video warning it may record; CommentStore.MissingVideoWarnings states the resulting warning list |
| CommentStore.AddRecord | 3.py:198-229 | no contract of its own: one pass of the row loop; the AddRecord lemmas (CommentStore.AddRecordIdIndex and the next three) prove each pass keeps the index and reply lists consistent; the effect of the overwrite at 3.py:224 (the key now names the new row, and a new key goes last while a reassigned one keeps its place) is stated for the whole loop by CommentStore.KeyNamesLastRow and CommentStore.OrderIsFirstStorageOrder |
| CommentStore.NewId | 3.py:198-201 | a row keeps its own id when that is not a key yet; otherwise it gets the id, "_" and its decimal row index, which is never the id itself |
| Basics.NatToString | 3.py:201 | the decimal text of the row index in the rewritten id: at least one digit, only digits, and no leading zero unless the index is 0; Basics.DecimalRoundTrip reads it back |
| CommentStore.Children | 3.py:267 | no contract of its own: the reply list filed under an id, or none when the id has no list |
| CommentStore.RecordOf | 3.py:211-224 | the record has the given id and carries every cell of its row, with the cleaned video id |
| CommentStore.StoredVideoId | 3.py:203-209 | the stored video id is never empty: it is the stripped id, or "N/A" when the stripped id is empty |
| CommentStore.Build | 3.py:186-238 | no contract of its own: the row loop followed by the reply sort; BuildConsistent, StoredIdRule, KeyNamesLastRow, OrderIsFirstStorageOrder, EachRowFiledOnce, RepliesSortedStably and MissingVideoWarnings state its properties |
| CommentStore.StoredVideoIdSpec | 3.py:203-209 | a blank or whitespace-only video id is stored as "N/A"; any other is stored stripped and is not empty |
| CommentStore.StoredIdRule | 3.py:197-201 | every kept row's record has the row's own id, or "{id}_{idx}" with the row index when the id was already a key on reaching the row |
| CommentStore.RewrittenIdsDistinct | 3.py:199-201 | two rows with the same comment_id that both find it taken are stored under different ids |
| CommentStore.KeyNamesLastRow | 3.py:197-224 | every stored id is a key of comments, and the key names the record of the last kept row stored under that id; an earlier record under the same id is displaced |
| CommentStore.FirstUnder | 3.py:197-224 | the first record, by row, stored under an id: it is stored under that id, and no earlier record is; none when no record below the bound is |
| CommentStore.OrderIsFirstStorageOrder | 3.py:197-224 | the key order of comments is the order in which each id was first stored: every key has a first record, and the keys' first records come in key order, whichever row a key names now |
| CommentStore.BuildConsistent | 3.py:187-229 | the built store is consistent; there is one record per row with a numeric create_time, and each record carries its row's cells |
| CommentStore.EachRowFiledOnce | 3.py:226-229 | each kept row is in the reply list of its raw parent id exactly once, and a reply list holds only rows with that parent id |
| CommentStore.ReplyTotalIsRowCount | 3.py:187-229 | the reply-list lengths sum to the number of rows with a numeric create_time |
| CommentStore.MissingVideoWarnings | 3.py:203-209 | the warning list is the stored (possibly rewritten) ids of the kept blank-video rows, in row order; each record holds its row's stored video id |
| CommentStore.RepliesSortedStably | 3.py:236-238 | after the sort, every reply list is ascending by create_time, is a permutation of the appended list, and keeps append order among equal times |
| CommentStore.TiesKeepRowOrder | 3.py:236-238 | two replies with equal create_time stay in row order |
| CommentStore.SortReplies | 3.py:236-238 | no contract of its own: every reply list sorted by create_time; CommentStore.SortRepliesPermutes and CommentStore.RepliesSortedStably state the permutation, order and stability |
| CommentStore.ByTime | 3.py:238 | no contract of its own: a record's create_time as the sort key |
| App.CommentApp.SortStage | 3.py:236-238 | sorting the lists built by the row loop gives the built store, which is consistent |
| App.CommentApp.SortReplyLists | 3.py:237-238 | the loop over the parent ids sorts every reply list stably by create_time and changes nothing else |
| CommentStore.TopLevel | 3.py:241 | every listed record exists and its parent id is not a key of the index |
| CommentStore.TopLevelMembers | 3.py:241 | a record is listed exactly when a key of the index names it and its parent id is not a key |
| CommentStore.TopLevelFirst | 3.py:241-243 | the list is empty exactly when no key is top-level; otherwise its head is the record of the first top-level key in insertion order |
| CommentStore.UpHostIsFirstTopLevelAuthor | 3.py:240-245 | the original poster is the user of the first top-level comment in insertion order, and None exactly when there is no top-level comment |
| CommentStore.UpHost | 3.py:240-245 | no contract of its own: the user of the first top-level comment, or None; CommentStore.UpHostIsFirstTopLevelAuthor states which comment that is |
| App.TopLevelLive | 3.py:241 | in a built store a record is top-level exactly when it is the record its id names and its parent id is not a key |
| App.CommentApp.RateAll | 3.py:240-254 | sets the original poster to the first top-level author and every rating to the one both loops assign |
| App.CommentApp.RateComments | 3.py:247-254 | the two rating loops together leave every live record rated and every displaced record unrated |
| App.CommentApp.RateTopLevel | 3.py:248-249 | the first loop rates exactly the top-level records |
| App.CommentApp.RateReplies | 3.py:252-254 | the second loop also rates every record whose parent id is a key, which gives the final ratings |
| App.RatingLoopsDone | 3.py:247-254 | the records rated by the two loops are exactly the live records |
| App.CommentApp.AssignRating | 3.py:256-290 | writes the rating of one record, the one assign_rating computes from the poster, the parent and the reply counts, and changes no other rating |
| Rating.RatingFor | 3.py:256-290 | the rating is always one of the nine tiers; a comment by the original poster gets A1 exactly when its parent id is not a key, and A2 otherwise; any other comment never gets A1 or A2, and gets D exactly when it has no replies |
| Rating.GrandchildCount | 3.py:271 | no contract of its own: the second-level reply count; Rating.NoGrandchildren states when it is zero |
| Rating.PosterRating | 3.py:257-264 | a comment by the original poster is A1 exactly when its parent id is not a key, and A2 exactly when it is |
| Rating.OtherRating | 3.py:266-290 | any other comment gets the tier of its direct and second-level reply counts, D exactly when it has no replies, never A1 or A2 |
| Rating.Tier | 3.py:273-290 | D iff s = 0; for 1 <= s < 10, B1 iff t > 0, else C1; for 10 <= s <= 100, B2 iff t >= 10, else C2; for s > 100, B3 iff t >= 100, else C3 |
| Rating.NoGrandchildren | 3.py:270-271 | the second-level count is zero exactly when no direct reply has replies |
| Rating.EveryCommentRated | 3.py:247-254 | after both loops every comment in comments holds one of the nine tiers |
| Rating.Ratings | 3.py:247-254 | no contract of its own: the rating entries after both loops, the live records rated and the displaced ones "", which App.RatingLoopsDone proves the loops produce; Rating.EveryCommentRated states that every comment ends with a tier |
| Rating.LiveIffLastUnderId | 3.py:224-254 | in a built store a record is live exactly when no later record is stored under its id, and a displaced record keeps "" after both rating loops |
| Rating.FirstTopLevelIsA1 | 3.py:240-261 | the first top-level comment is the original poster's and is rated A1 |
| Rating.RankTable | 3.py:34-39 | the ranks run A1=1 up to D=9; only the empty rating gets 100; distinct ratings get distinct ranks |
| Rating.Rank | 3.py:34-39 | an unrated comment ranks 100, and every tier ranks between 1 and 9; Rating.RankTable gives the full order |
| App.RatingSortLeadsWithA1 | 3.py:547 | the ascending Rating sort of a non-empty top level puts an A1 comment first |
| App.ByRank | 3.py:547 | no contract of its own: the rank of a record's rating as the sort key, 100 when it has none |
| Timestamp.InvalidExactlyOutOfRange | 3.py:338-339 | the invalid-time text comes back exactly when ts < 0 or ts > 10^12 |
| Timestamp.MillisecondBranchUnreachable | 3.py:338-345 | every accepted value reaches the date library unchanged; a millisecond timestamp, up to 1000 * 10^12, would rescale into the accepted range and is rejected instead, so the rescaling never runs |
| Timestamp.ConvertTimestamp | 3.py:336-347 | a value below 0 or above 10^12 gives the invalid-time text; any other value gives the date library's text for that very value, or the unknown-time text with the library's error |
| Timestamp.Display | 3.py:345-347 | no contract of its own: the library's text, or the unknown-time text wrapping the library's error |
| Search.FilterComments | 3.py:517-518 | an id is kept exactly when its comment's lowercased nickname or lowercased content contains the query, and it keeps its entry |
| Search.FilterOrder | 3.py:517-518 | the filtered key order is the matched ids in the order of comments |
| Search.KeepMatched | 3.py:521 | a filtered list is an order-preserving sublist holding exactly the replies whose ids matched |
| Search.FilterIsSubmap | 3.py:511-518 | the filtered map is part of comments, it holds exactly the matching comments, and its key order lists exactly its keys |
| Search.FilteredRepliesAreSublists | 3.py:519-523 | each filtered reply list is non-empty, is an order-preserving sublist of the original list, and holds exactly its matched replies |
| Search.FilteredParents | 3.py:520-523 | a parent id keeps a filtered list exactly when one of its replies matched |
| Search.MatchedCommentPlaced | 3.py:297-301 | a matched comment heads the filtered view exactly when its parent did not match, and it is always listed under its parent among the filtered replies |
| Search.NoMatchEmptiesView | 3.py:517-523 | a query that nothing matches leaves the filtered map and the filtered replies empty |
| Search.Query | 3.py:511 | no contract of its own: the entry stripped, then lowercased; Text.StripSpec and Text.Lower state what each step does |
| Search.Matches | 3.py:518 | no contract of its own: the query occurs in the lowercased nickname or content; Text.ContainsSpec gives the meaning of "occurs" |
| Search.FilterReplies | 3.py:519-523 | no contract of its own: the reply lists cut down to their matched entries, dropping empty ones; Search.FilteredRepliesAreSublists and Search.FilteredParents state its properties |
| App.CommentApp.SearchComments | 3.py:510-524 | an empty stripped query changes nothing and shows the unfiltered tree; any other query stores the filtered map, order and reply lists and shows the filtered tree |
| App.FilterReplyLists | 3.py:519-523 | the loop over the reply lists builds the filtered reply index |
| Search.TopViewSpec | 3.py:297-309 | the view is a permutation of the top-level comments, sorted by create_time in the chosen direction, and stable among equal times |
| Search.TopView | 3.py:297-309 | no contract of its own: the top-level comments sorted by create_time; Search.TopViewSpec states its properties |
| App.CommentApp.PopulateTree | 3.py:297-309 | the view of the full or the filtered index is a permutation of its top-level comments, sorted by create_time in the Time column's direction, and stable |
| App.CommentApp.TimeReverse | 3.py:309 | no contract of its own: the Time column's direction, false when it has no entry, used by the view and the export (3.py:405) |
| App.CommentApp.constructor | 3.py:25-31 | every column starts ascending (False); the store, the ratings, the original poster and the filter start empty, as 3.py:114-119 sets them |
| App.CommentApp.SortColumn | 3.py:526-549 | the column's direction flips and nothing else changes; Time and Rating return the top level sorted by create_time or by rank; the other columns fail with a KeyError naming the column unless the top level is empty |
| Sorting.SortByPermutes | 3.py:238 | the sort returns a permutation of its input |
| Sorting.SortBySorted | 3.py:238 | the sort returns its input ordered by the key, descending when reverse is set |
| Sorting.SortByStable | 3.py:309 | elements with equal keys keep their relative order, in both directions |
| Sorting.SortByCharacterised | 3.py:543 | any sorted, stable rearrangement of the input is the sort's result |
| Sorting.SortDescendingIsReversal | 3.py:309 | with pairwise distinct keys, the descending sort is the ascending sort reversed |
| Sorting.SortBy | 3.py:238 | no contract of its own: a stable insertion sort on an integer key; the SortBy lemmas above state permutation, order, stability and uniqueness |
| Text.StripSpec | 3.py:203 | strip removes exactly the leading and trailing whitespace |
| Text.StripEmptyIffBlank | 3.py:205 | a stripped text is empty exactly when the text was blank |
| Text.Strip | 3.py:203 | no contract of its own: leading, then trailing whitespace removed; Text.StripSpec states the result |
| Text.Lower | 3.py:518 | the result has the same length, and each character is lowercased (ASCII letters only) |
| Text.Contains | 3.py:518 | no contract of its own: the substring test; Text.ContainsSpec states its meaning |
| Text.ContainsSpec | 3.py:518 | the substring test holds exactly when the needle occurs at some position of the text |
| Basics.DecimalRoundTrip | 3.py:201 | the decimal text of a row index reads back as that index |
| Basics.NatToStringInjective | 3.py:201 | distinct row indices give distinct id suffixes; CommentStore.RewrittenIdsDistinct uses it |
| TextExport.Indent | 3.py:499 | the indent is 4 * (level + 1) spaces |
| TextExport.ReplyHeader | 3.py:499-506 | six writes, a thin contract; TextExport.HeaderLayout states that each ends with a newline and starts with the reply's indent |
| TextExport.WriteReplies | 3.py:496-508 | no contract of its own: write_replies with a frame budget; TextExport.RepliesLayout and TextExport.SelfFiledNeverEnds state its layout and when it fails |
| TextExport.Entries | 3.py:498-508 | no contract of its own: the loop of write_replies; TextExport.EntriesLayout, TextExport.EntriesLabels and TextExport.EntriesFail state its properties |
| TextExport.PostHead | 3.py:408-415 | seven writes, a thin contract; TextExport.PostBlockLayout states the opening lines |
| TextExport.PostBlock | 3.py:407-420 | no contract of its own: one top-level block; TextExport.PostBlockLayout states how it opens and closes |
| TextExport.PostBlockLayout | 3.py:407-420 | a block opens with "{" and its main_post line, and closes with "}" and a blank line when its replies were all written |
| TextExport.Blocks | 3.py:407-420 | no contract of its own: the loop over the top-level comments; TextExport.BlocksFail states when it fails |
| TextExport.ExportTxt | 3.py:395-420 | no contract of its own: the blocks of the sorted top-level comments; TextExport.ReachableLoopNeverExports and App.CommentApp.ExportText state its properties |
| TextExport.HeaderLayout | 3.py:499-506 | each of the six writes of a reply ends with a newline and starts with 4 * (level + 1) spaces |
| TextExport.RepliesLayout | 3.py:496-508 | every write of a reply subtree ends with a newline and starts with at least 4 * (level + 1) spaces |
| TextExport.EntriesLayout | 3.py:498-508 | every write of the reply loop ends with a newline and starts with at least 4 * (level + 1) spaces |
| TextExport.EntriesLabels | 3.py:498-500 | a finished reply loop writes at least six lines per reply, and the first is labelled "replyer1:" |
| TextExport.EntriesPrefix | 3.py:498-508 | in a reply loop that runs to the end, every prefix of the replies is complete too, and its writes begin the loop's writes |
| TextExport.EntriesTurn | 3.py:498-506 | in a reply loop that runs to the end, the i-th reply's six writes follow right after everything written for the replies before it, and the first is its label "replyer{i}:" counting from 1 |
| TextExport.EntriesFail | 3.py:507-508 | a reply subtree that exceeds the recursion limit ends the whole loop that holds it |
| TextExport.BlocksFail | 3.py:417-418 | a failing reply subtree ends the export at the block it belongs to |
| TextExport.SelfFiledNeverEnds | 3.py:496-508 | a reply filed under the id it is itself stored under makes write_replies fail whatever the recursion limit |
| TextExport.ReachableLoopNeverExports | 3.py:407-420 | if a top-level post reaches such a self-filed reply, the export fails whatever the recursion limit |
| TextExport.LoopRowsStore | 3.py:197-229 | in the three-row example, rows 1 and 2 are both stored as "a_2" and the key "a_2" names row 2; the key order is "a", "a_2"; row 1 stays a reply of "a", and row 2 is filed under "a_2" |
| TextExport.LoopRowsNeverExport | 3.py:496-508 | the text export of the three-row example never finishes |
| App.CommentApp.ExportText | 3.py:395-420 | the writes and the finished flag are those of the text export of the current store, ratings and Time direction |
| App.WriteRepliesOut | 3.py:496-508 | the writes of write_replies for a parent at a depth, up to where the recursion limit stops them |
| App.WriteReplyOut | 3.py:498-508 | one turn of the reply loop: the reply's six lines and its subtree, or the end of the loop when the subtree runs out of frames |

## Left out

- Tkinter: the widgets, the headings and arrows, the progress bar and the
  message boxes are not modelled. They cover 3.py:11-111 and 156-170, and the
  heading loop of `sort_column` at 3.py:531-536.
- Tree insertion: the Treeview insertion and deletion are not modelled
  (3.py:294-295, 311-334, 551-565). These are `insert_replies` and the redraw
  at the end of `sort_column`. The model returns the ordered top-level list
  instead.
- The warning message box in `process_data` (3.py:232-234) is not shown. The
  list of ids it would name is returned in `Loaded`.
- Threads, `root.after` dispatch and `refresh_tree` (3.py:349-372) are left
  out. This is concurrency plumbing.
- `read_csv` with the utf-8 / gbk fallback (3.py:130-154) is not modelled.
  The table arrives as a header and a list of rows with every cell as text.
  `to_numeric` becomes an optional integer per row. Empty cells, which pandas
  reads as NaN, are not modelled.
- Date formatting with `datetime.fromtimestamp` and `ZoneInfo` (3.py:343-347)
  is an uninterpreted parameter `render`. Its exception text is a `Fault`
  value.
- Files: the file dialogs, opening the file and the `write` calls are not
  modelled. The text export returns the sequence of strings it would write.
  An exception in the middle of the export shows up as `complete == false`.
- The CSV export (3.py:435-494) is not modelled: it only feeds a pandas
  DataFrame.
- The `replyer_number` shown in the tree rows and the order of the reply rows
  in the tree are not modelled. They come from `insert_replies`, which is not
  part of this model.
- Recursion: the unused `replyer_count` parameter of `write_replies` is not
  modelled, and the recursion limit is the `fuel` parameter.
- TextExport.WriteReplies: the last writes of a failed export are
  approximate. The model stops at the call that has no frame left, before
  that call writes anything. CPython raises the RecursionError at some later
  inner call, such as `convert_timestamp` right after the `replyer{idx}:`
  write (3.py:500-501), and the file keeps what was written. The writes
  before the cut, and the fact that the export fails, are modelled.
- Text.Lower: lowercases ASCII letters only, because there is no Unicode case
  mapping in the model.
- App.CommentApp.SortColumn: the non-working columns are modelled as a
  KeyError outcome. They are not modelled as sorts, because the key they look
  up is not in the comment records.
- App.CommentApp.SortColumn: the redraw picks the filtered reply counts when
  `filtered_comments` is non-empty (3.py:558, 565). That redraw is not
  modelled.
- App.CommentApp.ProcessData: `self.df` is not a field. The coerced
  create_time and the `dropna` are applied to the row list passed in.
