/** The comment store builder (CommentApp.process_data, first part): it checks
    the schema, turns the rows of the loaded table into comment records, files
    every record under its id in `comments` and under its parent's id in
    `replies`, sorts every reply list by `create_time`, and identifies the
    top-level comments and the original poster.

    Python's comment dicts are objects shared between `comments` and the reply
    lists. The model keeps them in `records`, keyed by the pandas index label
    of the row each one was built from (its position in the table), and lets
    `comments` and `replies` refer to them by that label. */
module CommentStore {
  import opened Basics
  import opened Text
  import opened Sorting

  // ------------------------------------------------------------------ data

  /** The columns the loader requires, in the order it reports missing ones. */
  const RequiredColumns: seq<string> := [
    "comment_id", "parent_comment_id", "create_time",
    "video_id", "content", "user_id", "nickname",
    "avatar", "sub_comment_count", "last_modify_ts"
  ]

  /** One row of the table, every cell read as text. `createTime` is the cell
      after numeric coercion: None when it is not a number. */
  datatype Row = Row(
    commentId: string, parentId: string, createTime: Option<int>, videoId: string,
    content: string, userId: string, nickname: string, avatar: string,
    subCommentCount: string, lastModifyTs: string)

  /** The loaded table: its header and its rows, whose positions are the pandas index labels. */
  datatype Table = Table(columns: seq<string>, rows: seq<Row>)

  /** A comment record (the dict built per row, without its "rating" entry). */
  datatype Comment = Comment(
    id: string, parentId: string, createTime: int, content: string,
    nickname: string, userId: string, avatar: string, subCommentCount: string,
    lastModifyTs: string, videoId: string)

  /** The store: `records` holds every record built (by row index); `comments`
      maps an id to the record it currently names, with `order` its key order;
      `replies` maps a parent id to the records filed under it, with `parents`
      its key order. */
  datatype Store = Store(
    records: map<nat, Comment>,
    order: seq<string>,
    comments: map<string, nat>,
    parents: seq<string>,
    replies: map<string, seq<nat>>)

  /** A built store with the ids of the comments whose video id was blank. */
  datatype Ingest = Ingest(store: Store, missingVideo: seq<string>)

  // ---------------------------------------------------------------- schema

  function MissingFrom(required: seq<string>, columns: seq<string>): (missing: seq<string>)
    ensures forall c :: c in missing <==> c in required && c !in columns
    ensures IsSubsequence(missing, required)
    decreases |required|
  {
    if required == [] then []
    else if required[0] in columns then
      var rest := MissingFrom(required[1..], columns);
      SubsequenceOfTail(rest, required);
      rest
    else [required[0]] + MissingFrom(required[1..], columns)
  }

  /** The required columns absent from the header, in the order of RequiredColumns. */
  function MissingColumns(columns: seq<string>): (missing: seq<string>)
    ensures forall c :: c in missing <==> c in RequiredColumns && c !in columns
    ensures IsSubsequence(missing, RequiredColumns)
  {
    MissingFrom(RequiredColumns, columns)
  }

  // ------------------------------------------------------------ row intake

  predicate IsBlank(s: string)
  {
    forall i | 0 <= i < |s| :: IsSpace(s[i])
  }

  /** The video id as stored: stripped, and "N/A" when nothing is left. */
  function StoredVideoId(raw: string): (videoId: string)
    ensures videoId != ""
    ensures videoId == Strip(raw) || (videoId == "N/A" && Strip(raw) == "")
  {
    var t := Strip(raw);
    if t == "" then "N/A" else t
  }

  /** A blank video id is stored as "N/A"; any other is stored stripped, and
      is then never empty. */
  lemma StoredVideoIdSpec(raw: string)
    ensures IsBlank(raw) ==> StoredVideoId(raw) == "N/A"
    ensures !IsBlank(raw) ==> StoredVideoId(raw) == Strip(raw) && StoredVideoId(raw) != ""
  {
    StripEmptyIffBlank(raw);
  }

  /** The id a row is stored under: its own, or "{id}_{idx}" when its own is already a key. */
  function NewId(st: Store, row: Row, idx: nat): (id: string)
    ensures row.commentId !in st.comments ==> id == row.commentId
    ensures row.commentId in st.comments ==>
      id == row.commentId + "_" + NatToString(idx) && id != row.commentId
  {
    if row.commentId in st.comments then row.commentId + "_" + NatToString(idx) else row.commentId
  }

  function Children(st: Store, id: string): seq<nat>
  {
    if id in st.replies then st.replies[id] else []
  }

  /** The record built from the row with index `idx`, stored under `id`. */
  function RecordOf(row: Row, id: string): (c: Comment)
    requires row.createTime.Some?
    ensures c.id == id && Carries(c, row)
  {
    Comment(id, row.parentId, row.createTime.value, row.content, row.nickname,
            row.userId, row.avatar, row.subCommentCount, row.lastModifyTs,
            StoredVideoId(row.videoId))
  }

  /** The store after one pass of the row loop, for the row with index `idx`. */
  function AddRecord(st: Store, idx: nat, row: Row): Store
    requires row.createTime.Some?
  {
    var id := NewId(st, row, idx);
    Store(
      st.records[idx := RecordOf(row, id)],
      if id in st.comments then st.order else st.order + [id],
      st.comments[id := idx],
      if row.parentId in st.replies then st.parents else st.parents + [row.parentId],
      st.replies[row.parentId := Children(st, row.parentId) + [idx]])
  }

  /** One pass of the row loop, with the blank-video warning it may record. */
  function Append(b: Ingest, idx: nat, row: Row): Ingest
    requires row.createTime.Some?
  {
    var id := NewId(b.store, row, idx);
    Ingest(AddRecord(b.store, idx, row),
      if Strip(row.videoId) == "" then b.missingVideo + [id] else b.missingVideo)
  }

  const EmptyStore := Store(map[], [], map[], [], map[])

  /** The store after the row loop has seen the first `n` rows; rows whose
      create_time is not a number are skipped (dropped before the loop). */
  function IngestRows(rows: seq<Row>, n: nat): Ingest
    requires n <= |rows|
    decreases n
  {
    if n == 0 then Ingest(EmptyStore, [])
    else
      var b := IngestRows(rows, n - 1);
      if rows[n - 1].createTime.Some? then Append(b, n - 1, rows[n - 1]) else b
  }

  /** The key the reply lists are sorted by: a record's create_time. */
  function ByTime(records: map<nat, Comment>): nat -> int
  {
    s => if s in records then records[s].createTime else 0
  }

  /** Every reply list sorted, stably, by create_time. */
  function SortReplies(st: Store): Store
  {
    st.(replies := map p | p in st.replies :: SortBy(st.replies[p], ByTime(st.records), false))
  }

  /** The row loop followed by the sort of every reply list. */
  function Build(rows: seq<Row>): Ingest
  {
    var b := IngestRows(rows, |rows|);
    Ingest(SortReplies(b.store), b.missingVideo)
  }

  // ---------------------------------------------------------- invariants

  predicate Distinct<T(==)>(s: seq<T>)
  {
    forall i, j | 0 <= i < j < |s| :: s[i] != s[j]
  }

  predicate Increasing(s: seq<nat>)
  {
    forall i, j | 0 <= i < j < |s| :: s[i] < s[j]
  }

  /** `order` lists the keys of `comments` once each, and every id names a
      record that carries that id. */
  ghost predicate IdIndex(st: Store)
  {
    && Distinct(st.order)
    && (forall id :: id in st.comments <==> id in st.order)
    && (forall id | id in st.comments :: st.comments[id] in st.records && st.records[st.comments[id]].id == id)
  }

  /** `parents` lists the keys of `replies` once each, and every reply list
      holds records whose parent id is that key. */
  ghost predicate ReplyIndex(st: Store)
  {
    && Distinct(st.parents)
    && (forall p :: p in st.replies <==> p in st.parents)
    && (forall p, s | p in st.replies && s in st.replies[p] :: s in st.records && st.records[s].parentId == p)
  }

  /** Every record sits exactly once in the reply list of its own parent id. */
  ghost predicate FiledOnce(st: Store)
  {
    forall s | s in st.records ::
      st.records[s].parentId in st.replies && multiset(st.replies[st.records[s].parentId])[s] == 1
  }

  /** The shape every built store has. */
  ghost predicate Consistent(st: Store)
  {
    IdIndex(st) && ReplyIndex(st) && FiledOnce(st)
  }

  /** Record `c` carries the cells of `row` (all but the id, which may be rewritten). */
  predicate Carries(c: Comment, row: Row)
  {
    && row.createTime.Some?
    && c.parentId == row.parentId && c.createTime == row.createTime.value
    && c.content == row.content && c.nickname == row.nickname && c.userId == row.userId
    && c.avatar == row.avatar && c.subCommentCount == row.subCommentCount
    && c.lastModifyTs == row.lastModifyTs && c.videoId == StoredVideoId(row.videoId)
  }

  /** How a store built from the first `n` rows relates to them: one record
      per row with a numeric create_time, carrying that row's cells. */
  ghost predicate RecordsFromRows(records: map<nat, Comment>, rows: seq<Row>, n: nat)
    requires n <= |rows|
  {
    && (forall s | s in records :: s < n && Carries(records[s], rows[s]))
    && (forall i | 0 <= i < n && rows[i].createTime.Some? :: i in records)
  }

  /** Reply lists are in row order. */
  ghost predicate RowOrdered(st: Store)
  {
    forall p | p in st.replies :: Increasing(st.replies[p])
  }

  ghost predicate FromRows(st: Store, rows: seq<Row>, n: nat)
    requires n <= |rows|
  {
    RecordsFromRows(st.records, rows, n) && RowOrdered(st)
  }

  lemma AddRecordIdIndex(st: Store, n: nat, row: Row)
    requires row.createTime.Some? && n !in st.records && IdIndex(st)
    ensures IdIndex(AddRecord(st, n, row))
  {
    var st', id := AddRecord(st, n, row), NewId(st, row, n);
    assert st'.records[n].id == id;
    forall x | x in st'.comments
      ensures st'.comments[x] in st'.records && st'.records[st'.comments[x]].id == x
    {
      if x != id {
        assert st.comments[x] != n;
      }
    }
  }

  lemma AddRecordReplyIndex(st: Store, n: nat, row: Row)
    requires row.createTime.Some? && n !in st.records && ReplyIndex(st)
    ensures ReplyIndex(AddRecord(st, n, row))
  {
    var st', q := AddRecord(st, n, row), row.parentId;
    var kids := Children(st, q);
    forall p, s | p in st'.replies && s in st'.replies[p]
      ensures s in st'.records && st'.records[s].parentId == p
    {
      if p == q && s != n {
        assert s in kids;
      }
    }
  }

  lemma AddRecordFiledOnce(st: Store, n: nat, row: Row)
    requires row.createTime.Some? && n !in st.records && ReplyIndex(st) && FiledOnce(st)
    ensures FiledOnce(AddRecord(st, n, row))
  {
    var st', q := AddRecord(st, n, row), row.parentId;
    var kids := Children(st, q);
    assert n !in kids;
    assert multiset(kids + [n]) == multiset(kids) + multiset{n};
    forall s | s in st'.records
      ensures st'.records[s].parentId in st'.replies
      ensures multiset(st'.replies[st'.records[s].parentId])[s] == 1
    {
      if s != n && st.records[s].parentId == q {
        assert multiset(st'.replies[q])[s] == multiset(kids)[s];
      }
    }
  }

  lemma AddRecordRecords(rows: seq<Row>, records: map<nat, Comment>, n: nat, c: Comment)
    requires n < |rows| && Carries(c, rows[n])
    requires RecordsFromRows(records, rows, n)
    ensures RecordsFromRows(records[n := c], rows, n + 1)
  {
    var records' := records[n := c];
    forall s | s in records' ensures s < n + 1 && Carries(records'[s], rows[s]) {
      if s != n {
        assert records'[s] == records[s];
      }
    }
    forall i | 0 <= i < n + 1 && rows[i].createTime.Some? ensures i in records' {
      if i < n {
        assert i in records;
      }
    }
  }

  lemma AddRecordOrdered(st: Store, n: nat, row: Row)
    requires row.createTime.Some? && ReplyIndex(st) && RowOrdered(st)
    requires forall s | s in st.records :: s < n
    ensures RowOrdered(AddRecord(st, n, row))
  {
    var q := row.parentId;
    var kids := Children(st, q);
    var replies' := st.replies[q := kids + [n]];
    assert AddRecord(st, n, row).replies == replies';
    assert Increasing(kids);
    forall i | 0 <= i < |kids| ensures kids[i] < n {
      assert q in st.replies && kids[i] in st.replies[q];
      assert kids[i] in st.records;
    }
    assert Increasing(kids + [n]);
    forall p | p in replies' ensures Increasing(replies'[p]) {
      if p != q {
        assert replies'[p] == st.replies[p];
      }
    }
  }

  lemma AppendPreserves(rows: seq<Row>, n: nat, b: Ingest)
    requires n < |rows| && rows[n].createTime.Some?
    requires Consistent(b.store) && FromRows(b.store, rows, n)
    ensures Consistent(Append(b, n, rows[n]).store)
    ensures FromRows(Append(b, n, rows[n]).store, rows, n + 1)
  {
    var st := b.store;
    assert n !in st.records;
    AddRecordIdIndex(st, n, rows[n]);
    AddRecordReplyIndex(st, n, rows[n]);
    AddRecordFiledOnce(st, n, rows[n]);
    var c := RecordOf(rows[n], NewId(st, rows[n], n));
    assert Carries(c, rows[n]);
    AddRecordRecords(rows, st.records, n, c);
    AddRecordOrdered(st, n, rows[n]);
  }

  /** Every prefix of the row loop leaves a consistent store that carries its rows. */
  lemma {:induction false} IngestInvariant(rows: seq<Row>, n: nat)
    requires n <= |rows|
    ensures Consistent(IngestRows(rows, n).store)
    ensures FromRows(IngestRows(rows, n).store, rows, n)
    decreases n
  {
    if n > 0 {
      IngestInvariant(rows, n - 1);
      if rows[n - 1].createTime.Some? {
        AppendPreserves(rows, n - 1, IngestRows(rows, n - 1));
      }
    }
  }

  /** Once built, the record of row `i` is never touched by later rows. */
  lemma {:induction false} RecordSettled(rows: seq<Row>, i: nat, n: nat)
    requires i < n <= |rows| && rows[i].createTime.Some?
    ensures i in IngestRows(rows, n).store.records
    ensures IngestRows(rows, n).store.records[i] == IngestRows(rows, i + 1).store.records[i]
    decreases n
  {
    if n > i + 1 {
      RecordSettled(rows, i, n - 1);
    }
  }

  // ---------------------------------------------------------- sorted store

  lemma SortRepliesPermutes(st: Store, p: string)
    requires p in st.replies
    ensures p in SortReplies(st).replies
    ensures multiset(SortReplies(st).replies[p]) == multiset(st.replies[p])
  {
    SortByPermutes(st.replies[p], ByTime(st.records), false);
  }

  /** The sort moves no record into or out of a reply list. */
  lemma SortedMember(st: Store, p: string, s: nat)
    requires p in SortReplies(st).replies && s in SortReplies(st).replies[p]
    ensures p in st.replies && s in st.replies[p]
  {
    SortRepliesPermutes(st, p);
    assert s in multiset(SortReplies(st).replies[p]);
  }

  lemma SortRepliesReplyIndex(st: Store)
    requires ReplyIndex(st)
    ensures ReplyIndex(SortReplies(st))
  {
    var st' := SortReplies(st);
    assert st'.records == st.records && st'.parents == st.parents;
    assert forall p :: p in st'.replies <==> p in st.replies;
    forall p, s | p in st'.replies && s in st'.replies[p]
      ensures s in st'.records && st'.records[s].parentId == p
    {
      SortedMember(st, p, s);
    }
  }

  lemma SortRepliesFiledOnce(st: Store)
    requires FiledOnce(st)
    ensures FiledOnce(SortReplies(st))
  {
    var st' := SortReplies(st);
    forall s | s in st'.records
      ensures st'.records[s].parentId in st'.replies
      ensures multiset(st'.replies[st'.records[s].parentId])[s] == 1
    {
      SortRepliesPermutes(st, st.records[s].parentId);
    }
  }

  lemma SortRepliesConsistent(st: Store)
    requires Consistent(st)
    ensures Consistent(SortReplies(st))
  {
    var st' := SortReplies(st);
    assert st'.records == st.records && st'.comments == st.comments && st'.order == st.order;
    assert IdIndex(st');
    SortRepliesReplyIndex(st);
    SortRepliesFiledOnce(st);
  }

  /** The built store is consistent, keeps one record per row with a numeric
      create_time, and each record carries its row's cells. */
  lemma {:induction false} BuildConsistent(rows: seq<Row>)
    ensures Consistent(Build(rows).store)
    ensures forall s | s in Build(rows).store.records ::
      s < |rows| && Carries(Build(rows).store.records[s], rows[s])
    ensures forall i | 0 <= i < |rows| && rows[i].createTime.Some? :: i in Build(rows).store.records
  {
    IngestInvariant(rows, |rows|);
    SortRepliesConsistent(IngestRows(rows, |rows|).store);
  }

  /** The id a row is stored under: its own `comment_id`, unless that is
      already a key when the row is reached, in which case "{comment_id}_{idx}"
      with `idx` the row's index; the rewritten id is not checked again. */
  lemma {:induction false} StoredIdRule(rows: seq<Row>, i: nat)
    requires i < |rows| && rows[i].createTime.Some?
    ensures i in Build(rows).store.records
    ensures Build(rows).store.records[i].id ==
      if rows[i].commentId in IngestRows(rows, i).store.comments
      then rows[i].commentId + "_" + NatToString(i)
      else rows[i].commentId
  {
    RecordSettled(rows, i, |rows|);
  }

  /** Two rows with the same `comment_id` that both find it taken are stored
      under different ids: the row-index suffixes differ. */
  lemma {:induction false} RewrittenIdsDistinct(rows: seq<Row>, i: nat, j: nat)
    requires i < |rows| && j < |rows| && i != j
    requires rows[i].createTime.Some? && rows[j].createTime.Some?
    requires rows[i].commentId == rows[j].commentId
    requires rows[i].commentId in IngestRows(rows, i).store.comments
    requires rows[j].commentId in IngestRows(rows, j).store.comments
    ensures i in Build(rows).store.records && j in Build(rows).store.records
    ensures Build(rows).store.records[i].id != Build(rows).store.records[j].id
  {
    StoredIdRule(rows, i);
    StoredIdRule(rows, j);
    var id := rows[i].commentId;
    var a, b := id + "_" + NatToString(i), id + "_" + NatToString(j);
    if a == b {
      assert a[|id| + 1..] == NatToString(i);
      assert b[|id| + 1..] == NatToString(j);
      NatToStringInjective(i, j);
    }
  }

  // ------------------------------------------------ which record a key names

  /** Every stored id is a key, naming this record or a later one. */
  ghost predicate LastWins(st: Store)
  {
    forall s | s in st.records :: st.records[s].id in st.comments && s <= st.comments[st.records[s].id]
  }

  lemma AddRecordLastWins(st: Store, n: nat, row: Row)
    requires row.createTime.Some? && LastWins(st)
    requires forall s | s in st.records :: s < n
    ensures LastWins(AddRecord(st, n, row))
  {
    var st', id := AddRecord(st, n, row), NewId(st, row, n);
    forall s | s in st'.records
      ensures st'.records[s].id in st'.comments && s <= st'.comments[st'.records[s].id]
    {
      if s != n {
        var x := st.records[s].id;
        assert st'.records[s] == st.records[s];
        if x != id {
          assert st'.comments[x] == st.comments[x];
        }
      }
    }
  }

  lemma {:induction false} IngestLastWins(rows: seq<Row>, n: nat)
    requires n <= |rows|
    ensures LastWins(IngestRows(rows, n).store)
    decreases n
  {
    if n > 0 {
      IngestLastWins(rows, n - 1);
      IngestInvariant(rows, n - 1);
      if rows[n - 1].createTime.Some? {
        AddRecordLastWins(IngestRows(rows, n - 1).store, n - 1, rows[n - 1]);
      }
    }
  }

  /** The assignment `comments[id] = comment` overwrites: every stored id is a
      key of `comments`, and the key names the record of the last kept row
      stored under it (the key names a record carrying that id, and no record
      under that id comes after it). An earlier record under the same id is
      displaced from `comments`, though it stays in its reply list. */
  lemma {:induction false} KeyNamesLastRow(rows: seq<Row>)
    ensures var st := Build(rows).store;
      forall s | s in st.records :: st.records[s].id in st.comments && s <= st.comments[st.records[s].id]
    ensures var st := Build(rows).store;
      forall id | id in st.comments :: st.comments[id] in st.records && st.records[st.comments[id]].id == id
  {
    IngestLastWins(rows, |rows|);
    BuildConsistent(rows);
  }

  /** The first record below `n`, by row, stored under `id`, if there is one. */
  function FirstUnder(records: map<nat, Comment>, id: string, n: nat): (first: Option<nat>)
    ensures first.Some? ==> first.value < n && first.value in records && records[first.value].id == id
    ensures first.Some? ==> forall t | t < first.value && t in records :: records[t].id != id
    ensures first.None? ==> forall t | t < n && t in records :: records[t].id != id
    decreases n
  {
    if n == 0 then None
    else
      var earlier := FirstUnder(records, id, n - 1);
      if earlier.Some? then earlier
      else if n - 1 in records && records[n - 1].id == id then Some(n - 1)
      else None
  }

  /** The ids in `order` each have a record below `n`, and their first records come in `order`'s order. */
  ghost predicate FirstStoredOrder(records: map<nat, Comment>, order: seq<string>, n: nat)
  {
    && (forall k | 0 <= k < |order| :: FirstUnder(records, order[k], n).Some?)
    && (forall a, b | 0 <= a < b < |order| ::
          FirstUnder(records, order[a], n).value < FirstUnder(records, order[b], n).value)
  }

  /** A record of the built store below `n` has its id among the keys after `n` rows. */
  lemma StoredIdIsKey(rows: seq<Row>, n: nat, s: nat)
    requires s < n <= |rows| && s in IngestRows(rows, |rows|).store.records
    ensures IngestRows(rows, |rows|).store.records[s].id in IngestRows(rows, n).store.comments
  {
    IngestInvariant(rows, |rows|);
    RecordSettled(rows, s, |rows|);
    RecordSettled(rows, s, n);
    IngestLastWins(rows, n);
  }

  /** A first record, once found, stays the first as more rows are seen. */
  lemma FirstUnderKept(records: map<nat, Comment>, id: string, m: nat)
    requires FirstUnder(records, id, m).Some?
    ensures FirstUnder(records, id, m + 1) == FirstUnder(records, id, m)
  { }

  /** A row that files no new key leaves the first records of the keys where they were. */
  lemma OrderStepSame(records: map<nat, Comment>, order: seq<string>, m: nat)
    requires FirstStoredOrder(records, order, m)
    ensures FirstStoredOrder(records, order, m + 1)
  {
    forall k | 0 <= k < |order| ensures FirstUnder(records, order[k], m + 1) == FirstUnder(records, order[k], m) {
      FirstUnderKept(records, order[k], m);
    }
  }

  /** A row that files a new key appends it, with that row as its first record. */
  lemma OrderStepNew(records: map<nat, Comment>, order: seq<string>, id: string, m: nat)
    requires FirstStoredOrder(records, order, m)
    requires FirstUnder(records, id, m).None? && m in records && records[m].id == id
    ensures FirstStoredOrder(records, order + [id], m + 1)
  {
    var order' := order + [id];
    assert FirstUnder(records, id, m + 1) == Some(m);
    forall k | 0 <= k < |order| ensures FirstUnder(records, order'[k], m + 1) == FirstUnder(records, order[k], m) {
      assert order'[k] == order[k];
      FirstUnderKept(records, order[k], m);
    }
    assert forall k | 0 <= k < |order'| :: FirstUnder(records, order'[k], m + 1).Some?;
    forall a, b | 0 <= a < b < |order'|
      ensures FirstUnder(records, order'[a], m + 1).value < FirstUnder(records, order'[b], m + 1).value
    {
      if b == |order| {
        assert order'[b] == id;
      }
    }
  }

  lemma {:induction false} IngestOrder(rows: seq<Row>, n: nat)
    requires n <= |rows|
    ensures FirstStoredOrder(IngestRows(rows, |rows|).store.records, IngestRows(rows, n).store.order, n)
    decreases n
  {
    if n > 0 {
      var all := IngestRows(rows, |rows|).store.records;
      var st, row := IngestRows(rows, n - 1).store, rows[n - 1];
      IngestOrder(rows, n - 1);
      if row.createTime.Some? && NewId(st, row, n - 1) !in st.comments {
        var id := NewId(st, row, n - 1);
        RecordSettled(rows, n - 1, |rows|);
        forall s | s < n - 1 && s in all ensures all[s].id in st.comments {
          StoredIdIsKey(rows, n - 1, s);
        }
        assert IngestRows(rows, n).store.order == st.order + [id];
        OrderStepNew(all, st.order, id, n - 1);
      } else {
        assert IngestRows(rows, n).store.order == st.order;
        OrderStepSame(all, st.order, n - 1);
      }
    }
  }

  /** `order` is the order in which each id was first stored: every key's
      first record exists, and the first records of the keys come in that
      order. With `IdIndex` (the keys once each) and `KeyNamesLastRow`
      (every stored id is a key), it lists exactly the stored ids, by the row
      first stored under each, whichever row the key names now. */
  lemma {:induction false} OrderIsFirstStorageOrder(rows: seq<Row>)
    ensures var st := Build(rows).store;
      && (forall k | 0 <= k < |st.order| :: FirstUnder(st.records, st.order[k], |rows|).Some?)
      && (forall a, b | 0 <= a < b < |st.order| ::
            FirstUnder(st.records, st.order[a], |rows|).value < FirstUnder(st.records, st.order[b], |rows|).value)
  {
    IngestOrder(rows, |rows|);
  }

  /** Each row with a numeric create_time is filed exactly once, in the reply
      list of its raw `parent_comment_id`, and every reply list holds only
      such rows filed under that very parent id. */
  lemma {:induction false} EachRowFiledOnce(rows: seq<Row>)
    ensures forall i | 0 <= i < |rows| && rows[i].createTime.Some? ::
      rows[i].parentId in Build(rows).store.replies
      && multiset(Build(rows).store.replies[rows[i].parentId])[i] == 1
    ensures forall p, s | p in Build(rows).store.replies && s in Build(rows).store.replies[p] ::
      s < |rows| && rows[s].createTime.Some? && rows[s].parentId == p
  {
    BuildConsistent(rows);
  }

  // ------------------------------------------------------- reply list order

  /** Every reply list is sorted ascending by create_time, holds exactly the
      records appended to it, and keeps append order (row order) among equal
      create_times. */
  lemma {:induction false} RepliesSortedStably(rows: seq<Row>, p: string)
    requires p in Build(rows).store.replies
    ensures var appended := IngestRows(rows, |rows|).store.replies;
      var sorted := Build(rows).store.replies;
      var key := ByTime(Build(rows).store.records);
      && p in appended && Increasing(appended[p])
      && Sorted(sorted[p], key, false)
      && multiset(sorted[p]) == multiset(appended[p])
      && forall t :: WithKey(sorted[p], key, t) == WithKey(appended[p], key, t)
  {
    var st := IngestRows(rows, |rows|).store;
    IngestInvariant(rows, |rows|);
    SortBySorted(st.replies[p], ByTime(st.records), false);
    SortByPermutes(st.replies[p], ByTime(st.records), false);
    forall t ensures WithKey(SortBy(st.replies[p], ByTime(st.records), false), ByTime(st.records), t)
                  == WithKey(st.replies[p], ByTime(st.records), t) {
      SortByStable(st.replies[p], ByTime(st.records), false, t);
    }
  }

  lemma {:induction false} WithKeyIncreasing(s: seq<nat>, key: nat -> int, t: int)
    requires Increasing(s)
    ensures Increasing(WithKey(s, key, t))
    decreases |s|
  {
    if s != [] {
      var init := s[..|s| - 1];
      WithKeyIncreasing(init, key, t);
      var w := WithKey(init, key, t);
      forall i | 0 <= i < |w| ensures w[i] < s[|s| - 1] {
        WithKeyMembers(init, key, t, w[i]);
        var k :| 0 <= k < |init| && init[k] == w[i];
        assert s[k] < s[|s| - 1];
      }
    }
  }

  /** Two elements with key `t`, in list order, appear in that order among the elements with key `t`. */
  lemma {:induction false} WithKeyKeepsPositions(s: seq<nat>, key: nat -> int, i: nat, j: nat)
    requires i < j < |s| && key(s[i]) == key(s[j])
    ensures exists a, b | 0 <= a < b < |WithKey(s, key, key(s[i]))| ::
      WithKey(s, key, key(s[i]))[a] == s[i] && WithKey(s, key, key(s[i]))[b] == s[j]
    decreases |s|
  {
    var t, init := key(s[i]), s[..|s| - 1];
    var w := WithKey(s, key, t);
    if j < |s| - 1 {
      WithKeyKeepsPositions(init, key, i, j);
      var a, b :| 0 <= a < b < |WithKey(init, key, t)| &&
        WithKey(init, key, t)[a] == init[i] && WithKey(init, key, t)[b] == init[j];
      assert w[a] == s[i] && w[b] == s[j];
    } else {
      assert w == WithKey(init, key, t) + [s[j]];
      assert s[i] in WithKey(init, key, t) by {
        WithKeyHolds(init, key, i);
      }
      var a :| 0 <= a < |WithKey(init, key, t)| && WithKey(init, key, t)[a] == s[i];
      assert w[a] == s[i] && w[|w| - 1] == s[j];
    }
  }

  lemma {:induction false} WithKeyHolds(s: seq<nat>, key: nat -> int, i: nat)
    requires i < |s|
    ensures s[i] in WithKey(s, key, key(s[i]))
    decreases |s|
  {
    if i < |s| - 1 {
      WithKeyHolds(s[..|s| - 1], key, i);
    }
  }

  /** Replies with equal create_time stay in row order after the sort. */
  lemma {:induction false} TiesKeepRowOrder(rows: seq<Row>, p: string, i: nat, j: nat)
    requires p in Build(rows).store.replies
    requires i < j < |Build(rows).store.replies[p]|
    requires var r := Build(rows).store.replies[p]; var recs := Build(rows).store.records;
      r[i] in recs && r[j] in recs && recs[r[i]].createTime == recs[r[j]].createTime
    ensures Build(rows).store.replies[p][i] < Build(rows).store.replies[p][j]
  {
    var r, key := Build(rows).store.replies[p], ByTime(Build(rows).store.records);
    var appended := IngestRows(rows, |rows|).store.replies[p];
    RepliesSortedStably(rows, p);
    var t := key(r[i]);
    WithKeyKeepsPositions(r, key, i, j);
    WithKeyIncreasing(appended, key, t);
    var w := WithKey(r, key, t);
    var a, b :| 0 <= a < b < |w| && w[a] == r[i] && w[b] == r[j];
    assert w == WithKey(appended, key, t);
  }

  // ----------------------------------------------------------- reply totals

  /** The total length of the reply lists of the given parents. */
  function TotalReplies(parents: seq<string>, replies: map<string, seq<nat>>): nat
    decreases |parents|
  {
    if parents == [] then 0
    else
      var last := parents[|parents| - 1];
      TotalReplies(parents[..|parents| - 1], replies) + (if last in replies then |replies[last]| else 0)
  }

  /** The number of the first `n` rows with a numeric create_time. */
  function Survivors(rows: seq<Row>, n: nat): nat
    requires n <= |rows|
  {
    if n == 0 then 0 else Survivors(rows, n - 1) + (if rows[n - 1].createTime.Some? then 1 else 0)
  }

  lemma {:induction false} TotalUnaffected(parents: seq<string>, replies: map<string, seq<nat>>, q: string, l: seq<nat>)
    requires q !in parents
    ensures TotalReplies(parents, replies[q := l]) == TotalReplies(parents, replies)
    decreases |parents|
  {
    if parents != [] {
      TotalUnaffected(parents[..|parents| - 1], replies, q, l);
    }
  }

  lemma {:induction false} TotalGrows(parents: seq<string>, replies: map<string, seq<nat>>, q: string, x: nat)
    requires Distinct(parents) && q in parents && q in replies
    ensures TotalReplies(parents, replies[q := replies[q] + [x]]) == TotalReplies(parents, replies) + 1
    decreases |parents|
  {
    var init := parents[..|parents| - 1];
    if parents[|parents| - 1] == q {
      assert q !in init;
      TotalUnaffected(init, replies, q, replies[q] + [x]);
    } else {
      assert q in init;
      TotalGrows(init, replies, q, x);
    }
  }

  lemma {:induction false} TotalSameLengths(parents: seq<string>, a: map<string, seq<nat>>, b: map<string, seq<nat>>)
    requires forall p :: p in a <==> p in b
    requires forall p | p in a :: |a[p]| == |b[p]|
    ensures TotalReplies(parents, a) == TotalReplies(parents, b)
    decreases |parents|
  {
    if parents != [] {
      TotalSameLengths(parents[..|parents| - 1], a, b);
    }
  }

  /** Filing one more record adds one to the total. */
  lemma TotalStep(st: Store, x: nat, row: Row)
    requires row.createTime.Some?
    requires Distinct(st.parents) && forall p :: p in st.replies <==> p in st.parents
    ensures TotalReplies(AddRecord(st, x, row).parents, AddRecord(st, x, row).replies)
         == TotalReplies(st.parents, st.replies) + 1
  {
    var q := row.parentId;
    if q in st.replies {
      TotalGrows(st.parents, st.replies, q, x);
    } else {
      var parents' := st.parents + [q];
      TotalUnaffected(st.parents, st.replies, q, [x]);
      assert parents'[..|st.parents|] == st.parents;
      assert Children(st, q) + [x] == [x];
    }
  }

  lemma IngestParents(rows: seq<Row>, n: nat)
    requires n <= |rows|
    ensures Distinct(IngestRows(rows, n).store.parents)
    ensures forall p :: p in IngestRows(rows, n).store.replies <==> p in IngestRows(rows, n).store.parents
  {
    IngestInvariant(rows, n);
  }

  lemma {:induction false} IngestTotal(rows: seq<Row>, n: nat)
    requires n <= |rows|
    ensures TotalReplies(IngestRows(rows, n).store.parents, IngestRows(rows, n).store.replies) == Survivors(rows, n)
    decreases n
  {
    if n > 0 {
      var st := IngestRows(rows, n - 1).store;
      var row := rows[n - 1];
      var before := TotalReplies(st.parents, st.replies);
      assert before == Survivors(rows, n - 1) by {
        IngestTotal(rows, n - 1);
      }
      if row.createTime.Some? {
        var st' := AddRecord(st, n - 1, row);
        assert IngestRows(rows, n).store == st';
        assert TotalReplies(st'.parents, st'.replies) == before + 1 by {
          IngestParents(rows, n - 1);
          TotalStep(st, n - 1, row);
        }
        assert Survivors(rows, n) == Survivors(rows, n - 1) + 1;
      } else {
        assert IngestRows(rows, n) == IngestRows(rows, n - 1);
        assert Survivors(rows, n) == Survivors(rows, n - 1);
      }
    }
  }

  /** The reply lists together hold as many entries as there are rows with a
      numeric create_time. */
  lemma {:induction false} ReplyTotalIsRowCount(rows: seq<Row>)
    ensures TotalReplies(Build(rows).store.parents, Build(rows).store.replies) == Survivors(rows, |rows|)
  {
    var st := IngestRows(rows, |rows|).store;
    IngestTotal(rows, |rows|);
    forall p | p in st.replies ensures |SortReplies(st).replies[p]| == |st.replies[p]| {
      SortRepliesPermutes(st, p);
      assert |multiset(SortReplies(st).replies[p])| == |multiset(st.replies[p])|;
    }
    TotalSameLengths(st.parents, SortReplies(st).replies, st.replies);
  }

  // -------------------------------------------------------- video warnings

  /** The indices, ascending, of the first `n` rows that are kept and whose video id is blank. */
  function BlankVideoRows(rows: seq<Row>, n: nat): seq<nat>
    requires n <= |rows|
  {
    if n == 0 then []
    else
      var kept := rows[n - 1].createTime.Some? && IsBlank(rows[n - 1].videoId);
      BlankVideoRows(rows, n - 1) + (if kept then [n - 1] else [])
  }

  /** The ids of the given records. */
  function IdsOf(records: map<nat, Comment>, slots: seq<nat>): seq<string>
  {
    if slots == [] then []
    else
      var last := slots[|slots| - 1];
      IdsOf(records, slots[..|slots| - 1]) + (if last in records then [records[last].id] else [])
  }

  lemma {:induction false} IdsOfUnaffected(records: map<nat, Comment>, slots: seq<nat>, k: nat, c: Comment)
    requires forall i | 0 <= i < |slots| :: slots[i] < k
    ensures IdsOf(records[k := c], slots) == IdsOf(records, slots)
    decreases |slots|
  {
    if slots != [] {
      IdsOfUnaffected(records, slots[..|slots| - 1], k, c);
    }
  }

  lemma {:induction false} BlankRowsBelow(rows: seq<Row>, n: nat)
    requires n <= |rows|
    ensures forall i | 0 <= i < |BlankVideoRows(rows, n)| :: BlankVideoRows(rows, n)[i] < n
    decreases n
  {
    if n > 0 {
      BlankRowsBelow(rows, n - 1);
    }
  }

  lemma WarningStep(rows: seq<Row>, n: nat, records: map<nat, Comment>, missing: seq<string>, c: Comment)
    requires n < |rows| && rows[n].createTime.Some?
    requires missing == IdsOf(records, BlankVideoRows(rows, n))
    ensures (if IsBlank(rows[n].videoId) then missing + [c.id] else missing) ==
      IdsOf(records[n := c], BlankVideoRows(rows, n + 1))
  {
    var prev := BlankVideoRows(rows, n);
    BlankRowsBelow(rows, n);
    IdsOfUnaffected(records, prev, n, c);
    if IsBlank(rows[n].videoId) {
      var slots := BlankVideoRows(rows, n + 1);
      assert slots == prev + [n];
      assert slots[..|slots| - 1] == prev;
    } else {
      assert BlankVideoRows(rows, n + 1) == prev + [];
      assert BlankVideoRows(rows, n + 1) == prev;
    }
  }

  lemma {:induction false} IngestWarnings(rows: seq<Row>, n: nat)
    requires n <= |rows|
    ensures IngestRows(rows, n).missingVideo == IdsOf(IngestRows(rows, n).store.records, BlankVideoRows(rows, n))
    decreases n
  {
    if n > 0 {
      IngestWarnings(rows, n - 1);
      var b, row := IngestRows(rows, n - 1), rows[n - 1];
      if row.createTime.Some? {
        var c := RecordOf(row, NewId(b.store, row, n - 1));
        WarningStep(rows, n - 1, b.store.records, b.missingVideo, c);
        StripEmptyIffBlank(row.videoId);
        assert IngestRows(rows, n).store.records == b.store.records[n - 1 := c];
      } else {
        assert IngestRows(rows, n) == b;
        assert BlankVideoRows(rows, n) == BlankVideoRows(rows, n - 1) + [];
        assert BlankVideoRows(rows, n) == BlankVideoRows(rows, n - 1);
      }
    }
  }

  /** The warning list names, in row order, the stored (possibly rewritten)
      ids of exactly the kept rows whose video id is blank; those records hold
      "N/A" and every other record the stripped video id. */
  lemma {:induction false} MissingVideoWarnings(rows: seq<Row>)
    ensures Build(rows).missingVideo == IdsOf(Build(rows).store.records, BlankVideoRows(rows, |rows|))
    ensures forall s | s in Build(rows).store.records ::
      s < |rows| && Build(rows).store.records[s].videoId == StoredVideoId(rows[s].videoId)
  {
    IngestWarnings(rows, |rows|);
    BuildConsistent(rows);
  }

  // ------------------------------------------------------ top-level comments

  /** Comment `id` is in `index` and its parent id is not a key of `index`. */
  predicate IsTop(records: map<nat, Comment>, index: map<string, nat>, id: string)
  {
    id in index && index[id] in records && records[index[id]].parentId !in index
  }

  /** The top-level comments of an index (3.py:241): the records it names, in
      its key order `order`, whose parent id is not itself a key. */
  function TopLevel(records: map<nat, Comment>, order: seq<string>, index: map<string, nat>): (top: seq<nat>)
    ensures forall s | s in top :: s in records && records[s].parentId !in index
    decreases |order|
  {
    if order == [] then []
    else
      var head := if IsTop(records, index, order[0]) then [index[order[0]]] else [];
      head + TopLevel(records, order[1..], index)
  }

  /** A record is listed as top-level exactly when some key in `order` names it and it is top-level there. */
  lemma {:induction false} TopLevelMembers(records: map<nat, Comment>, order: seq<string>, index: map<string, nat>, s: nat)
    ensures s in TopLevel(records, order, index) <==>
      exists id | id in order :: IsTop(records, index, id) && index[id] == s
    decreases |order|
  {
    if order != [] {
      TopLevelMembers(records, order[1..], index, s);
      assert forall id :: id in order <==> id == order[0] || id in order[1..];
    }
  }

  /** The first top-level record is the one named by the first top-level key of `order`. */
  lemma {:induction false} TopLevelFirst(records: map<nat, Comment>, order: seq<string>, index: map<string, nat>)
    ensures TopLevel(records, order, index) == [] <==>
      forall k | 0 <= k < |order| :: !IsTop(records, index, order[k])
    ensures TopLevel(records, order, index) != [] ==>
      exists k | 0 <= k < |order| ::
        && IsTop(records, index, order[k])
        && (forall j | 0 <= j < k :: !IsTop(records, index, order[j]))
        && TopLevel(records, order, index)[0] == index[order[k]]
    decreases |order|
  {
    if order != [] {
      TopLevelFirst(records, order[1..], index);
      if !IsTop(records, index, order[0]) {
        if TopLevel(records, order, index) != [] {
          var k :| 0 <= k < |order[1..]| && IsTop(records, index, order[1..][k])
            && (forall j | 0 <= j < k :: !IsTop(records, index, order[1..][j]))
            && TopLevel(records, order[1..], index)[0] == index[order[1..][k]];
          assert IsTop(records, index, order[k + 1]);
          assert forall j | 0 <= j < k + 1 :: !IsTop(records, index, order[j]) by {
            forall j | 0 <= j < k + 1 ensures !IsTop(records, index, order[j]) {
              if j > 0 { assert order[j] == order[1..][j - 1]; }
            }
          }
        }
        forall k | 0 <= k < |order[1..]| ensures order[1..][k] == order[k + 1] { }
      } else {
        assert IsTop(records, index, order[0]);
      }
    }
  }

  /** The original poster: the user of the first top-level comment in the
      store's insertion order, or None when there is none. */
  function UpHost(st: Store): Option<string>
  {
    var top := TopLevel(st.records, st.order, st.comments);
    if top == [] then None else Some(st.records[top[0]].userId)
  }

  /** UpHost names the author of the first top-level key of `order`, and is
      None exactly when no comment is top-level. */
  lemma UpHostIsFirstTopLevelAuthor(st: Store)
    ensures UpHost(st) == None <==> forall k | 0 <= k < |st.order| :: !IsTop(st.records, st.comments, st.order[k])
    ensures UpHost(st).Some? ==>
      exists k | 0 <= k < |st.order| ::
        && IsTop(st.records, st.comments, st.order[k])
        && (forall j | 0 <= j < k :: !IsTop(st.records, st.comments, st.order[j]))
        && UpHost(st).value == st.records[st.comments[st.order[k]]].userId
  {
    TopLevelFirst(st.records, st.order, st.comments);
  }
}
