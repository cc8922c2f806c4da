/** The application object (CommentApp): the state process_data builds,
    the rating pass over it, the search filter, the two sorted views of the
    top-level comments and the text export, as methods that update the
    object's fields step by step. Each method is proved to leave exactly the
    state the functions of CommentStore, Rating, Search and TextExport
    describe. */
module App {
  import opened Basics
  import opened Text
  import opened Sorting
  import opened Timestamp
  import opened CommentStore
  import opened Rating
  import opened Search
  import opened TextExport

  /** The five columns of the tree, each with its sort direction. */
  datatype Column = UserColumn | ContentColumn | TimeColumn | ReplyerNumberColumn | RatingColumn

  /** The heading (and `sort_order` key) of a column. */
  function ColumnName(col: Column): string
  {
    match col
    case UserColumn => "User"
    case ContentColumn => "Content"
    case TimeColumn => "Time"
    case ReplyerNumberColumn => "Replyer_Number"
    case RatingColumn => "Rating"
  }

  /** How process_data ended: nothing loaded, the ValueError naming the
      missing columns, or a loaded store with the ids whose video id was blank. */
  datatype LoadOutcome = NoTable | SchemaError(missing: seq<string>) | Loaded(missingVideo: seq<string>)

  /** What sort_column produced: the top-level comments in the new order, or
      the KeyError raised by the key function. */
  datatype SortOutcome = SortedView(view: seq<nat>) | KeyError(key: string)

  /** The Rating column's sort key (3.py:547): the rank of a record's rating,
      and 100 for a record with no rating entry. */
  function ByRank(ratings: map<nat, Rating>): nat -> int
  {
    s => if s in ratings then Rank(ratings[s]) else 100
  }

  /** In a consistent store a record is top-level exactly when it is the
      record its id names and its parent id is not a key of `comments`. */
  lemma TopLevelLive(st: Store, s: nat)
    requires IdIndex(st)
    ensures s in TopLevel(st.records, st.order, st.comments) <==>
      Live(st, s) && st.records[s].parentId !in st.comments
  {
    TopLevelMembers(st.records, st.order, st.comments, s);
    if Live(st, s) && st.records[s].parentId !in st.comments {
      assert IsTop(st.records, st.comments, st.records[s].id);
    }
  }

  /** AddRecord spelled out for the id and record the row loop computes. */
  lemma AddRecordUnfolded(st: Store, idx: nat, row: Row, id: string, c: Comment)
    requires row.createTime.Some? && id == NewId(st, row, idx) && c == RecordOf(row, id)
    ensures AddRecord(st, idx, row) == Store(
      st.records[idx := c],
      if id in st.comments then st.order else st.order + [id],
      st.comments[id := idx],
      if row.parentId in st.replies then st.parents else st.parents + [row.parentId],
      st.replies[row.parentId := Children(st, row.parentId) + [idx]])
  {
  }

  /** The reply lists once those of the parent ids `ps` have been sorted. */
  function SortedOver(st: Store, ps: seq<string>): map<string, seq<nat>>
  {
    map p | p in st.replies :: if p in ps then SortBy(st.replies[p], ByTime(st.records), false) else st.replies[p]
  }

  /** One more parent id, not seen before: its reply list, still as filed, gets sorted. */
  lemma SortedOverStep(st: Store, ps: seq<string>, p: string)
    requires p in st.replies && p !in ps
    ensures var before := SortedOver(st, ps);
      SortedOver(st, ps + [p]) == before[p := SortBy(before[p], ByTime(st.records), false)]
  {
  }

  /** Once every parent id has been visited, the reply lists are SortReplies' result. */
  lemma SortedOverAll(st: Store)
    requires forall p :: p in st.replies <==> p in st.parents
    ensures st.(replies := SortedOver(st, st.parents)) == SortReplies(st)
  {
  }

  /** A list without repeats does not hold its k-th element earlier. */
  lemma DistinctPrefix<T>(s: seq<T>, k: nat)
    requires Distinct(s) && k < |s|
    ensures s[k] !in s[..k]
  {
    forall i | 0 <= i < k
      ensures s[..k][i] != s[k]
    {
      assert s[..k][i] == s[i];
    }
  }

  /** The records the second rating loop has rated once it has walked the
      ids `ids`: those whose parent id is itself a key of `comments`. */
  ghost function RepliesAmong(st: Store, ids: seq<string>): set<nat>
    decreases |ids|
  {
    if ids == [] then {}
    else
      var id := ids[|ids| - 1];
      var rest := RepliesAmong(st, ids[..|ids| - 1]);
      if id in st.comments && st.comments[id] in st.records && st.records[st.comments[id]].parentId in st.comments
      then rest + {st.comments[id]}
      else rest
  }

  /** The "rating" entries once the records in `top` and in `rated` have
      been rated and every other record still holds "". */
  ghost function RatedAfter(st: Store, up: Option<string>, top: seq<nat>, rated: set<nat>): map<nat, Rating>
  {
    map x | x in st.records :: if x in top || x in rated then RatingFor(st, up, st.records[x]) else Unrated
  }

  lemma {:induction false} RepliesAmongMembers(st: Store, ids: seq<string>, x: nat)
    requires IdIndex(st) && forall id | id in ids :: id in st.comments
    ensures x in RepliesAmong(st, ids) <==>
      exists id | id in ids :: st.comments[id] == x && st.records[x].parentId in st.comments
    decreases |ids|
  {
    if ids != [] {
      var init := ids[..|ids| - 1];
      RepliesAmongMembers(st, init, x);
      assert ids == init + [ids[|ids| - 1]];
    }
  }

  /** One step of the second rating loop: the record the k-th id names is
      rated when its parent id is in the index, and nothing else changes. */
  lemma RateStep(st: Store, up: Option<string>, top: seq<nat>, k: nat)
    requires IdIndex(st) && k < |st.order|
    ensures var s := st.comments[st.order[k]];
      var before := RatedAfter(st, up, top, RepliesAmong(st, st.order[..k]));
      RatedAfter(st, up, top, RepliesAmong(st, st.order[..k + 1])) ==
        if st.records[s].parentId in st.comments then before[s := RatingFor(st, up, st.records[s])] else before
  {
    assert st.order[..k + 1][..k] == st.order[..k];
  }

  /** After both rating loops the entries are those Ratings describes: the
      top-level records and the replies are exactly the live records. */
  lemma RatingLoopsDone(st: Store, up: Option<string>, top: seq<nat>)
    requires IdIndex(st) && top == TopLevel(st.records, st.order, st.comments)
    ensures RatedAfter(st, up, top, RepliesAmong(st, st.order)) == Ratings(st, up)
  {
    var rated := RepliesAmong(st, st.order);
    forall x | x in st.records
      ensures RatedAfter(st, up, top, rated)[x] == Ratings(st, up)[x]
    {
      TopLevelLive(st, x);
      RepliesAmongMembers(st, st.order, x);
      if Live(st, x) && st.records[x].parentId in st.comments {
        assert st.records[x].id in st.order;
      }
    }
  }

  /** Sorting a loaded store's top-level comments by Rating, ascending,
      puts an A1 comment first: the original poster's first post is rated
      A1 and no rank comes before A1's. */
  lemma RatingSortLeadsWithA1(st: Store)
    requires IdIndex(st) && TopLevel(st.records, st.order, st.comments) != []
    ensures var ratings := Ratings(st, UpHost(st));
      var view := SortBy(TopLevel(st.records, st.order, st.comments), ByRank(ratings), false);
      view != [] && view[0] in ratings && ratings[view[0]] == A1
  {
    var top := TopLevel(st.records, st.order, st.comments);
    var ratings := Ratings(st, UpHost(st));
    var view := SortBy(top, ByRank(ratings), false);
    FirstTopLevelIsA1(st);
    SortedHeadIsLeast(top, ByRank(ratings), top[0]);
    RankTable(ratings[view[0]], A1);
  }

  class CommentApp {
    // the store process_data builds
    var records: map<nat, Comment>
    var order: seq<string>
    var comments: map<string, nat>
    var parents: seq<string>
    var replies: map<string, seq<nat>>
    // the "rating" entry of every record, and the original poster
    var ratings: map<nat, Rating>
    var upHost: Option<string>
    // the search filter's result
    var filteredOrder: seq<string>
    var filteredComments: map<string, nat>
    var filteredReplies: map<string, seq<nat>>
    // the direction of every column
    var sortOrder: map<Column, bool>

    /** The store the fields hold. */
    function Current(): Store
      reads this`records, this`order, this`comments, this`parents, this`replies
    {
      Store(records, order, comments, parents, replies)
    }

    ghost predicate Valid()
      reads this
    {
      && (forall col: Column :: col in sortOrder)
      && Consistent(Current())
    }

    /** The application holds what process_data builds from `rows`: the
        store, the original poster and the rating of every record. */
    ghost predicate Holds(rows: seq<Row>)
      reads this
    {
      && Current() == Build(rows).store
      && upHost == UpHost(Current())
      && ratings == Ratings(Current(), upHost)
    }

    /** The empty application: no comments, every column ascending. */
    constructor()
      ensures Valid()
      ensures Current() == EmptyStore && ratings == map[] && upHost == None
      ensures filteredOrder == [] && filteredComments == map[] && filteredReplies == map[]
      ensures forall col: Column :: sortOrder[col] == false
    {
      records, order, comments, parents, replies := map[], [], map[], [], map[];
      ratings, upHost := map[], None;
      filteredOrder, filteredComments, filteredReplies := [], map[], map[];
      sortOrder := map[UserColumn := false, ContentColumn := false, TimeColumn := false,
                       ReplyerNumberColumn := false, RatingColumn := false];
      new;
      forall col: Column ensures col in sortOrder {
        match col
        case UserColumn =>
        case ContentColumn =>
        case TimeColumn =>
        case ReplyerNumberColumn =>
        case RatingColumn =>
      }
    }

    /** assign_rating(comment): sets the "rating" entry of record `s` from the
        original poster's id and the reply counts, and touches nothing else. */
    method AssignRating(s: nat)
      requires s in records
      modifies this`ratings
      ensures ratings == old(ratings)[s := RatingFor(Current(), upHost, records[s])]
    {
      var c := records[s];
      if upHost == Some(c.userId) {
        var r := if c.parentId !in comments then A1 else A2;
        ratings := ratings[s := r];
        return;
      }
      var second := if c.id in replies then replies[c.id] else [];
      var countThird := 0;
      var j := 0;
      while j < |second|
        invariant 0 <= j <= |second|
        invariant countThird == GrandchildCount(Current(), second[..j])
      {
        var reply := second[j];
        if reply in records && records[reply].id in replies {
          countThird := countThird + |replies[records[reply].id]|;
        }
        assert second[..j + 1][..j] == second[..j];
        j := j + 1;
      }
      assert second[..j] == second;
      var countSecond := |second|;
      var r;
      if countSecond == 0 {
        r := D;
      } else if 1 <= countSecond < 10 {
        r := if countThird > 0 then B1 else C1;
      } else if 10 <= countSecond <= 100 {
        r := if countThird >= 10 then B2 else C2;
      } else {
        r := if countThird >= 100 then B3 else C3;
      }
      ratings := ratings[s := r];
    }

    /** process_data: checks the schema, builds the store from the rows with
        a numeric create_time, sorts every reply list, finds the original
        poster and rates every comment. A missing table or a missing column
        leaves the application as it was. */
    method ProcessData(df: Option<Table>) returns (outcome: LoadOutcome)
      requires Valid()
      modifies this`records, this`order, this`comments, this`parents, this`replies, this`ratings, this`upHost
      ensures Valid()
      ensures df.None? ==> outcome == NoTable && unchanged(this)
      ensures df.Some? && MissingColumns(df.value.columns) != [] ==>
        outcome == SchemaError(MissingColumns(df.value.columns)) && unchanged(this)
      ensures df.Some? && MissingColumns(df.value.columns) == [] ==>
        && Holds(df.value.rows)
        && outcome.Loaded? && outcome.missingVideo == Build(df.value.rows).missingVideo
    {
      if df.None? {
        return NoTable;
      }
      var missing := MissingColumns(df.value.columns);
      if missing != [] {
        return SchemaError(missing);
      }
      var warned := Rebuild(df.value.rows);
      outcome := Loaded(warned);
      assert Valid();
    }

    /** The part of process_data after the schema check. */
    method Rebuild(rows: seq<Row>) returns (missingVideo: seq<string>)
      requires Valid()
      modifies this`records, this`order, this`comments, this`parents, this`replies, this`ratings, this`upHost
      ensures Holds(rows) && Valid()
      ensures missingVideo == Build(rows).missingVideo
    {
      missingVideo := LoadRows(rows);
      ghost var unrated, keys := ratings, records.Keys;
      SortStage(rows);
      assert ratings == unrated && records.Keys == keys;
      RateAll();
    }

    /** The reply-list sort of process_data, on the store the row loop built. */
    method SortStage(rows: seq<Row>)
      requires Current() == IngestRows(rows, |rows|).store
      modifies this`replies
      ensures Current() == Build(rows).store && Consistent(Current())
    {
      IngestParents(rows, |rows|);
      SortReplyLists();
      assert Consistent(Current()) by {
        BuildConsistent(rows);
      }
    }

    /** The end of process_data: the original poster is the author of the
        first top-level comment, then both rating loops run. */
    method RateAll()
      requires IdIndex(Current())
      requires ratings.Keys == records.Keys && forall s | s in ratings :: ratings[s] == Unrated
      modifies this`ratings, this`upHost
      ensures upHost == UpHost(Current()) && ratings == Ratings(Current(), upHost)
    {
      var top := TopLevel(records, order, comments);
      upHost := if top == [] then None else Some(records[top[0]].userId);
      RateComments(top);
    }

    /** The sort loop of process_data (3.py:237-238): each reply list, in the
        key order of `replies`, is sorted in place by create_time. */
    method SortReplyLists()
      requires Distinct(parents) && forall p :: p in replies <==> p in parents
      modifies this`replies
      ensures Current() == SortReplies(old(Current()))
    {
      ghost var st := Current();
      var k := 0;
      while k < |parents|
        invariant 0 <= k <= |parents|
        invariant Current() == st.(replies := SortedOver(st, parents[..k]))
      {
        var p := parents[k];
        assert parents[..k + 1] == parents[..k] + [p];
        DistinctPrefix(parents, k);
        SortedOverStep(st, parents[..k], p);
        replies := replies[p := SortBy(replies[p], ByTime(records), false)];
        k := k + 1;
      }
      assert parents[..k] == parents;
      SortedOverAll(st);
    }

    /** The two rating loops: every top-level comment, then every comment in
        `comments` whose parent id is a key of `comments`. */
    method RateComments(top: seq<nat>)
      requires IdIndex(Current()) && top == TopLevel(records, order, comments)
      requires ratings.Keys == records.Keys && forall s | s in ratings :: ratings[s] == Unrated
      modifies this`ratings
      ensures ratings == Ratings(Current(), upHost)
    {
      RateTopLevel(top);
      RateReplies(top);
    }

    /** The first rating loop (3.py:248-249): each top-level comment is rated. */
    method RateTopLevel(top: seq<nat>)
      requires forall s | s in top :: s in records
      requires ratings.Keys == records.Keys && forall s | s in ratings :: ratings[s] == Unrated
      modifies this`ratings
      ensures ratings == RatedAfter(Current(), upHost, top, {})
    {
      var i := 0;
      while i < |top|
        invariant 0 <= i <= |top|
        invariant ratings.Keys == records.Keys
        invariant forall x | x in records ::
          ratings[x] == if x in top[..i] then RatingFor(Current(), upHost, records[x]) else Unrated
      {
        assert top[..i + 1] == top[..i] + [top[i]];
        AssignRating(top[i]);
        i := i + 1;
      }
      assert top[..i] == top;
    }

    /** The second rating loop (3.py:252-254): every comment of `comments`, in
        insertion order, whose parent id is itself a key is rated. */
    method RateReplies(top: seq<nat>)
      requires IdIndex(Current()) && top == TopLevel(records, order, comments)
      requires ratings == RatedAfter(Current(), upHost, top, {})
      modifies this`ratings
      ensures ratings == Ratings(Current(), upHost)
    {
      ghost var st := Current();
      var k := 0;
      while k < |order|
        invariant 0 <= k <= |order|
        invariant Current() == st
        invariant ratings == RatedAfter(st, upHost, top, RepliesAmong(st, order[..k]))
      {
        var s := comments[order[k]];
        RateStep(st, upHost, top, k);
        if records[s].parentId in comments {
          AssignRating(s);
        }
        k := k + 1;
      }
      assert order[..k] == order;
      RatingLoopsDone(st, upHost, top);
    }

    /** The row loop of process_data: one record per row with a numeric
        create_time, filed under its id and under its parent's id. */
    method LoadRows(rows: seq<Row>) returns (missingVideo: seq<string>)
      modifies this`records, this`order, this`comments, this`parents, this`replies, this`ratings
      ensures Current() == IngestRows(rows, |rows|).store
      ensures missingVideo == IngestRows(rows, |rows|).missingVideo
      ensures ratings.Keys == records.Keys && forall s | s in ratings :: ratings[s] == Unrated
    {
      records, order, comments, parents, replies, ratings := map[], [], map[], [], map[], map[];
      missingVideo := [];
      var idx := 0;
      while idx < |rows|
        invariant 0 <= idx <= |rows|
        invariant Current() == IngestRows(rows, idx).store
        invariant missingVideo == IngestRows(rows, idx).missingVideo
        invariant ratings.Keys == records.Keys && forall s | s in ratings :: ratings[s] == Unrated
      {
        var row := rows[idx];
        if row.createTime.Some? {
          ghost var b := IngestRows(rows, idx);
          var id, blank := FileRow(b.store, idx, row);
          if blank {
            missingVideo := missingVideo + [id];
          }
          assert IngestRows(rows, idx + 1) == Append(b, idx, row);
        }
        idx := idx + 1;
      }
    }

    /** The row's video id with surrounding whitespace removed, or "N/A" when
        nothing is left (3.py:203-209). */
    static method CleanVideoId(raw: string) returns (videoId: string, blank: bool)
      ensures videoId == StoredVideoId(raw) && blank == (Strip(raw) == "")
    {
      videoId := Strip(raw);
      blank := videoId == "";
      if blank {
        videoId := "N/A";
      }
    }

    /** The dict built for `row`, stored under `id`. */
    static method MakeRecord(row: Row, id: string) returns (c: Comment, blank: bool)
      requires row.createTime.Some?
      ensures c == RecordOf(row, id) && blank == (Strip(row.videoId) == "")
    {
      var videoId;
      videoId, blank := CleanVideoId(row.videoId);
      c := Comment(id, row.parentId, row.createTime.value, row.content, row.nickname,
                   row.userId, row.avatar, row.subCommentCount, row.lastModifyTs, videoId);
    }

    /** One pass of the row loop: the record of row `idx`, stored under its
        id (rewritten to "{id}_{idx}" when taken), filed in `comments` and
        appended to its parent's reply list, with an empty "rating". */
    method FileRow(ghost st: Store, idx: nat, row: Row) returns (id: string, blank: bool)
      requires row.createTime.Some? && st == Current()
      modifies this`records, this`order, this`comments, this`parents, this`replies, this`ratings
      ensures Current() == AddRecord(st, idx, row)
      ensures id == NewId(st, row, idx) && blank == (Strip(row.videoId) == "")
      ensures ratings == old(ratings)[idx := Unrated]
    {
      id := row.commentId;
      if id in comments {
        id := id + "_" + NatToString(idx);
      }
      var c;
      c, blank := MakeRecord(row, id);
      AddRecordUnfolded(st, idx, row, id, c);
      records := records[idx := c];
      ratings := ratings[idx := Unrated];
      if id !in comments {
        order := order + [id];
      }
      comments := comments[id := idx];
      var kids := if row.parentId in replies then replies[row.parentId] else [];
      if row.parentId !in replies {
        parents := parents + [row.parentId];
      }
      replies := replies[row.parentId := kids + [idx]];
    }

    /** The Time column's direction, descending when set (3.py:309, 405);
        false when the column has no entry. */
    function TimeReverse(): bool
      reads this`sortOrder
    {
      if TimeColumn in sortOrder then sortOrder[TimeColumn] else false
    }

    /** populate_tree(filtered): the top-level comments of the full or the
        filtered index, ordered by create_time in the Time column's
        direction. They are exactly the top-level comments of that index,
        sorted, with equal create_times kept in insertion order. */
    function PopulateTree(filtered: bool): (view: seq<nat>)
      reads this`records, this`order, this`comments, this`filteredOrder, this`filteredComments, this`sortOrder
      ensures var ids, index := if filtered then filteredOrder else order, if filtered then filteredComments else comments;
        var top := TopLevel(records, ids, index);
        && multiset(view) == multiset(top)
        && Sorted(view, ByTime(records), TimeReverse())
        && forall t :: WithKey(view, ByTime(records), t) == WithKey(top, ByTime(records), t)
    {
      var ids, index := if filtered then filteredOrder else order, if filtered then filteredComments else comments;
      TopViewSpec(records, ids, index, TimeReverse());
      TopView(records, ids, index, TimeReverse())
    }

    /** search_comments: an empty query shows the unfiltered tree and
        changes nothing; otherwise the matching comments, with the reply
        lists cut down to them, become the filtered tree. */
    method SearchComments(raw: string) returns (view: seq<nat>)
      requires Valid()
      modifies this`filteredOrder, this`filteredComments, this`filteredReplies
      ensures Query(raw) == "" ==> unchanged(this) && view == PopulateTree(false)
      ensures Query(raw) != "" ==>
        && filteredComments == FilterComments(Current(), Query(raw))
        && filteredOrder == FilterOrder(Current(), Query(raw), order)
        && filteredReplies == FilterReplies(Current(), filteredComments)
        && view == PopulateTree(true)
    {
      var query := Query(raw);
      if query == "" {
        view := PopulateTree(false);
        return;
      }
      var st := Current();
      var matched := FilterComments(st, query);
      filteredComments, filteredOrder := matched, FilterOrder(st, query, order);
      filteredReplies := FilterReplyLists(st, matched);
      assert Current() == st;
      view := PopulateTree(true);
    }

    /** sort_column(col): flips the column's direction, then sorts the
        top-level comments by it. Time sorts by create_time and Rating by the
        rank table; the other three columns look up a key the comment
        records do not have, which fails as soon as there is a comment to
        look it up in. */
    method SortColumn(col: Column) returns (outcome: SortOutcome)
      requires Valid()
      modifies this`sortOrder
      ensures Valid()
      ensures sortOrder == old(sortOrder)[col := !old(sortOrder)[col]]
      ensures var top, reverse := TopLevel(records, order, comments), sortOrder[col];
        outcome == match col
          case TimeColumn => SortedView(SortBy(top, ByTime(records), reverse))
          case RatingColumn => SortedView(SortBy(top, ByRank(ratings), reverse))
          case _ => if top == [] then SortedView([]) else KeyError(ColumnName(col))
    {
      sortOrder := sortOrder[col := !sortOrder[col]];
      var top := TopLevel(records, order, comments);
      var reverse := sortOrder[col];
      match col
      case TimeColumn =>
        outcome := SortedView(SortBy(top, ByTime(records), reverse));
      case RatingColumn =>
        outcome := SortedView(SortBy(top, ByRank(ratings), reverse));
      case _ =>
        outcome := if top == [] then SortedView([]) else KeyError(ColumnName(col));
    }

    /** export_txt_thread with the date library `render` and `fuel` frames:
        the lines written to the file are those ExportTxt describes, and
        `complete` is false when the export ended in a RecursionError. */
    method ExportText(render: int -> DateText, fuel: nat) returns (writes: seq<string>, complete: bool)
      requires Valid()
      ensures Emitted(writes, complete) == ExportTxt(Source(Current(), ratings, render), TimeReverse(), fuel)
    {
      var src := Source(Current(), ratings, render);
      var top := TopLevel(records, order, comments);
      top := SortBy(top, ByTime(records), TimeReverse());
      assert forall s | s in top :: s in records by {
        TopViewSpec(records, order, comments, TimeReverse());
        forall s | s in top ensures s in records {
          assert s in multiset(top);
        }
      }
      assert ReplyIndex(src.st);
      writes := [];
      var i := 0;
      while i < |top|
        invariant 0 <= i <= |top|
        invariant Blocks(src, top[..i], fuel) == Emitted(writes, true)
      {
        var s := top[i];
        var sub, ok := WriteRepliesOut(src, records[s].id, 1, fuel);
        if !ok {
          BlocksCut(src, top, fuel, i, writes, Emitted(sub, ok));
          return writes + PostHead(src, s) + sub, false;
        }
        BlocksNext(src, top, fuel, i, writes, Emitted(sub, ok));
        writes := writes + PostHead(src, s) + sub + ["}\n\n"];
        i := i + 1;
      }
      assert top[..i] == top;
      complete := true;
    }
  }

  /** write_replies(f, parent, level) with `fuel` frames left: the lines it
      writes are those WriteReplies describes, up to where it runs out of frames. */
  method WriteRepliesOut(src: Source, parent: string, level: nat, fuel: nat) returns (writes: seq<string>, complete: bool)
    requires ReplyIndex(src.st)
    ensures Emitted(writes, complete) == WriteReplies(src, parent, level, fuel)
    decreases fuel, 1
  {
    if fuel == 0 {
      return [], false;
    }
    var kids := if parent in src.st.replies then src.st.replies[parent] else [];
    assert forall k | k in kids :: k in src.st.records;
    writes := [];
    var i := 0;
    while i < |kids|
      invariant 0 <= i <= |kids|
      invariant Entries(src, kids[..i], level, fuel - 1) == Emitted(writes, true)
    {
      var ok;
      writes, ok := WriteReplyOut(src, kids, i, level, fuel - 1, writes);
      if !ok {
        return writes, false;
      }
      i := i + 1;
    }
    assert kids[..i] == kids;
    complete := true;
  }

  /** One turn of the loop of write_replies: the `i`-th reply's six lines,
      then its own replies one level deeper. When those run out of frames
      the whole loop ends there. */
  method WriteReplyOut(src: Source, kids: seq<nat>, i: nat, level: nat, fuel: nat, done: seq<string>)
      returns (writes: seq<string>, complete: bool)
    requires ReplyIndex(src.st)
    requires forall k | k in kids :: k in src.st.records
    requires i < |kids| && Entries(src, kids[..i], level, fuel) == Emitted(done, true)
    ensures complete ==> Entries(src, kids[..i + 1], level, fuel) == Emitted(writes, true)
    ensures !complete ==> Entries(src, kids, level, fuel) == Emitted(writes, false)
    decreases fuel + 1, 0
  {
    var s := kids[i];
    var sub;
    sub, complete := WriteRepliesOut(src, src.st.records[s].id, level + 1, fuel);
    writes := done + ReplyHeader(src, s, i + 1, level) + sub;
    if complete {
      EntriesNext(src, kids, level, fuel, i, done, Emitted(sub, complete));
    } else {
      EntriesCut(src, kids, level, fuel, i, done, Emitted(sub, complete));
    }
  }

  /** The filtered reply lists of the parent ids `ps` alone. */
  function FilterRepliesOver(st: Store, matched: map<string, nat>, ps: seq<string>): map<string, seq<nat>>
  {
    map p | p in ps && p in st.replies && KeepMatched(st.records, st.replies[p], matched) != [] ::
      KeepMatched(st.records, st.replies[p], matched)
  }

  /** One more parent id: its cut-down list joins the map when it is not empty. */
  lemma FilterRepliesStep(st: Store, matched: map<string, nat>, ps: seq<string>, p: string)
    requires p in st.replies
    ensures var list := KeepMatched(st.records, st.replies[p], matched);
      FilterRepliesOver(st, matched, ps + [p]) ==
        if list != [] then FilterRepliesOver(st, matched, ps)[p := list] else FilterRepliesOver(st, matched, ps)
  {
  }

  /** The loop of search_comments over the reply index (3.py:519-523): each reply list cut
      down to its matched entries, kept when something is left. */
  method FilterReplyLists(st: Store, matched: map<string, nat>) returns (kept: map<string, seq<nat>>)
    requires ReplyIndex(st)
    ensures kept == FilterReplies(st, matched)
  {
    kept := map[];
    var k := 0;
    while k < |st.parents|
      invariant 0 <= k <= |st.parents|
      invariant kept == FilterRepliesOver(st, matched, st.parents[..k])
    {
      var p := st.parents[k];
      assert st.parents[..k + 1] == st.parents[..k] + [p];
      FilterRepliesStep(st, matched, st.parents[..k], p);
      var list := KeepMatched(st.records, st.replies[p], matched);
      if list != [] {
        kept := kept[p := list];
      }
      k := k + 1;
    }
    assert st.parents[..k] == st.parents;
  }
}
