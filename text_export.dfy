/** The text export (CommentApp.export_txt_thread and write_replies): the
    sequence of writes the thread performs on the output file.

    write_replies has no cycle guard, and the ids it looks children up by
    (the stored, possibly rewritten ids) are not the keys the reply lists
    were filed under (raw parent ids), so a finite table can make it recurse
    forever. The model gives the recursion `fuel`, the number of frames the
    interpreter still allows; running out is Python's RecursionError, which
    ends the export with whatever had been written by then. */
module TextExport {
  import opened Basics
  import opened Timestamp
  import opened CommentStore
  import opened Rating
  import opened Search

  /** What the export wrote, in order, and whether it ran to the end. */
  datatype Emitted = Emitted(writes: seq<string>, complete: bool)

  /** What the export reads: the store, the "rating" entries and the date library. */
  datatype Source = Source(st: Store, ratings: map<nat, Rating>, render: int -> DateText)

  /** The indent of a reply at depth `level` (3.py:499): four spaces per level, plus four. */
  function Indent(level: nat): (ind: string)
    ensures |ind| == 4 * (level + 1)
    ensures forall i | 0 <= i < |ind| :: ind[i] == ' '
  {
    seq(4 * (level + 1), _ => ' ')
  }

  /** The "rating" entry of a record as text. */
  function RatingText(ratings: map<nat, Rating>, s: nat): string
  {
    if s in ratings then Name(ratings[s]) else ""
  }

  /** A write is a finished line: it ends with a newline. */
  predicate EndsLine(w: string)
  {
    |w| > 0 && w[|w| - 1] == '\n'
  }

  /** The write starts with at least `n` spaces. */
  predicate IndentedBy(w: string, n: nat)
  {
    n <= |w| && forall i | 0 <= i < n :: w[i] == ' '
  }

  /** Every write ends with a newline and starts with at least `n` spaces (a
      cell holding a newline makes a write span several lines, and only the
      first of them is indented). */
  predicate Lines(ws: seq<string>, n: nat)
  {
    forall i | 0 <= i < |ws| :: EndsLine(ws[i]) && IndentedBy(ws[i], n)
  }

  /** The six writes for reply `s`, the `position`-th reply of its parent, at depth `level`. */
  function ReplyHeader(src: Source, s: nat, position: nat, level: nat): (ws: seq<string>)
    requires s in src.st.records
    ensures |ws| == 6
  {
    var c, ind := src.st.records[s], Indent(level);
    [ ind + "replyer" + NatToString(position) + ":\n",
      ind + "    time: " + ConvertTimestamp(src.render, c.createTime) + "\n",
      ind + "    username: " + c.nickname + " (" + c.userId + ")\n",
      ind + "    replyer_number: " + NatToString(|Children(src.st, c.id)|) + "\n",
      ind + "    rating: " + RatingText(src.ratings, s) + "\n",
      ind + "    content: " + c.content + "\n" ]
  }

  /** write_replies for `parent` at depth `level` (3.py:496-508), with `fuel`
      frames left; with none left it fails before writing anything. */
  function WriteReplies(src: Source, parent: string, level: nat, fuel: nat): Emitted
    requires ReplyIndex(src.st)
    decreases fuel, 0, 0
  {
    if fuel == 0 then Emitted([], false)
    else Entries(src, Children(src.st, parent), level, fuel - 1)
  }

  /** The loop of write_replies over `kids`: each reply's six writes, then
      its own replies one level deeper. */
  function Entries(src: Source, kids: seq<nat>, level: nat, fuel: nat): Emitted
    requires ReplyIndex(src.st)
    requires forall k | k in kids :: k in src.st.records
    decreases fuel, 1, |kids|
  {
    if kids == [] then Emitted([], true)
    else
      var prev := Entries(src, kids[..|kids| - 1], level, fuel);
      if !prev.complete then prev
      else
        var s := kids[|kids| - 1];
        var sub := WriteReplies(src, src.st.records[s].id, level + 1, fuel);
        Emitted(prev.writes + ReplyHeader(src, s, |kids|, level) + sub.writes, sub.complete)
  }

  /** The opening of the block of top-level comment `s`: "{" and six fields. */
  function PostHead(src: Source, s: nat): (ws: seq<string>)
    requires s in src.st.records
    ensures |ws| == 7
  {
    var c := src.st.records[s];
    [ "{\n",
      "    main_post: " + c.id + "\n",
      "    time: " + ConvertTimestamp(src.render, c.createTime) + "\n",
      "    username: " + c.nickname + " (" + c.userId + ")\n",
      "    replyer_number: " + NatToString(|Children(src.st, c.id)|) + "\n",
      "    rating: " + RatingText(src.ratings, s) + "\n",
      "    content: " + c.content + "\n" ]
  }

  /** The block of one top-level comment: its head, its replies, "}". */
  function PostBlock(src: Source, s: nat, fuel: nat): Emitted
    requires ReplyIndex(src.st) && s in src.st.records
  {
    var head := PostHead(src, s);
    var sub := WriteReplies(src, src.st.records[s].id, 1, fuel);
    if sub.complete then Emitted(head + sub.writes + ["}\n\n"], true)
    else Emitted(head + sub.writes, false)
  }

  /** The loop of export_txt_thread over the sorted top-level comments. */
  function Blocks(src: Source, top: seq<nat>, fuel: nat): Emitted
    requires ReplyIndex(src.st)
    requires forall s | s in top :: s in src.st.records
    decreases |top|
  {
    if top == [] then Emitted([], true)
    else
      var prev := Blocks(src, top[..|top| - 1], fuel);
      if !prev.complete then prev
      else
        var block := PostBlock(src, top[|top| - 1], fuel);
        Emitted(prev.writes + block.writes, block.complete)
  }

  /** The whole export: the blocks of the top-level comments in the order of
      the Time column's direction. */
  function ExportTxt(src: Source, reverse: bool, fuel: nat): Emitted
    requires ReplyIndex(src.st)
  {
    var top := TopView(src.st.records, src.st.order, src.st.comments, reverse);
    TopViewSpec(src.st.records, src.st.order, src.st.comments, reverse);
    Blocks(src, top, fuel)
  }

  // ---------------------------------------------------------------- layout

  /** The block of a top-level comment opens with "{" and its main_post line,
      and, when its replies are written out in full, closes with "}" and a
      blank line. */
  lemma PostBlockLayout(src: Source, s: nat, fuel: nat)
    requires ReplyIndex(src.st) && s in src.st.records
    ensures var ws := PostBlock(src, s, fuel).writes;
      && |ws| >= 7 && ws[0] == "{\n"
      && ws[1] == "    main_post: " + src.st.records[s].id + "\n"
      && (PostBlock(src, s, fuel).complete ==> ws[|ws| - 1] == "}\n\n")
  {
  }

  lemma HeaderLayout(src: Source, s: nat, position: nat, level: nat)
    requires s in src.st.records
    ensures Lines(ReplyHeader(src, s, position, level), 4 * (level + 1))
  {
    var ws, ind := ReplyHeader(src, s, position, level), Indent(level);
    forall i | 0 <= i < 6 ensures EndsLine(ws[i]) && IndentedBy(ws[i], 4 * (level + 1)) {
      assert ws[i][..|ind|] == ind;
    }
  }

  /** Every write of a reply subtree at depth `level` ends with a newline and
      starts with at least 4 * (level + 1) spaces (deeper replies with more). */
  lemma {:induction false} RepliesLayout(src: Source, parent: string, level: nat, fuel: nat)
    requires ReplyIndex(src.st)
    ensures Lines(WriteReplies(src, parent, level, fuel).writes, 4 * (level + 1))
    decreases fuel, 0, 0
  {
    if fuel > 0 {
      var kids := Children(src.st, parent);
      assert forall k | k in kids :: k in src.st.records;
      EntriesLayout(src, kids, level, fuel - 1);
      assert WriteReplies(src, parent, level, fuel) == Entries(src, kids, level, fuel - 1);
    }
  }

  lemma {:induction false} EntriesLayout(src: Source, kids: seq<nat>, level: nat, fuel: nat)
    requires ReplyIndex(src.st)
    requires forall k | k in kids :: k in src.st.records
    ensures Lines(Entries(src, kids, level, fuel).writes, 4 * (level + 1))
    decreases fuel, 1, |kids|
  {
    if kids != [] {
      var init := kids[..|kids| - 1];
      var prev := Entries(src, init, level, fuel);
      EntriesLayout(src, init, level, fuel);
      if prev.complete {
        var s := kids[|kids| - 1];
        var sub := WriteReplies(src, src.st.records[s].id, level + 1, fuel);
        RepliesLayout(src, src.st.records[s].id, level + 1, fuel);
        HeaderLayout(src, s, |kids|, level);
        var head := ReplyHeader(src, s, |kids|, level);
        var ws := prev.writes + head + sub.writes;
        forall i | 0 <= i < |ws| ensures EndsLine(ws[i]) && IndentedBy(ws[i], 4 * (level + 1)) {
          if i < |prev.writes| {
            assert ws[i] == prev.writes[i];
            assert EndsLine(prev.writes[i]) && IndentedBy(prev.writes[i], 4 * (level + 1));
          } else if i < |prev.writes| + 6 {
            assert ws[i] == head[i - |prev.writes|];
            assert EndsLine(head[i - |prev.writes|]);
          } else {
            var w := sub.writes[i - |prev.writes| - 6];
            assert ws[i] == w;
            assert IndentedBy(w, 4 * (level + 2));
          }
        }
        assert Entries(src, kids, level, fuel).writes == ws;
      }
    }
  }

  /** A complete reply loop writes at least six lines per reply, and its
      first write is the label "replyer1:" at the loop's indent. */
  lemma {:induction false} EntriesLabels(src: Source, kids: seq<nat>, level: nat, fuel: nat)
    requires ReplyIndex(src.st)
    requires forall k | k in kids :: k in src.st.records
    requires Entries(src, kids, level, fuel).complete
    ensures |Entries(src, kids, level, fuel).writes| >= 6 * |kids|
    ensures kids != [] ==>
      Entries(src, kids, level, fuel).writes[0] == Indent(level) + "replyer1:\n"
    decreases |kids|
  {
    if kids != [] {
      var init := kids[..|kids| - 1];
      EntriesLabels(src, init, level, fuel);
      if init == [] {
        assert Entries(src, init, level, fuel).writes == [];
      }
    }
  }

  /** A reply loop that runs to the end passes through each of its prefixes:
      each prefix is complete too, and its writes begin the whole loop's writes. */
  lemma {:induction false} EntriesPrefix(src: Source, kids: seq<nat>, level: nat, fuel: nat, n: nat)
    requires ReplyIndex(src.st)
    requires forall k | k in kids :: k in src.st.records
    requires n <= |kids| && Entries(src, kids, level, fuel).complete
    ensures Entries(src, kids[..n], level, fuel).complete
    ensures Entries(src, kids[..n], level, fuel).writes <= Entries(src, kids, level, fuel).writes
    decreases |kids|
  {
    if n < |kids| {
      var init := kids[..|kids| - 1];
      assert init[..n] == kids[..n];
      EntriesPrefix(src, init, level, fuel, n);
      var all := Entries(src, kids, level, fuel).writes;
      var before := Entries(src, init, level, fuel).writes;
      assert before <= all;
    } else {
      assert kids[..n] == kids;
    }
  }

  /** In a reply loop that runs to the end, the `i`-th reply (counting from 0)
      contributes its six writes, opening with the label "replyer{i+1}:", right
      after everything written for the replies before it. */
  lemma EntriesTurn(src: Source, kids: seq<nat>, level: nat, fuel: nat, i: nat)
    requires ReplyIndex(src.st)
    requires forall k | k in kids :: k in src.st.records
    requires i < |kids| && Entries(src, kids, level, fuel).complete
    ensures var prev := Entries(src, kids[..i], level, fuel).writes;
      var all := Entries(src, kids, level, fuel).writes;
      && |prev| + 6 <= |all|
      && all[|prev|..|prev| + 6] == ReplyHeader(src, kids[i], i + 1, level)
      && all[|prev|] == Indent(level) + "replyer" + NatToString(i + 1) + ":\n"
  {
    EntriesPrefix(src, kids, level, fuel, i);
    EntriesPrefix(src, kids, level, fuel, i + 1);
    EntriesStep(src, kids, level, fuel, i);
    var head := ReplyHeader(src, kids[i], i + 1, level);
    InfixOfPrefix(Entries(src, kids[..i], level, fuel).writes, head,
      WriteReplies(src, src.st.records[kids[i]].id, level + 1, fuel).writes,
      Entries(src, kids, level, fuel).writes);
    HeaderLabel(src, kids[i], i + 1, level);
  }

  /** One turn of the reply loop appends the reply's six writes and then its subtree. */
  lemma EntriesStep(src: Source, kids: seq<nat>, level: nat, fuel: nat, i: nat)
    requires ReplyIndex(src.st)
    requires forall k | k in kids :: k in src.st.records
    requires i < |kids| && Entries(src, kids[..i], level, fuel).complete
    ensures Entries(src, kids[..i + 1], level, fuel).writes ==
      Entries(src, kids[..i], level, fuel).writes + ReplyHeader(src, kids[i], i + 1, level)
        + WriteReplies(src, src.st.records[kids[i]].id, level + 1, fuel).writes
  {
    assert kids[..i + 1][..i] == kids[..i];
  }

  /** What a stream begins with is found at the same place in the whole stream. */
  lemma InfixOfPrefix(prev: seq<string>, mid: seq<string>, rest: seq<string>, all: seq<string>)
    requires prev + mid + rest <= all
    ensures |prev| + |mid| <= |all| && all[|prev|..|prev| + |mid|] == mid
  {
    assert (prev + mid + rest)[|prev|..|prev| + |mid|] == mid;
  }

  /** The first write of a reply's header is its label. */
  lemma HeaderLabel(src: Source, s: nat, position: nat, level: nat)
    requires s in src.st.records
    ensures ReplyHeader(src, s, position, level)[0] == Indent(level) + "replyer" + NatToString(position) + ":\n"
  { }

  // ------------------------------------------------------------ recursion

  /** If one reply's subtree runs out of frames, so does the loop holding it. */
  lemma {:induction false} EntriesFail(src: Source, kids: seq<nat>, level: nat, fuel: nat, i: nat)
    requires ReplyIndex(src.st)
    requires forall k | k in kids :: k in src.st.records
    requires i < |kids| && !WriteReplies(src, src.st.records[kids[i]].id, level + 1, fuel).complete
    ensures !Entries(src, kids, level, fuel).complete
    decreases |kids|
  {
    if i < |kids| - 1 {
      var init := kids[..|kids| - 1];
      assert init[i] == kids[i];
      EntriesFail(src, init, level, fuel, i);
    }
  }

  /** One more turn of the reply loop after a complete prefix: the next
      reply's six writes, then its subtree. */
  lemma EntriesNext(src: Source, kids: seq<nat>, level: nat, fuel: nat, i: nat, done: seq<string>, sub: Emitted)
    requires ReplyIndex(src.st)
    requires forall k | k in kids :: k in src.st.records
    requires i < |kids| && Entries(src, kids[..i], level, fuel) == Emitted(done, true)
    requires sub == WriteReplies(src, src.st.records[kids[i]].id, level + 1, fuel) && sub.complete
    ensures Entries(src, kids[..i + 1], level, fuel) == Emitted(done + ReplyHeader(src, kids[i], i + 1, level) + sub.writes, true)
  {
    assert kids[..i + 1][..i] == kids[..i];
  }

  /** When the next reply's subtree runs out of frames, the reply loop ends
      with that reply's writes. */
  lemma EntriesCut(src: Source, kids: seq<nat>, level: nat, fuel: nat, i: nat, done: seq<string>, sub: Emitted)
    requires ReplyIndex(src.st)
    requires forall k | k in kids :: k in src.st.records
    requires i < |kids| && Entries(src, kids[..i], level, fuel) == Emitted(done, true)
    requires sub == WriteReplies(src, src.st.records[kids[i]].id, level + 1, fuel) && !sub.complete
    ensures Entries(src, kids, level, fuel) == Emitted(done + ReplyHeader(src, kids[i], i + 1, level) + sub.writes, false)
  {
    assert kids[..i + 1][..i] == kids[..i];
    EntriesStuck(src, kids, level, fuel, i + 1);
  }

  /** One more post of the export after a complete prefix: its head, its
      replies and its closing brace. */
  lemma BlocksNext(src: Source, top: seq<nat>, fuel: nat, i: nat, done: seq<string>, sub: Emitted)
    requires ReplyIndex(src.st)
    requires forall s | s in top :: s in src.st.records
    requires i < |top| && Blocks(src, top[..i], fuel) == Emitted(done, true)
    requires sub == WriteReplies(src, src.st.records[top[i]].id, 1, fuel) && sub.complete
    ensures Blocks(src, top[..i + 1], fuel) == Emitted(done + PostHead(src, top[i]) + sub.writes + ["}\n\n"], true)
  {
    var head := PostHead(src, top[i]);
    assert top[..i + 1][..i] == top[..i];
    assert PostBlock(src, top[i], fuel).writes == head + sub.writes + ["}\n\n"];
    assert done + (head + sub.writes + ["}\n\n"]) == done + head + sub.writes + ["}\n\n"];
  }

  /** When a post's replies run out of frames, the export ends inside that post. */
  lemma BlocksCut(src: Source, top: seq<nat>, fuel: nat, i: nat, done: seq<string>, sub: Emitted)
    requires ReplyIndex(src.st)
    requires forall s | s in top :: s in src.st.records
    requires i < |top| && Blocks(src, top[..i], fuel) == Emitted(done, true)
    requires sub == WriteReplies(src, src.st.records[top[i]].id, 1, fuel) && !sub.complete
    ensures Blocks(src, top, fuel) == Emitted(done + PostHead(src, top[i]) + sub.writes, false)
  {
    var head := PostHead(src, top[i]);
    assert top[..i + 1][..i] == top[..i];
    assert PostBlock(src, top[i], fuel).writes == head + sub.writes;
    assert done + (head + sub.writes) == done + head + sub.writes;
    BlocksStuck(src, top, fuel, i + 1);
  }

  /** Once the reply loop has failed on the first `n` replies, the remaining
      ones are never written. */
  lemma {:induction false} EntriesStuck(src: Source, kids: seq<nat>, level: nat, fuel: nat, n: nat)
    requires ReplyIndex(src.st)
    requires forall k | k in kids :: k in src.st.records
    requires n <= |kids| && !Entries(src, kids[..n], level, fuel).complete
    ensures Entries(src, kids, level, fuel) == Entries(src, kids[..n], level, fuel)
    decreases |kids|
  {
    if n < |kids| {
      var init := kids[..|kids| - 1];
      assert init[..n] == kids[..n];
      EntriesStuck(src, init, level, fuel, n);
    } else {
      assert kids[..n] == kids;
    }
  }

  /** Once the export has failed in one of the first `n` posts, no later post is written. */
  lemma {:induction false} BlocksStuck(src: Source, top: seq<nat>, fuel: nat, n: nat)
    requires ReplyIndex(src.st)
    requires forall s | s in top :: s in src.st.records
    requires n <= |top| && !Blocks(src, top[..n], fuel).complete
    ensures Blocks(src, top, fuel) == Blocks(src, top[..n], fuel)
    decreases |top|
  {
    if n < |top| {
      var init := top[..|top| - 1];
      assert init[..n] == top[..n];
      BlocksStuck(src, init, fuel, n);
    } else {
      assert top[..n] == top;
    }
  }

  /** A reply filed under the very id it is stored under makes write_replies
      recurse on the same parent id forever: it fails for every number of frames. */
  lemma {:induction false} SelfFiledNeverEnds(src: Source, p: string, s: nat, level: nat, fuel: nat)
    requires ReplyIndex(src.st)
    requires p in src.st.replies && s in src.st.replies[p] && src.st.records[s].id == p
    ensures !WriteReplies(src, p, level, fuel).complete
    decreases fuel
  {
    if fuel > 0 {
      var kids := src.st.replies[p];
      var i :| 0 <= i < |kids| && kids[i] == s;
      SelfFiledNeverEnds(src, p, s, level + 1, fuel - 1);
      EntriesFail(src, kids, level, fuel - 1, i);
    }
  }

  /** A failing reply subtree ends the export of the post it belongs to. */
  lemma {:induction false} BlocksFail(src: Source, top: seq<nat>, fuel: nat, i: nat)
    requires ReplyIndex(src.st)
    requires forall s | s in top :: s in src.st.records
    requires i < |top| && !WriteReplies(src, src.st.records[top[i]].id, 1, fuel).complete
    ensures !Blocks(src, top, fuel).complete
    decreases |top|
  {
    if i < |top| - 1 {
      var init := top[..|top| - 1];
      assert init[i] == top[i];
      BlocksFail(src, init, fuel, i);
    }
  }

  /** A three-row table on which the export never finishes. Row 2 repeats
      the id "a", so it is stored as "a_2", and its parent id is "a_2": it is
      filed under its own id. It also displaces row 1, which was stored as
      "a_2" too and stays a reply of the top-level row 0, so the export of
      row 0 reaches row 2's reply list and never leaves it. */
  function LoopRows(): seq<Row>
  {
    [ Row("a", "p", Some(1), "v", "", "", "", "", "", ""),
      Row("a_2", "a", Some(2), "v", "", "", "", "", "", ""),
      Row("a", "a_2", Some(3), "v", "", "", "", "", "", "") ]
  }

  lemma LoopRowsPrefix()
    ensures IngestRows(LoopRows(), 3).store ==
      AddRecord(AddRecord(AddRecord(EmptyStore, 0, LoopRows()[0]), 1, LoopRows()[1]), 2, LoopRows()[2])
  {
    var rows := LoopRows();
    assert IngestRows(rows, 1).store == AddRecord(EmptyStore, 0, rows[0]);
    assert IngestRows(rows, 2).store == AddRecord(IngestRows(rows, 1).store, 1, rows[1]);
  }

  lemma LoopRowsFirst(b1: Store)
    requires b1 == AddRecord(EmptyStore, 0, LoopRows()[0])
    ensures b1.comments.Keys == {"a"} && b1.comments["a"] == 0 && b1.records.Keys == {0}
    ensures b1.records[0].id == "a" && b1.records[0].parentId == "p" && b1.order == ["a"]
  {
  }

  lemma LoopRowsSecond(b1: Store, b2: Store)
    requires b1.comments.Keys == {"a"} && b1.comments["a"] == 0 && b1.records.Keys == {0}
    requires b1.records[0].id == "a" && b1.order == ["a"]
    requires b2 == AddRecord(b1, 1, LoopRows()[1])
    ensures b2.comments.Keys == {"a", "a_2"} && b2.comments["a"] == 0 && b2.records.Keys == {0, 1}
    ensures b2.order == ["a", "a_2"]
    ensures b2.records[0] == b1.records[0] && b2.records[1].id == "a_2"
    ensures "a" in b2.replies && 1 in b2.replies["a"]
  {
    assert "a_2" !in b1.comments;
    var kids := Children(b1, "a");
    assert (kids + [1])[|kids|] == 1;
  }

  lemma LoopRowsRewrite(b2: Store)
    requires "a" in b2.comments
    ensures NewId(b2, LoopRows()[2], 2) == "a_2"
  {
    assert NatToString(2) == [DigitChar(2)] == "2";
    assert "a" + "_" + "2" == "a_2";
  }

  lemma LoopRowsThird(b2: Store, b3: Store)
    requires b2.comments.Keys == {"a", "a_2"} && b2.records.Keys == {0, 1}
    requires b2.records[1].id == "a_2"
    requires "a" in b2.replies && 1 in b2.replies["a"]
    requires b3 == AddRecord(b2, 2, LoopRows()[2])
    ensures b3.comments.Keys == {"a", "a_2"} && b3.comments["a"] == b2.comments["a"]
    ensures b3.comments["a_2"] == 2 && b3.order == b2.order
    ensures b3.records.Keys == {0, 1, 2}
    ensures b3.records[0] == b2.records[0] && b3.records[1] == b2.records[1]
    ensures b3.records[2].id == "a_2" && b3.records[2].parentId == "a_2"
    ensures "a" in b3.replies && 1 in b3.replies["a"]
    ensures "a_2" in b3.replies && 2 in b3.replies["a_2"]
  {
    LoopRowsRewrite(b2);
    assert |"a"| != |"a_2"|;
    var kids := Children(b2, "a_2");
    assert b3.replies["a_2"] == kids + [2];
    assert (kids + [2])[|kids|] == 2;
  }

  lemma LoopRowsStore()
    ensures var st := Build(LoopRows()).store;
      && "a" in st.comments && st.comments["a"] == 0 && "p" !in st.comments
      && 0 in st.records && st.records[0].id == "a" && st.records[0].parentId == "p"
      && "a_2" in st.comments && st.comments["a_2"] == 2 && st.order == ["a", "a_2"]
      && 1 in st.records && st.records[1].id == "a_2"
      && 2 in st.records && st.records[2].id == "a_2"
      && "a" in st.replies && 1 in st.replies["a"]
      && "a_2" in st.replies && 2 in st.replies["a_2"]
  {
    var rows := LoopRows();
    var b1 := AddRecord(EmptyStore, 0, rows[0]);
    LoopRowsFirst(b1);
    var b2 := AddRecord(b1, 1, rows[1]);
    LoopRowsSecond(b1, b2);
    var b3 := AddRecord(b2, 2, rows[2]);
    LoopRowsThird(b2, b3);
    LoopRowsPrefix();
    SortRepliesPermutes(b3, "a");
    SortRepliesPermutes(b3, "a_2");
    assert 1 in multiset(SortReplies(b3).replies["a"]);
    assert 2 in multiset(SortReplies(b3).replies["a_2"]);
  }

  /** A reply stored under an id that has a self-filed reply makes its
      parent's write_replies call fail too. */
  lemma {:induction false} LoopBelowNeverEnds(src: Source, q: string, c: nat, s: nat, level: nat, fuel: nat)
    requires ReplyIndex(src.st)
    requires c in Children(src.st, q) && c in src.st.records
    requires var p := src.st.records[c].id;
      p in src.st.replies && s in src.st.replies[p] && src.st.records[s].id == p
    ensures !WriteReplies(src, q, level, fuel).complete
  {
    if fuel > 0 {
      var kids := Children(src.st, q);
      var j :| 0 <= j < |kids| && kids[j] == c;
      SelfFiledNeverEnds(src, src.st.records[c].id, s, level + 1, fuel - 1);
      EntriesFail(src, kids, level, fuel - 1, j);
    }
  }

  /** The export fails, whatever the recursion limit, once a top-level post
      `t` has a reply `c` stored under an id `p` that has a self-filed reply. */
  lemma {:induction false} ReachableLoopNeverExports(src: Source, reverse: bool, fuel: nat, t: nat, c: nat, s: nat)
    requires ReplyIndex(src.st)
    requires t in TopView(src.st.records, src.st.order, src.st.comments, reverse) && t in src.st.records
    requires c in Children(src.st, src.st.records[t].id) && c in src.st.records
    requires var p := src.st.records[c].id;
      p in src.st.replies && s in src.st.replies[p] && src.st.records[s].id == p
    ensures !ExportTxt(src, reverse, fuel).complete
  {
    var st := src.st;
    var top := TopView(st.records, st.order, st.comments, reverse);
    TopViewSpec(st.records, st.order, st.comments, reverse);
    var i :| 0 <= i < |top| && top[i] == t;
    LoopBelowNeverEnds(src, st.records[t].id, c, s, 1, fuel);
    BlocksFail(src, top, fuel, i);
  }

  /** The export of LoopRows' store fails whatever the recursion limit. */
  lemma LoopRowsNeverExport(ratings: map<nat, Rating>, render: int -> DateText, reverse: bool, fuel: nat)
    ensures ReplyIndex(Build(LoopRows()).store)
    ensures !ExportTxt(Source(Build(LoopRows()).store, ratings, render), reverse, fuel).complete
  {
    var st := Build(LoopRows()).store;
    BuildConsistent(LoopRows());
    LoopRowsStore();
    assert IsTop(st.records, st.comments, "a");
    TopViewSpec(st.records, st.order, st.comments, reverse);
    ReachableLoopNeverExports(Source(st, ratings, render), reverse, fuel, 0, 1, 2);
  }
}
