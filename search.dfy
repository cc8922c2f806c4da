/** The search filter (CommentApp.search_comments) and the top-level view
    (CommentApp.populate_tree): which comments match a query, which reply
    lists survive the filter, and which comments head the tree. */
module Search {
  import opened Basics
  import opened Text
  import opened Sorting
  import opened CommentStore

  /** The query as the filter uses it (3.py:511): the entry's text with
      surrounding whitespace removed, then lowercased. */
  function Query(raw: string): string
  {
    Lower(Strip(raw))
  }

  /** The match test (3.py:518): the query occurs in the lowercased nickname
      or in the lowercased content. */
  predicate Matches(c: Comment, query: string)
  {
    Contains(Lower(c.nickname), query) || Contains(Lower(c.content), query)
  }

  /** The id names a record that matches the query. */
  predicate MatchesId(st: Store, query: string, id: string)
  {
    id in st.comments && st.comments[id] in st.records && Matches(st.records[st.comments[id]], query)
  }

  /** `filtered_comments`: the entries of `comments` whose record matches. */
  function FilterComments(st: Store, query: string): (filtered: map<string, nat>)
    ensures forall id :: id in filtered <==> MatchesId(st, query, id)
    ensures forall id | id in filtered :: id in st.comments && filtered[id] == st.comments[id]
  {
    map id | id in st.comments && MatchesId(st, query, id) :: st.comments[id]
  }

  /** The key order of `filtered_comments`: the matching ids in the order of `comments`. */
  function FilterOrder(st: Store, query: string, order: seq<string>): (kept: seq<string>)
    ensures IsSubsequence(kept, order)
    ensures forall id :: id in kept <==> id in order && MatchesId(st, query, id)
    decreases |order|
  {
    if order == [] then []
    else if MatchesId(st, query, order[0]) then [order[0]] + FilterOrder(st, query, order[1..])
    else
      var rest := FilterOrder(st, query, order[1..]);
      SubsequenceOfTail(rest, order);
      rest
  }

  /** One filtered reply list (3.py:521): the entries of `list`, in order,
      whose record's id is a key of `filtered`. */
  function KeepMatched(records: map<nat, Comment>, list: seq<nat>, filtered: map<string, nat>): (kept: seq<nat>)
    ensures IsSubsequence(kept, list)
    ensures forall s :: s in kept <==> s in list && s in records && records[s].id in filtered
    decreases |list|
  {
    if list == [] then []
    else if list[0] in records && records[list[0]].id in filtered then
      [list[0]] + KeepMatched(records, list[1..], filtered)
    else
      var rest := KeepMatched(records, list[1..], filtered);
      SubsequenceOfTail(rest, list);
      rest
  }

  /** `filtered_replies`: every reply list cut down to its matched entries,
      with the lists that end up empty dropped. */
  function FilterReplies(st: Store, filtered: map<string, nat>): map<string, seq<nat>>
  {
    map p | p in st.replies && KeepMatched(st.records, st.replies[p], filtered) != [] ::
      KeepMatched(st.records, st.replies[p], filtered)
  }

  /** The filtered map is the part of `comments` whose records match, with
      the same entries, in the same key order. */
  lemma FilterIsSubmap(st: Store, query: string)
    requires IdIndex(st)
    ensures var filtered := FilterComments(st, query);
      && filtered.Keys <= st.comments.Keys
      && (forall id | id in st.comments ::
            id in filtered <==> Matches(st.records[st.comments[id]], query))
      && (forall id :: id in FilterOrder(st, query, st.order) <==> id in filtered)
  {
  }

  /** Each filtered reply list is a non-empty, order-preserving sublist of
      the reply list it came from, holding the entries whose ids matched. */
  lemma FilteredRepliesAreSublists(st: Store, query: string, p: string)
    requires p in FilterReplies(st, FilterComments(st, query))
    ensures var filtered := FilterComments(st, query);
      var kept := FilterReplies(st, filtered)[p];
      && p in st.replies
      && kept != []
      && IsSubsequence(kept, st.replies[p])
      && forall s :: s in kept <==> s in st.replies[p] && s in st.records && st.records[s].id in filtered
  {
  }

  /** A parent id is kept exactly when one of its replies has a matching id. */
  lemma FilteredParents(st: Store, query: string, p: string)
    requires ReplyIndex(st)
    ensures var filtered := FilterComments(st, query);
      p in FilterReplies(st, filtered) <==>
        p in st.replies && exists s | s in st.replies[p] :: st.records[s].id in filtered
  {
    var filtered := FilterComments(st, query);
    if p in FilterReplies(st, filtered) {
      var kept := KeepMatched(st.records, st.replies[p], filtered);
      assert kept[0] in kept;
    }
    if p in st.replies && exists s | s in st.replies[p] :: st.records[s].id in filtered {
      var s :| s in st.replies[p] && st.records[s].id in filtered;
      assert s in KeepMatched(st.records, st.replies[p], filtered);
    }
  }

  /** Every matched comment is shown: it heads the filtered view when its
      parent did not match, and in any case it is listed under its parent id
      among the filtered replies. */
  lemma MatchedCommentPlaced(st: Store, query: string, id: string)
    requires Consistent(st)
    requires id in FilterComments(st, query)
    ensures var filtered := FilterComments(st, query);
      var s := filtered[id];
      var c := st.records[s];
      && (c.parentId !in filtered <==> s in TopLevel(st.records, FilterOrder(st, query, st.order), filtered))
      && c.parentId in FilterReplies(st, filtered)
      && s in FilterReplies(st, filtered)[c.parentId]
  {
    var filtered := FilterComments(st, query);
    var order := FilterOrder(st, query, st.order);
    var s := filtered[id];
    var c := st.records[s];
    assert multiset(st.replies[c.parentId])[s] == 1;
    assert s in st.replies[c.parentId];
    assert s in KeepMatched(st.records, st.replies[c.parentId], filtered);
    TopLevelMembers(st.records, order, filtered, s);
    if c.parentId !in filtered {
      assert IsTop(st.records, filtered, id);
    }
  }

  /** A query that no comment of `comments` matches leaves an empty filtered
      view, whatever the records pushed out of `comments` hold. */
  lemma NoMatchEmptiesView(st: Store, query: string)
    requires forall id | id in st.comments :: !MatchesId(st, query, id)
    ensures FilterComments(st, query) == map[]
    ensures FilterReplies(st, FilterComments(st, query)) == map[]
  {
    var filtered := FilterComments(st, query);
    assert filtered.Keys == {};
    forall p | p in st.replies ensures KeepMatched(st.records, st.replies[p], filtered) == [] {
      var kept := KeepMatched(st.records, st.replies[p], filtered);
      HeadIsMember(kept);
    }
  }

  // --------------------------------------------------------- top-level view

  /** The top-level comments as populate_tree lists them: those whose parent
      id is not a key of the index, sorted stably by create_time, descending
      when `reverse`. */
  function TopView(records: map<nat, Comment>, order: seq<string>, index: map<string, nat>, reverse: bool): seq<nat>
  {
    SortBy(TopLevel(records, order, index), ByTime(records), reverse)
  }

  /** The view holds exactly the top-level comments, sorted by create_time in
      the chosen direction, and lists equal create_times in insertion order. */
  lemma TopViewSpec(records: map<nat, Comment>, order: seq<string>, index: map<string, nat>, reverse: bool)
    ensures var top := TopLevel(records, order, index);
      var view := TopView(records, order, index, reverse);
      && multiset(view) == multiset(top)
      && Sorted(view, ByTime(records), reverse)
      && (forall t :: WithKey(view, ByTime(records), t) == WithKey(top, ByTime(records), t))
      && (forall s :: s in view <==>
            (exists id | id in order :: IsTop(records, index, id) && index[id] == s))
  {
    var top := TopLevel(records, order, index);
    SortByPermutes(top, ByTime(records), reverse);
    SortBySorted(top, ByTime(records), reverse);
    forall t ensures WithKey(SortBy(top, ByTime(records), reverse), ByTime(records), t) == WithKey(top, ByTime(records), t) {
      SortByStable(top, ByTime(records), reverse, t);
    }
    forall s ensures s in TopView(records, order, index, reverse) <==>
                     (exists id | id in order :: IsTop(records, index, id) && index[id] == s) {
      TopLevelMembers(records, order, index, s);
      assert s in TopView(records, order, index, reverse) <==> s in multiset(top);
    }
  }
}
