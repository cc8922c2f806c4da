/** The engagement tiers (CommentApp.assign_rating) and the rank table the
    Rating column sorts by (CommentApp.rating_order). */
module Rating {
  import opened Basics
  import opened CommentStore

  /** A comment's "rating" entry; Unrated is the "" every record starts with. */
  datatype Rating = Unrated | A1 | A2 | B1 | B2 | B3 | C1 | C2 | C3 | D

  /** The text stored in the "rating" entry. */
  function Name(r: Rating): string
  {
    match r
    case Unrated => ""
    case A1 => "A1"
    case A2 => "A2"
    case B1 => "B1"
    case B2 => "B2"
    case B3 => "B3"
    case C1 => "C1"
    case C2 => "C2"
    case C3 => "C3"
    case D => "D"
  }

  /** The nine tiers a rated comment can get. */
  predicate IsTier(r: Rating)
  {
    r != Unrated
  }

  /** The rank table, keyed by rating text. */
  const RatingOrder: map<string, int> := map[
    "A1" := 1, "A2" := 2,
    "B1" := 3, "B2" := 4, "B3" := 5,
    "C1" := 6, "C2" := 7, "C3" := 8,
    "D" := 9]

  /** The rank the Rating sort uses (3.py:547): the table's entry for the
      rating's text, or 100 when the table has none. */
  function Rank(r: Rating): (rank: int)
    ensures r == Unrated ==> rank == 100
    ensures IsTier(r) ==> 1 <= rank <= 9
  {
    if Name(r) in RatingOrder then RatingOrder[Name(r)] else 100
  }

  /** The ranks follow the table: A1 first, D ninth, and an unrated comment
      last with 100; distinct ratings never share a rank. */
  lemma RankTable(r: Rating, r': Rating)
    ensures Rank(r) == 100 <==> r == Unrated
    ensures IsTier(r) ==> 1 <= Rank(r) <= 9
    ensures Rank(A1) < Rank(A2) < Rank(B1) < Rank(B2) < Rank(B3)
         < Rank(C1) < Rank(C2) < Rank(C3) < Rank(D) < Rank(Unrated)
    ensures Rank(r) == Rank(r') ==> r == r'
  {
  }

  // --------------------------------------------------------- decision table

  /** The tier of a comment not written by the original poster, from the
      number `s` of its direct replies and the number `t` of replies to those. */
  function Tier(s: nat, t: nat): (r: Rating)
    ensures r == D <==> s == 0
    ensures 1 <= s < 10 ==> (r == B1 <==> t > 0) && (r == C1 <==> t == 0)
    ensures 10 <= s <= 100 ==> (r == B2 <==> t >= 10) && (r == C2 <==> t < 10)
    ensures s > 100 ==> (r == B3 <==> t >= 100) && (r == C3 <==> t < 100)
    ensures IsTier(r) && r != A1 && r != A2
  {
    if s == 0 then D
    else if 1 <= s < 10 then (if t > 0 then B1 else C1)
    else if 10 <= s <= 100 then (if t >= 10 then B2 else C2)
    else (if t >= 100 then B3 else C3)
  }

  /** The number of second-level replies (3.py:271): the lengths of the reply
      lists filed under the ids of the records `kids`, added up, where an id
      with no list counts 0. */
  function GrandchildCount(st: Store, kids: seq<nat>): nat
    decreases |kids|
  {
    if kids == [] then 0
    else
      var last := kids[|kids| - 1];
      var here := if last in st.records then |Children(st, st.records[last].id)| else 0;
      GrandchildCount(st, kids[..|kids| - 1]) + here
  }

  /** There are no grandchildren exactly when no child has replies of its own. */
  lemma {:induction false} NoGrandchildren(st: Store, kids: seq<nat>)
    requires forall k | k in kids :: k in st.records
    ensures GrandchildCount(st, kids) == 0 <==>
      forall i | 0 <= i < |kids| :: Children(st, st.records[kids[i]].id) == []
    decreases |kids|
  {
    if kids != [] {
      var init := kids[..|kids| - 1];
      NoGrandchildren(st, init);
      if GrandchildCount(st, kids) == 0 {
        forall i | 0 <= i < |kids| ensures Children(st, st.records[kids[i]].id) == [] {
          if i < |kids| - 1 {
            assert kids[i] == init[i];
          }
        }
      } else if GrandchildCount(st, init) != 0 {
        var i :| 0 <= i < |init| && Children(st, st.records[init[i]].id) != [];
        assert kids[i] == init[i];
      }
    }
  }

  // ---------------------------------------------------------- assign_rating

  /** Record `s` is the one its id currently names in `comments`; in a built
      store, a record displaced by a later row under the same id is not
      (LiveIffLastUnderId). */
  ghost predicate Live(st: Store, s: nat)
  {
    s in st.records && st.records[s].id in st.comments && st.comments[st.records[s].id] == s
  }

  /** assign_rating(c) with `up` the original poster's user id. */
  function RatingFor(st: Store, up: Option<string>, c: Comment): (r: Rating)
    ensures IsTier(r)
    ensures up == Some(c.userId) ==> (r == A1 <==> c.parentId !in st.comments) && (r == A1 || r == A2)
    ensures up != Some(c.userId) ==> r != A1 && r != A2 && (r == D <==> Children(st, c.id) == [])
  {
    if up == Some(c.userId) then (if c.parentId !in st.comments then A1 else A2)
    else
      var kids := Children(st, c.id);
      Tier(|kids|, GrandchildCount(st, kids))
  }

  /** The "rating" entry of every record once both rating loops have run:
      the live records are rated, the overwritten ones keep "". */
  ghost function Ratings(st: Store, up: Option<string>): map<nat, Rating>
  {
    map s | s in st.records :: if Live(st, s) then RatingFor(st, up, st.records[s]) else Unrated
  }

  /** In a built store a record is live exactly when no later row is stored
      under its id; a displaced record keeps "" after both loops. */
  lemma LiveIffLastUnderId(rows: seq<Row>, up: Option<string>, s: nat)
    requires s in Build(rows).store.records
    ensures var st := Build(rows).store;
      Live(st, s) <==> forall t | t in st.records && s < t :: st.records[t].id != st.records[s].id
    ensures var st := Build(rows).store;
      !Live(st, s) ==> Ratings(st, up)[s] == Unrated
  {
    var st := Build(rows).store;
    KeyNamesLastRow(rows);
    var id := st.records[s].id;
    if !Live(st, s) {
      var k := st.comments[id];
      assert k in st.records && st.records[k].id == id && s < k;
    }
  }

  /** Comments by the original poster are rated A1 when top-level and A2 otherwise. */
  lemma PosterRating(st: Store, up: Option<string>, c: Comment)
    requires up == Some(c.userId)
    ensures RatingFor(st, up, c) == A1 <==> c.parentId !in st.comments
    ensures RatingFor(st, up, c) == A2 <==> c.parentId in st.comments
  {
  }

  /** Any other comment gets the tier of its reply counts, and D exactly when
      it has no replies. */
  lemma OtherRating(st: Store, up: Option<string>, c: Comment)
    requires up != Some(c.userId)
    ensures RatingFor(st, up, c) == Tier(|Children(st, c.id)|, GrandchildCount(st, Children(st, c.id)))
    ensures RatingFor(st, up, c) == D <==> Children(st, c.id) == []
    ensures RatingFor(st, up, c) != A1 && RatingFor(st, up, c) != A2
  {
  }

  /** After the rating loops every comment in `comments` has one of the nine
      tiers, and every overwritten record keeps "". */
  lemma EveryCommentRated(st: Store, up: Option<string>, id: string)
    requires IdIndex(st) && id in st.comments
    ensures st.comments[id] in Ratings(st, up)
    ensures IsTier(Ratings(st, up)[st.comments[id]])
  {
    var s := st.comments[id];
    assert Live(st, s);
    if up != Some(st.records[s].userId) {
      OtherRating(st, up, st.records[s]);
    }
  }

  /** In a built store the first top-level comment is the original poster's,
      so it is rated A1. */
  lemma FirstTopLevelIsA1(st: Store)
    requires IdIndex(st)
    requires TopLevel(st.records, st.order, st.comments) != []
    ensures var s := TopLevel(st.records, st.order, st.comments)[0];
      s in Ratings(st, UpHost(st)) && Ratings(st, UpHost(st))[s] == A1
  {
    var top := TopLevel(st.records, st.order, st.comments);
    var s := top[0];
    TopLevelMembers(st.records, st.order, st.comments, s);
    var id :| id in st.order && IsTop(st.records, st.comments, id) && st.comments[id] == s;
    assert Live(st, s);
  }
}
