/**
  The relation CSV files `main` writes. With pandas available, the rows are
  sorted by (rank of the relation, username) and each per-relation file is
  that sorted table filtered to one tag. Without pandas, `relations.csv`
  keeps the username order of `build_relation_rows` and each per-relation
  file is `subset(rows, tag)`.

  pandas' `sort_values` is modelled as an insertion sort on that key. Rows
  of `build_relation_rows` have distinct usernames, so no two rows share a
  key, and `RankSortDetermined` shows that any sort on that key gives the
  same table.
*/
module RelationsTable {
  import opened StringOrder
  import opened Loader
  import opened Classifier
  import opened Partition

  /** `relation_order` of `main`, which ranks all four tags, `unknown`
      at 9. `fillna(9)` only affects values outside that table, which
      `build_relation_rows` never produces and `Relation` cannot express. */
  function Rank(rel: Relation): (r: nat)
    ensures r == 0 <==> rel == YouFollowTheyDoNot
    ensures r == 1 <==> rel == TheyFollowYouOnly
    ensures r == 2 <==> rel == Mutual
    ensures r == 9 <==> rel == Unknown
  {
    match rel
    case YouFollowTheyDoNot => 0
    case TheyFollowYouOnly => 1
    case Mutual => 2
    case Unknown => 9
  }

  /** The sort key (rank, username), compared lexicographically. */
  predicate KeyLess(a: RelationRow, b: RelationRow)
  {
    || Rank(a.relation) < Rank(b.relation)
    || (Rank(a.relation) == Rank(b.relation) && Less(a.username, b.username))
  }

  /** Ascending by key: no row has a smaller key than one before it. */
  ghost predicate SortedByRank(s: seq<RelationRow>)
  {
    forall i, j :: 0 <= i < j < |s| ==> !KeyLess(s[j], s[i])
  }

  lemma KeyLessAsymmetric(a: RelationRow, b: RelationRow)
    requires KeyLess(a, b)
    ensures !KeyLess(b, a)
  {
    if Rank(a.relation) == Rank(b.relation) {
      LessAsymmetric(a.username, b.username);
    }
  }

  /** "Not smaller" is transitive, as for any total order on keys. */
  lemma KeyNotLessTransitive(a: RelationRow, b: RelationRow, c: RelationRow)
    requires !KeyLess(b, a) && !KeyLess(c, b)
    ensures !KeyLess(c, a)
  {
    if KeyLess(c, a) && Rank(a.relation) == Rank(b.relation) == Rank(c.relation) {
      LessSplit(c.username, b.username, a.username);
    }
  }

  /** Inserts `x` before the first element whose key is not smaller. */
  function Insert(x: RelationRow, s: seq<RelationRow>): seq<RelationRow>
  {
    if s == [] then [x]
    else if !KeyLess(s[0], x) then [x] + s
    else [s[0]] + Insert(x, s[1..])
  }

  lemma {:induction false} InsertPermutes(x: RelationRow, s: seq<RelationRow>)
    ensures multiset(Insert(x, s)) == multiset(s) + multiset{x}
  {
    if s != [] && KeyLess(s[0], x) {
      InsertPermutes(x, s[1..]);
      assert s == [s[0]] + s[1..];
    }
  }

  lemma {:induction false} InsertSorted(x: RelationRow, s: seq<RelationRow>)
    requires SortedByRank(s)
    ensures SortedByRank(Insert(x, s))
  {
    if s != [] {
      var r := Insert(x, s);
      if !KeyLess(s[0], x) {
        forall j | 0 < j < |s|
          ensures !KeyLess(s[j], x)
        {
          KeyNotLessTransitive(x, s[0], s[j]);
        }
        assert forall j :: 0 < j < |r| ==> r[j] == s[j - 1];
      } else {
        var rest := Insert(x, s[1..]);
        InsertSorted(x, s[1..]);
        InsertPermutes(x, s[1..]);
        KeyLessAsymmetric(s[0], x);
        forall j | 0 <= j < |rest|
          ensures !KeyLess(rest[j], s[0])
        {
          assert rest[j] in multiset(rest);
          if rest[j] != x {
            assert rest[j] in multiset(s[1..]);
            var k :| 0 <= k < |s[1..]| && s[1..][k] == rest[j];
            assert s[k + 1] == rest[j];
          }
        }
        assert r == [s[0]] + rest;
      }
    }
  }

  /** The modelled `sort_values(["relation_rank", "username"])`: a
      permutation of its input, ascending by (rank, username). */
  function RankSort(rows: seq<RelationRow>): (r: seq<RelationRow>)
    ensures multiset(r) == multiset(rows)
    ensures SortedByRank(r)
  {
    if rows == [] then []
    else
      assert rows == [rows[0]] + rows[1..];
      InsertSorted(rows[0], RankSort(rows[1..]));
      InsertPermutes(rows[0], RankSort(rows[1..]));
      Insert(rows[0], RankSort(rows[1..]))
  }

  /** `x` passes over a run of smaller keys. */
  lemma {:induction false} InsertSkip(x: RelationRow, a: seq<RelationRow>, b: seq<RelationRow>)
    requires forall y :: y in a ==> KeyLess(y, x)
    ensures Insert(x, a + b) == a + Insert(x, b)
  {
    if a != [] {
      assert a[0] in a;
      assert (a + b)[0] == a[0] && (a + b)[1..] == a[1..] + b;
      InsertSkip(x, a[1..], b);
      assert a == [a[0]] + a[1..];
    } else {
      assert a + b == b;
    }
  }

  /** `x` stops in front of a run of keys that are not smaller. */
  lemma InsertFront(x: RelationRow, b: seq<RelationRow>)
    requires forall y :: y in b ==> !KeyLess(y, x)
    ensures Insert(x, b) == [x] + b
  {
    if b != [] {
      assert b[0] in b;
    }
  }

  /** The rows grouped by tag in rank order, each group in its original
      order. */
  function ByRank(rows: seq<RelationRow>): seq<RelationRow>
  {
    Subset(rows, YouFollowTheyDoNot) + (Subset(rows, TheyFollowYouOnly) + (Subset(rows, Mutual) + Subset(rows, Unknown)))
  }

  lemma SubsetCons(h: RelationRow, t: seq<RelationRow>, rel: Relation)
    ensures h.relation == rel ==> Subset([h] + t, rel) == [h] + Subset(t, rel)
    ensures h.relation != rel ==> Subset([h] + t, rel) == Subset(t, rel)
  {
    assert ([h] + t)[0] == h && ([h] + t)[1..] == t;
    assert [] + Subset(t, rel) == Subset(t, rel);
  }

  /** Rows of a tag ranked below `h`'s have smaller keys than `h`. */
  lemma GroupBelow(h: RelationRow, t: seq<RelationRow>, rel: Relation)
    requires Rank(rel) < Rank(h.relation)
    ensures forall z :: z in Subset(t, rel) ==> KeyLess(z, h)
  {
    SubsetMembers(t, rel);
  }

  /** Rows of a tag not ranked below `h`'s, with usernames above `h`'s, do
      not have smaller keys than `h`. */
  lemma GroupNotBelow(h: RelationRow, t: seq<RelationRow>, rel: Relation)
    requires forall z :: z in t ==> Less(h.username, z.username)
    requires Rank(h.relation) <= Rank(rel)
    ensures forall z :: z in Subset(t, rel) ==> !KeyLess(z, h)
  {
    SubsetMembers(t, rel);
    forall z | z in Subset(t, rel)
      ensures !KeyLess(z, h)
    {
      LessAsymmetric(h.username, z.username);
    }
  }

  /** A row whose username is below all others in `t` goes to the head of
      its tag's group. */
  lemma InsertHead(h: RelationRow, t: seq<RelationRow>)
    requires forall z :: z in t ==> Less(h.username, z.username)
    ensures Insert(h, ByRank(t)) == ByRank([h] + t)
  {
    var y, tf, m, u := Subset(t, YouFollowTheyDoNot), Subset(t, TheyFollowYouOnly), Subset(t, Mutual), Subset(t, Unknown);
    SubsetCons(h, t, YouFollowTheyDoNot);
    SubsetCons(h, t, TheyFollowYouOnly);
    SubsetCons(h, t, Mutual);
    SubsetCons(h, t, Unknown);
    match h.relation
    case YouFollowTheyDoNot =>
      InsertHeadFirst(h, t);
    case TheyFollowYouOnly =>
      GroupBelow(h, t, YouFollowTheyDoNot);
      InsertSkip(h, y, tf + (m + u));
      InsertHeadFirst(h, t);
    case Mutual =>
      GroupBelow(h, t, YouFollowTheyDoNot);
      GroupBelow(h, t, TheyFollowYouOnly);
      InsertSkip(h, y, tf + (m + u));
      InsertSkip(h, tf, m + u);
      InsertHeadFirst(h, t);
    case Unknown =>
      GroupBelow(h, t, YouFollowTheyDoNot);
      GroupBelow(h, t, TheyFollowYouOnly);
      GroupBelow(h, t, Mutual);
      InsertSkip(h, y, tf + (m + u));
      InsertSkip(h, tf, m + u);
      InsertSkip(h, m, u);
      InsertHeadFirst(h, t);
  }

  /** Once the groups ranked below `h` are passed, `h` stops in front of
      what is left: its own group and those ranked above. */
  lemma InsertHeadFirst(h: RelationRow, t: seq<RelationRow>)
    requires forall z :: z in t ==> Less(h.username, z.username)
    ensures var y, tf, m, u := Subset(t, YouFollowTheyDoNot), Subset(t, TheyFollowYouOnly), Subset(t, Mutual), Subset(t, Unknown);
            match h.relation
            case YouFollowTheyDoNot => Insert(h, y + (tf + (m + u))) == ([h] + y) + (tf + (m + u))
            case TheyFollowYouOnly => Insert(h, tf + (m + u)) == ([h] + tf) + (m + u)
            case Mutual => Insert(h, m + u) == ([h] + m) + u
            case Unknown => Insert(h, u) == [h] + u
  {
    var y, tf, m, u := Subset(t, YouFollowTheyDoNot), Subset(t, TheyFollowYouOnly), Subset(t, Mutual), Subset(t, Unknown);
    GroupNotBelow(h, t, Unknown);
    if h.relation != Unknown {
      GroupNotBelow(h, t, Mutual);
      if h.relation != Mutual {
        GroupNotBelow(h, t, TheyFollowYouOnly);
        if h.relation != TheyFollowYouOnly {
          GroupNotBelow(h, t, YouFollowTheyDoNot);
        }
      }
    }
    match h.relation
    case YouFollowTheyDoNot =>
      InsertFront(h, y + (tf + (m + u)));
      assert [h] + (y + (tf + (m + u))) == ([h] + y) + (tf + (m + u));
    case TheyFollowYouOnly =>
      InsertFront(h, tf + (m + u));
      assert [h] + (tf + (m + u)) == ([h] + tf) + (m + u);
    case Mutual =>
      InsertFront(h, m + u);
      assert [h] + (m + u) == ([h] + m) + u;
    case Unknown =>
      InsertFront(h, u);
  }

  /** On rows sorted by username, the rank sort only groups them by tag. */
  lemma {:induction false} RankSortGroups(rows: seq<RelationRow>)
    requires StrictlySorted(Names(rows))
    ensures RankSort(rows) == ByRank(rows)
  {
    if rows != [] {
      HeadLeast(rows);
      RankSortGroups(rows[1..]);
      InsertHead(rows[0], rows[1..]);
      assert rows == [rows[0]] + rows[1..];
    }
  }

  /** On rows sorted by username, filtering the rank-sorted table to one tag
      gives the same list as filtering the unsorted rows. */
  lemma PerRelationTablesAgree(rows: seq<RelationRow>, rel: Relation)
    requires StrictlySorted(Names(rows))
    ensures Subset(RankSort(rows), rel) == Subset(rows, rel)
  {
    RankSortGroups(rows);
    var y, tf, m, u := Subset(rows, YouFollowTheyDoNot), Subset(rows, TheyFollowYouOnly), Subset(rows, Mutual), Subset(rows, Unknown);
    SubsetAppend(y, tf + (m + u), rel);
    SubsetAppend(tf, m + u, rel);
    SubsetAppend(m, u, rel);
    SubsetOfSubset(rows, YouFollowTheyDoNot, rel);
    SubsetOfSubset(rows, TheyFollowYouOnly, rel);
    SubsetOfSubset(rows, Mutual, rel);
    SubsetOfSubset(rows, Unknown, rel);
    var g := Subset(rows, rel);
    assert Subset(RankSort(rows), rel) == Subset(y, rel) + (Subset(tf, rel) + (Subset(m, rel) + Subset(u, rel)));
    match rel
    case YouFollowTheyDoNot =>
      assert g + ([] + ([] + [])) == g;
    case TheyFollowYouOnly =>
      assert [] + (g + ([] + [])) == g;
    case Mutual =>
      assert [] + ([] + (g + [])) == g;
    case Unknown =>
      assert [] + ([] + ([] + g)) == g;
  }

  /** Rows with different usernames have comparable keys. */
  lemma KeyLessTotal(x: RelationRow, y: RelationRow)
    requires x.username != y.username
    ensures KeyLess(x, y) || KeyLess(y, x)
  {
    LessTotal(x.username, y.username);
  }

  /** Distinct rows carry distinct usernames. */
  ghost predicate DistinctNames(s: seq<RelationRow>)
  {
    forall x, y :: x in s && y in s && x != y ==> x.username != y.username
  }

  /** Dropping the first row keeps a table ascending. */
  lemma SortedByRankTail(s: seq<RelationRow>)
    requires s != [] && SortedByRank(s)
    ensures SortedByRank(s[1..])
  {
    forall i, j | 0 <= i < j < |s[1..]|
      ensures !KeyLess(s[1..][j], s[1..][i])
    {
      assert s[1..][j] == s[j + 1] && s[1..][i] == s[i + 1];
    }
  }

  /** Two ascending orderings of the same non-empty rows, distinct rows
      having distinct usernames, start with the same row. */
  lemma SortedByRankHeads(a: seq<RelationRow>, b: seq<RelationRow>)
    requires a != [] && multiset(a) == multiset(b)
    requires SortedByRank(a) && SortedByRank(b)
    requires DistinctNames(a)
    ensures b != [] && a[0] == b[0]
  {
    assert |b| == |multiset(b)| == |multiset(a)| == |a|;
    assert a[0] in multiset(b) && b[0] in multiset(a);
    if a[0] != b[0] {
      var k :| 0 <= k < |a| && a[k] == b[0];
      var j :| 0 <= j < |b| && b[j] == a[0];
      assert !KeyLess(b[0], a[0]) && !KeyLess(a[0], b[0]);
      KeyLessTotal(a[0], b[0]);
      assert false;
    }
  }

  /** Removing the same first row from two orderings of the same rows
      leaves two orderings of the same rows. */
  lemma DropSameHead(a: seq<RelationRow>, b: seq<RelationRow>)
    requires a != [] && b != [] && a[0] == b[0] && multiset(a) == multiset(b)
    requires DistinctNames(a)
    ensures multiset(a[1..]) == multiset(b[1..]) && DistinctNames(a[1..])
  {
    assert a == [a[0]] + a[1..] && b == [b[0]] + b[1..];
    assert multiset(a[1..]) == multiset(a) - multiset([a[0]]);
    assert multiset(b[1..]) == multiset(b) - multiset([b[0]]);
    forall x, y | x in a[1..] && y in a[1..] && x != y
      ensures x.username != y.username
    {
      assert x in a && y in a;
    }
  }

  /** Two orderings of the same rows, both ascending by (rank, username),
      are equal when distinct rows have distinct usernames: the sorted table
      does not depend on the sorting algorithm. */
  lemma {:induction false} SortedByRankUnique(a: seq<RelationRow>, b: seq<RelationRow>)
    requires multiset(a) == multiset(b)
    requires SortedByRank(a) && SortedByRank(b)
    requires DistinctNames(a)
    ensures a == b
  {
    if a == [] {
      assert |b| == |multiset(b)| == 0;
    } else {
      SortedByRankHeads(a, b);
      DropSameHead(a, b);
      SortedByRankTail(a);
      SortedByRankTail(b);
      SortedByRankUnique(a[1..], b[1..]);
      assert a == [a[0]] + a[1..] && b == [b[0]] + b[1..];
    }
  }

  /** Rows sorted strictly by username have distinct usernames. */
  lemma SortedNamesDistinct(rows: seq<RelationRow>)
    requires StrictlySorted(Names(rows))
    ensures DistinctNames(rows)
  {
    forall x, y | x in rows && y in rows && x != y
      ensures x.username != y.username
    {
      var i :| 0 <= i < |rows| && rows[i] == x;
      var j :| 0 <= j < |rows| && rows[j] == y;
      assert Names(rows)[i] == x.username && Names(rows)[j] == y.username;
      if i < j {
        LessIrreflexive(x.username);
      } else {
        LessIrreflexive(y.username);
      }
    }
  }

  /** On rows sorted by username, any permutation ascending by
      (rank, username), whichever algorithm produced it, is the modelled
      rank sort, hence the rows grouped by relation. */
  lemma RankSortDetermined(rows: seq<RelationRow>, out: seq<RelationRow>)
    requires StrictlySorted(Names(rows))
    requires multiset(out) == multiset(rows) && SortedByRank(out)
    ensures out == RankSort(rows) == ByRank(rows)
  {
    SortedNamesDistinct(rows);
    var r := RankSort(rows);
    assert DistinctNames(r) by {
      forall x, y | x in r && y in r && x != y
        ensures x.username != y.username
      {
        assert x in multiset(rows) && y in multiset(rows);
      }
    }
    SortedByRankUnique(r, out);
    RankSortGroups(rows);
  }

  /** The rows of the six CSV files `main` writes. */
  datatype CsvFiles = CsvFiles(
    followers: seq<MembershipRow>,
    following: seq<MembershipRow>,
    relations: seq<RelationRow>,
    youFollowTheyDoNot: seq<RelationRow>,
    theyFollowYouOnly: seq<RelationRow>,
    mutual: seq<RelationRow>)

  /** What `main` writes, in the branch with pandas (`withPandas`) or the
      one without. */
  function CsvOutputs(withPandas: bool, followersRows: seq<MembershipRow>, followingRows: seq<MembershipRow>,
                      rows: seq<RelationRow>): (out: CsvFiles)
    ensures out.followers == followersRows && out.following == followingRows
    ensures multiset(out.relations) == multiset(rows)
    ensures withPandas ==> SortedByRank(out.relations)
    ensures !withPandas ==> out.relations == rows
    ensures out.youFollowTheyDoNot == Subset(out.relations, YouFollowTheyDoNot)
    ensures out.theyFollowYouOnly == Subset(out.relations, TheyFollowYouOnly)
    ensures out.mutual == Subset(out.relations, Mutual)
  {
    var table := if withPandas then RankSort(rows) else rows;
    CsvFiles(
      followersRows,
      followingRows,
      table,
      Subset(table, YouFollowTheyDoNot),
      Subset(table, TheyFollowYouOnly),
      Subset(table, Mutual))
  }

  /** The two branches of `main` write the same rows, in the same order, to
      the raw and the per-relation files; `relations.csv` holds the same
      rows in both, sorted by username or grouped by rank. */
  lemma BranchesAgree(followersRows: seq<MembershipRow>, followingRows: seq<MembershipRow>, rows: seq<RelationRow>)
    requires StrictlySorted(Names(rows))
    ensures var p := CsvOutputs(true, followersRows, followingRows, rows);
            var f := CsvOutputs(false, followersRows, followingRows, rows);
            && p.followers == f.followers && p.following == f.following
            && p.youFollowTheyDoNot == f.youFollowTheyDoNot
            && p.theyFollowYouOnly == f.theyFollowYouOnly
            && p.mutual == f.mutual
            && multiset(p.relations) == multiset(f.relations)
            && StrictlySorted(Names(f.relations))
            && p.relations == f.youFollowTheyDoNot + (f.theyFollowYouOnly + (f.mutual + Subset(rows, Unknown)))
  {
    RankSortGroups(rows);
    PerRelationTablesAgree(rows, YouFollowTheyDoNot);
    PerRelationTablesAgree(rows, TheyFollowYouOnly);
    PerRelationTablesAgree(rows, Mutual);
  }

  /** Followers {a, b} and following {b, c}: `build_relation_rows` lists
      a (follows you only), b (mutual), c (you follow only). */
  lemma ExampleRows(rows: seq<RelationRow>)
    requires ValidRelationRows(rows, {"a", "b"}, {"b", "c"})
    ensures Names(rows) == ["a", "b", "c"]
    ensures [rows[0].relation, rows[1].relation, rows[2].relation] == [TheyFollowYouOnly, Mutual, YouFollowTheyDoNot]
  {
    ExampleUnion();
    assert rows[0].username == "a" && rows[1].username == "b" && rows[2].username == "c";
  }

  /** The sorted union of {a, b} and {b, c} is a, b, c. */
  lemma ExampleUnion()
    ensures SortedSeq({"a", "b"} + {"b", "c"}) == ["a", "b", "c"]
  {
    var abc := ["a", "b", "c"];
    assert Less("a", "b") && Less("a", "c") && Less("b", "c");
    assert StrictlySorted(abc);
    assert Elems(abc) == {"a", "b"} + {"b", "c"};
    SortedSeqProperties({"a", "b"} + {"b", "c"});
    StrictlySortedUnique(abc, SortedSeq({"a", "b"} + {"b", "c"}));
  }

  /** Rank sorting rows tagged follows-you-only, mutual, you-follow-only
      puts the last one first. */
  lemma RankSortThree(r0: RelationRow, r1: RelationRow, r2: RelationRow)
    requires r0.relation == TheyFollowYouOnly && r1.relation == Mutual && r2.relation == YouFollowTheyDoNot
    ensures RankSort([r0, r1, r2]) == [r2, r0, r1]
  {
    var rows := [r0, r1, r2];
    assert rows[1..] == [r1, r2] && rows[1..][1..] == [r2] && rows[1..][1..][1..] == [];
    assert RankSort([r2]) == [r2];
    assert Insert(r1, [r2]) == [r2, r1];
    assert RankSort(rows[1..]) == [r2, r1];
    assert Insert(r0, [r1]) == [r0, r1];
    assert Insert(r0, [r2, r1]) == [r2] + Insert(r0, [r1]);
  }

  /** The rank-sorted `relations.csv` of that example lists c, a, b. */
  lemma ExampleOrdering(rows: seq<RelationRow>)
    requires ValidRelationRows(rows, {"a", "b"}, {"b", "c"})
    ensures |rows| == 3 && RankSort(rows) == [rows[2], rows[0], rows[1]]
  {
    ExampleRows(rows);
    assert rows == [rows[0], rows[1], rows[2]];
    RankSortThree(rows[0], rows[1], rows[2]);
  }
}
