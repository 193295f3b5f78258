/**
  Partitioning of the relation rows by tag (`subset`) and the counts the
  HTML report shows (`write_html`, `html_list`). The markup itself is not
  modelled: a report is its summary badges and, per section, its id, title,
  count badge and the handles and links it lists.
*/
module Partition {
  import opened StringOrder
  import opened Classifier

  /** `subset`: the rows tagged `rel`, in their original order. */
  function Subset(rows: seq<RelationRow>, rel: Relation): (r: seq<RelationRow>)
    ensures |r| <= |rows|
  {
    if rows == [] then []
    else (if rows[0].relation == rel then [rows[0]] else []) + Subset(rows[1..], rel)
  }

  /** `subset` keeps exactly the rows tagged `rel`. */
  lemma {:induction false} SubsetMembers(rows: seq<RelationRow>, rel: Relation)
    ensures forall x :: x in Subset(rows, rel) <==> x in rows && x.relation == rel
  {
    if rows != [] {
      SubsetMembers(rows[1..], rel);
      assert rows == [rows[0]] + rows[1..];
    }
  }

  /** `a` is `b` with some elements left out, the others in their order. */
  predicate IsSubsequence(a: seq<RelationRow>, b: seq<RelationRow>)
  {
    if a == [] then true
    else if b == [] then false
    else (a[0] == b[0] && IsSubsequence(a[1..], b[1..])) || IsSubsequence(a, b[1..])
  }

  lemma {:induction false} SubsetIsSubsequence(rows: seq<RelationRow>, rel: Relation)
    ensures IsSubsequence(Subset(rows, rel), rows)
  {
    if rows != [] {
      var tail := rows[1..];
      var s := Subset(rows, rel);
      SubsetIsSubsequence(tail, rel);
      if rows[0].relation == rel {
        assert s[0] == rows[0] && s[1..] == Subset(tail, rel);
      } else {
        assert s == Subset(tail, rel);
      }
    }
  }

  /** In a list sorted by handle, the head's handle is below every other. */
  lemma HeadLeast(rows: seq<RelationRow>)
    requires rows != [] && StrictlySorted(Names(rows))
    ensures StrictlySorted(Names(rows[1..]))
    ensures forall x :: x in rows[1..] ==> Less(rows[0].username, x.username)
  {
    assert Names(rows[1..]) == Names(rows)[1..];
    forall x | x in rows[1..]
      ensures Less(rows[0].username, x.username)
    {
      var k :| 0 <= k < |rows[1..]| && rows[1..][k] == x;
      assert Names(rows)[0] == rows[0].username && Names(rows)[k + 1] == x.username;
    }
  }

  lemma ConsSorted(h: RelationRow, t: seq<RelationRow>)
    requires StrictlySorted(Names(t))
    requires forall x :: x in t ==> Less(h.username, x.username)
    ensures StrictlySorted(Names([h] + t))
  {
    var n := Names([h] + t);
    assert n == [h.username] + Names(t);
    forall j | 0 < j < |n|
      ensures Less(n[0], n[j])
    {
      assert t[j - 1] in t;
    }
  }

  /** Filtering a sorted row list leaves it sorted. */
  lemma {:induction false} SubsetSorted(rows: seq<RelationRow>, rel: Relation)
    requires StrictlySorted(Names(rows))
    ensures StrictlySorted(Names(Subset(rows, rel)))
  {
    if rows != [] {
      var tail := rows[1..];
      HeadLeast(rows);
      SubsetSorted(tail, rel);
      if rows[0].relation == rel {
        SubsetMembers(tail, rel);
        ConsSorted(rows[0], Subset(tail, rel));
      }
    }
  }

  lemma {:induction false} SubsetAppend(a: seq<RelationRow>, b: seq<RelationRow>, rel: Relation)
    ensures Subset(a + b, rel) == Subset(a, rel) + Subset(b, rel)
  {
    if a == [] {
      assert a + b == b;
    } else {
      var h := if a[0].relation == rel then [a[0]] else [];
      assert (a + b)[0] == a[0] && (a + b)[1..] == a[1..] + b;
      SubsetAppend(a[1..], b, rel);
      calc {
        Subset(a + b, rel);
        h + Subset(a[1..] + b, rel);
        h + (Subset(a[1..], rel) + Subset(b, rel));
        (h + Subset(a[1..], rel)) + Subset(b, rel);
      }
    }
  }

  lemma {:induction false} SubsetOfSubset(rows: seq<RelationRow>, a: Relation, b: Relation)
    ensures Subset(Subset(rows, a), b) == if a == b then Subset(rows, a) else []
  {
    if rows != [] {
      SubsetOfSubset(rows[1..], a, b);
      var head := if rows[0].relation == a then [rows[0]] else [];
      SubsetAppend(head, Subset(rows[1..], a), b);
    }
  }

  /** Every row falls under exactly one of the four tags. */
  lemma {:induction false} SubsetLengths(rows: seq<RelationRow>)
    ensures |Subset(rows, Mutual)| + |Subset(rows, YouFollowTheyDoNot)|
          + |Subset(rows, TheyFollowYouOnly)| + |Subset(rows, Unknown)| == |rows|
  {
    if rows != [] {
      SubsetLengths(rows[1..]);
    }
  }

  /** The three subsets `write_html` builds are pairwise disjoint, cover
      every row that is not `Unknown`, and their lengths add up to the row
      count when no row is `Unknown`. */
  lemma ThreeWayPartition(rows: seq<RelationRow>)
    requires forall i :: 0 <= i < |rows| ==> rows[i].relation != Unknown
    ensures |Subset(rows, Mutual)| + |Subset(rows, YouFollowTheyDoNot)|
          + |Subset(rows, TheyFollowYouOnly)| == |rows|
    ensures forall x :: x in rows ==>
              x in Subset(rows, Mutual) || x in Subset(rows, YouFollowTheyDoNot) || x in Subset(rows, TheyFollowYouOnly)
    ensures forall x :: !(x in Subset(rows, Mutual) && x in Subset(rows, YouFollowTheyDoNot))
    ensures forall x :: !(x in Subset(rows, Mutual) && x in Subset(rows, TheyFollowYouOnly))
    ensures forall x :: !(x in Subset(rows, YouFollowTheyDoNot) && x in Subset(rows, TheyFollowYouOnly))
  {
    SubsetLengths(rows);
    SubsetMembers(rows, Mutual);
    SubsetMembers(rows, YouFollowTheyDoNot);
    SubsetMembers(rows, TheyFollowYouOnly);
    SubsetMembers(rows, Unknown);
  }

  /** The handles listed under one tag. */
  function HandlesTagged(rows: seq<RelationRow>, rel: Relation): set<string>
  {
    Elems(Names(Subset(rows, rel)))
  }

  lemma HandlesTaggedMembers(rows: seq<RelationRow>, rel: Relation, u: string)
    ensures u in HandlesTagged(rows, rel) <==>
              exists i :: 0 <= i < |rows| && rows[i].username == u && rows[i].relation == rel
  {
    var s := Subset(rows, rel);
    SubsetMembers(rows, rel);
    if u in HandlesTagged(rows, rel) {
      var k :| 0 <= k < |s| && Names(s)[k] == u;
      assert s[k] in rows;
    }
    if exists i :: 0 <= i < |rows| && rows[i].username == u && rows[i].relation == rel {
      var i :| 0 <= i < |rows| && rows[i].username == u && rows[i].relation == rel;
      assert rows[i] in s;
      var k :| 0 <= k < |s| && s[k] == rows[i];
      assert Names(s)[k] == u;
    }
  }

  /** Under tag `rel` the rows of `build_relation_rows` list exactly the
      handles of the union that `Classify` sends to `rel`. */
  lemma HandlesTaggedExactly(rows: seq<RelationRow>, followers: set<string>, following: set<string>, rel: Relation, u: string)
    requires ValidRelationRows(rows, followers, following)
    ensures u in HandlesTagged(rows, rel) <==>
              u in followers + following && Classify(u in followers, u in following) == rel
  {
    HandlesTaggedMembers(rows, rel, u);
    SortedSeqProperties(followers + following);
    var names := Names(rows);
    assert Elems(names) == followers + following;
    if u in followers + following {
      var i :| 0 <= i < |names| && names[i] == u;
      assert rows[i] == RowFor(u, followers, following);
    }
    if u in HandlesTagged(rows, rel) {
      var i :| 0 <= i < |rows| && rows[i].username == u && rows[i].relation == rel;
      assert rows[i] == RowFor(u, followers, following);
      assert names[i] in Elems(names);
    }
  }

  /** Under each tag the rows of `build_relation_rows` list exactly one set
      difference or the intersection of the two sets, and none is `Unknown`. */
  lemma HandlesBySet(rows: seq<RelationRow>, followers: set<string>, following: set<string>)
    requires ValidRelationRows(rows, followers, following)
    ensures HandlesTagged(rows, Mutual) == followers * following
    ensures HandlesTagged(rows, YouFollowTheyDoNot) == following - followers
    ensures HandlesTagged(rows, TheyFollowYouOnly) == followers - following
    ensures HandlesTagged(rows, Unknown) == {}
  {
    forall u
      ensures u in HandlesTagged(rows, Mutual) <==> u in followers * following
      ensures u in HandlesTagged(rows, YouFollowTheyDoNot) <==> u in following - followers
      ensures u in HandlesTagged(rows, TheyFollowYouOnly) <==> u in followers - following
      ensures u !in HandlesTagged(rows, Unknown)
    {
      HandlesTaggedExactly(rows, followers, following, Mutual, u);
      HandlesTaggedExactly(rows, followers, following, YouFollowTheyDoNot, u);
      HandlesTaggedExactly(rows, followers, following, TheyFollowYouOnly, u);
      HandlesTaggedExactly(rows, followers, following, Unknown, u);
    }
  }

  /** A subset of rows with distinct handles is as long as the set of
      handles it lists. */
  lemma SubsetCount(rows: seq<RelationRow>, rel: Relation)
    requires StrictlySorted(Names(rows))
    ensures |Subset(rows, rel)| == |HandlesTagged(rows, rel)|
  {
    SubsetSorted(rows, rel);
    StrictlySortedCard(Names(Subset(rows, rel)));
  }

  /** The summary badges of the report. */
  datatype Summary = Summary(
    followers: nat,
    following: nat,
    mutual: nat,
    youFollowTheyDoNot: nat,
    theyFollowYouOnly: nat)

  /** One card of the report: its id, title, count badge, and the handles
      and profile links it lists. */
  datatype Section = Section(id: string, title: string, count: nat, usernames: seq<string>, links: seq<string>)

  datatype Report = Report(title: string, summary: Summary, sections: seq<Section>)

  /** `html_list`: the count badge shows how many rows the card lists. */
  function HtmlList(sectionId: string, title: string, items: seq<RelationRow>): (s: Section)
    ensures s.count == |s.usernames| == |s.links| == |items|
    ensures forall i :: 0 <= i < |items| ==> s.usernames[i] == items[i].username && s.links[i] == items[i].profileUrl
  {
    Section(sectionId, title, |items|, Names(items), seq(|items|, i requires 0 <= i < |items| => items[i].profileUrl))
  }

  /** `write_html`, without its markup: the summary badges count the two
      sets and the three relation lists, and the cards come in the order
      you-follow-only, follows-you-only, mutual. */
  function HtmlReport(title: string, followers: set<string>, following: set<string>, rows: seq<RelationRow>): (r: Report)
    ensures r.title == title
    ensures r.summary.followers == |followers| && r.summary.following == |following|
    ensures r.summary.mutual == |Subset(rows, Mutual)|
    ensures r.summary.youFollowTheyDoNot == |Subset(rows, YouFollowTheyDoNot)|
    ensures r.summary.theyFollowYouOnly == |Subset(rows, TheyFollowYouOnly)|
    ensures |r.sections| == 3
    ensures r.sections[0].id == "you_follow_they_do_not" && r.sections[0].title == "You follow - they do not"
    ensures r.sections[1].id == "they_follow_you_only" && r.sections[1].title == "They follow you - you do not follow back"
    ensures r.sections[2].id == "mutual" && r.sections[2].title == "Mutual follows"
    ensures r.sections[0].usernames == Names(Subset(rows, YouFollowTheyDoNot))
    ensures r.sections[1].usernames == Names(Subset(rows, TheyFollowYouOnly))
    ensures r.sections[2].usernames == Names(Subset(rows, Mutual))
  {
    var mutual := Subset(rows, Mutual);
    var youNot := Subset(rows, YouFollowTheyDoNot);
    var theyNot := Subset(rows, TheyFollowYouOnly);
    Report(
      title,
      Summary(|followers|, |following|, |mutual|, |youNot|, |theyNot|),
      [ HtmlList(Tag(YouFollowTheyDoNot), "You follow - they do not", youNot),
        HtmlList(Tag(TheyFollowYouOnly), "They follow you - you do not follow back", theyNot),
        HtmlList(Tag(Mutual), "Mutual follows", mutual) ])
  }

  /** The report's numbers are the sizes of the intersection and the two
      differences of the sets, they add up to the row count, and each
      card's badge agrees with the summary. */
  lemma ReportCounts(title: string, followers: set<string>, following: set<string>, rows: seq<RelationRow>)
    requires ValidRelationRows(rows, followers, following)
    ensures var r := HtmlReport(title, followers, following, rows);
            && r.summary.followers == |followers|
            && r.summary.following == |following|
            && r.summary.mutual == |followers * following|
            && r.summary.youFollowTheyDoNot == |following - followers|
            && r.summary.theyFollowYouOnly == |followers - following|
            && r.summary.mutual + r.summary.youFollowTheyDoNot + r.summary.theyFollowYouOnly == |rows|
            && |r.sections| == 3
            && r.sections[0].count == r.summary.youFollowTheyDoNot
            && r.sections[1].count == r.summary.theyFollowYouOnly
            && r.sections[2].count == r.summary.mutual
  {
    SortedSeqProperties(followers + following);
    HandlesBySet(rows, followers, following);
    SubsetCount(rows, Mutual);
    SubsetCount(rows, YouFollowTheyDoNot);
    SubsetCount(rows, TheyFollowYouOnly);
    SubsetCount(rows, Unknown);
    SubsetLengths(rows);
  }

  /** Each card lists, in sorted order, exactly the handles of its relation:
      the owner's unreturned follows, the unreturned followers, and the
      mutual follows. */
  lemma ReportSections(title: string, followers: set<string>, following: set<string>, rows: seq<RelationRow>)
    requires ValidRelationRows(rows, followers, following)
    ensures var r := HtmlReport(title, followers, following, rows);
            && |r.sections| == 3
            && r.sections[0].id == "you_follow_they_do_not"
            && r.sections[1].id == "they_follow_you_only"
            && r.sections[2].id == "mutual"
            && Elems(r.sections[0].usernames) == following - followers
            && Elems(r.sections[1].usernames) == followers - following
            && Elems(r.sections[2].usernames) == followers * following
            && StrictlySorted(r.sections[0].usernames)
            && StrictlySorted(r.sections[1].usernames)
            && StrictlySorted(r.sections[2].usernames)
  {
    SortedSeqProperties(followers + following);
    HandlesBySet(rows, followers, following);
    SubsetSorted(rows, Mutual);
    SubsetSorted(rows, YouFollowTheyDoNot);
    SubsetSorted(rows, TheyFollowYouOnly);
  }
}
