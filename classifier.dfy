/**
  Relation classification: every handle in the union of the two sets gets
  one row saying whether it follows the account owner, whether the owner
  follows it, which of the relations that makes, and its profile link. Rows
  come in the order of the sorted union.
*/
module Classifier {
  import opened StringOrder

  /** The `relation` column. `Unknown` is the defensive fallback for a
      handle in neither set. */
  datatype Relation = Mutual | YouFollowTheyDoNot | TheyFollowYouOnly | Unknown

  /** The tag written to the CSV files and used as an HTML section id. */
  function Tag(rel: Relation): string
  {
    match rel
    case Mutual => "mutual"
    case YouFollowTheyDoNot => "you_follow_they_do_not"
    case TheyFollowYouOnly => "they_follow_you_only"
    case Unknown => "unknown"
  }

  /** Distinct relations have distinct tags, so comparing `Relation` values
      is the same as comparing the tag strings, as `subset` and both CSV
      branches of `main` do. */
  lemma TagInjective(a: Relation, b: Relation)
    requires Tag(a) == Tag(b)
    ensures a == b
  {
  }

  const ProfilePrefix: string := "https://instagram.com/"

  /** The profile link: the handle appended verbatim, with no escaping. */
  function ProfileUrl(u: string): (url: string)
    ensures |url| == |ProfilePrefix| + |u|
    ensures url[..|ProfilePrefix|] == ProfilePrefix && url[|ProfilePrefix|..] == u
  {
    ProfilePrefix + u
  }

  /** Distinct handles get distinct links. */
  lemma ProfileUrlInjective(a: string, b: string)
    requires ProfileUrl(a) == ProfileUrl(b)
    ensures a == b
  {
    assert a == ProfileUrl(a)[|ProfilePrefix|..];
  }

  /** One row of `relations.csv`. */
  datatype RelationRow = RelationRow(
    username: string,
    followsYou: bool,
    youFollow: bool,
    relation: Relation,
    profileUrl: string)

  /** The four-way choice of a relation from the two membership flags. */
  function Classify(followsYou: bool, youFollow: bool): (rel: Relation)
    ensures rel == Mutual <==> followsYou && youFollow
    ensures rel == YouFollowTheyDoNot <==> youFollow && !followsYou
    ensures rel == TheyFollowYouOnly <==> followsYou && !youFollow
    ensures rel == Unknown <==> !followsYou && !youFollow
  {
    if followsYou && youFollow then Mutual
    else if youFollow && !followsYou then YouFollowTheyDoNot
    else if followsYou && !youFollow then TheyFollowYouOnly
    else Unknown
  }

  /** The row for handle `u`. */
  function RowFor(u: string, followers: set<string>, following: set<string>): RelationRow
  {
    var fy, yf := u in followers, u in following;
    RelationRow(u, fy, yf, Classify(fy, yf), ProfileUrl(u))
  }

  /** The `username` column of a row list. */
  function Names(rows: seq<RelationRow>): (names: seq<string>)
    ensures |names| == |rows|
    ensures forall i :: 0 <= i < |rows| ==> names[i] == rows[i].username
  {
    seq(|rows|, i requires 0 <= i < |rows| => rows[i].username)
  }

  /** What `build_relation_rows` returns: one row per handle of the sorted
      union, each the row for its handle. */
  ghost predicate ValidRelationRows(rows: seq<RelationRow>, followers: set<string>, following: set<string>)
  {
    && Names(rows) == SortedSeq(followers + following)
    && forall i :: 0 <= i < |rows| ==> rows[i] == RowFor(rows[i].username, followers, following)
  }

  /** The row list `build_relation_rows` returns for two sets. */
  ghost function RelationRowsOf(followers: set<string>, following: set<string>): (rows: seq<RelationRow>)
    ensures ValidRelationRows(rows, followers, following)
  {
    var users := SortedSeq(followers + following);
    SortedSeqProperties(followers + following);
    var rows := seq(|users|, i requires 0 <= i < |users| => RowFor(users[i], followers, following));
    assert Names(rows) == users;
    rows
  }

  /** `build_relation_rows`. */
  method BuildRelationRows(followers: set<string>, following: set<string>)
    returns (rows: seq<RelationRow>)
    ensures ValidRelationRows(rows, followers, following)
    ensures |rows| == |followers + following|
  {
    var allUsers := SortedStrings(followers + following);
    rows := [];
    for i := 0 to |allUsers|
      invariant |rows| == i
      invariant forall k :: 0 <= k < i ==> rows[k] == RowFor(allUsers[k], followers, following)
    {
      var u := allUsers[i];
      var fy := u in followers;
      var yf := u in following;
      var rel;
      if fy && yf {
        rel := Mutual;
      } else if yf && !fy {
        rel := YouFollowTheyDoNot;
      } else if fy && !yf {
        rel := TheyFollowYouOnly;
      } else {
        rel := Unknown;
      }
      assert rel == Classify(fy, yf);
      var row := RelationRow(u, fy, yf, rel, ProfileUrl(u));
      assert row == RowFor(allUsers[i], followers, following);
      rows := rows + [row];
    }
    assert Names(rows) == allUsers;
    SortedSeqProperties(followers + following);
  }

  /** What the rows promise: sorted without duplicates, one per handle of
      the union, flags telling membership, never `Unknown`. */
  lemma RelationRowsProperties(rows: seq<RelationRow>, followers: set<string>, following: set<string>)
    requires ValidRelationRows(rows, followers, following)
    ensures StrictlySorted(Names(rows))
    ensures Elems(Names(rows)) == followers + following
    ensures |rows| == |followers + following|
    ensures forall i :: 0 <= i < |rows| ==>
              && rows[i].followsYou == (rows[i].username in followers)
              && rows[i].youFollow == (rows[i].username in following)
              && rows[i].relation == Classify(rows[i].followsYou, rows[i].youFollow)
              && rows[i].relation != Unknown
              && rows[i].profileUrl == ProfileUrl(rows[i].username)
  {
    SortedSeqProperties(followers + following);
    forall i | 0 <= i < |rows|
      ensures rows[i].username in followers + following
    {
      assert Names(rows)[i] in Elems(Names(rows));
    }
  }

  /** The row list is determined by the two sets. */
  lemma RelationRowsUnique(a: seq<RelationRow>, b: seq<RelationRow>, followers: set<string>, following: set<string>)
    requires ValidRelationRows(a, followers, following)
    requires ValidRelationRows(b, followers, following)
    ensures a == b
  {
    forall i | 0 <= i < |a|
      ensures a[i] == b[i]
    {
      assert a[i].username == Names(a)[i] == Names(b)[i] == b[i].username;
    }
  }
}
