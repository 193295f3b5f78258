/**
  The whole audit as `main` runs it: load the export, build the relation
  rows, write the CSV files and the HTML report. The two branches of the
  CSV step (with pandas or without) are told apart by a flag.
*/
module Audit {
  import opened StringOrder
  import opened Loader
  import opened Classifier
  import opened Partition
  import opened RelationsTable

  /** An export after unpacking and parsing: the followers documents keyed
      by file name, and the entries under `relationships_following`. */
  datatype Export = Export(followersFiles: map<string, seq<Entry>>, relationshipsFollowing: seq<Entry>)

  /** Everything the audit writes: six CSV files and one report. */
  datatype Outputs = Outputs(csv: CsvFiles, report: Report)

  /** What the audit writes for an export. */
  ghost function AuditOf(withPandas: bool, title: string, e: Export): Outputs
  {
    var followersRows := SortedFilesRows(e.followersFiles);
    var followingRows := KeptRows(e.relationshipsFollowing);
    var followers, following := Usernames(followersRows), Usernames(followingRows);
    var rows := RelationRowsOf(followers, following);
    Outputs(CsvOutputs(withPandas, followersRows, followingRows, rows), HtmlReport(title, followers, following, rows))
  }

  /** The data flow of `main`, from the parsed export to the outputs. */
  method RunAudit(withPandas: bool, title: string, e: Export) returns (out: Outputs)
    ensures out == AuditOf(withPandas, title, e)
  {
    var followers, followersRows := LoadFollowers(e.followersFiles);
    var following, followingRows := LoadFollowing(e.relationshipsFollowing);
    var rows := BuildRelationRows(followers, following);
    RelationRowsUnique(rows, RelationRowsOf(followers, following), followers, following);
    out := Outputs(CsvOutputs(withPandas, followersRows, followingRows, rows), HtmlReport(title, followers, following, rows));
  }

  /** With or without pandas, the audit writes the same rows, in the same
      order, to the raw and the per-relation files, and the same report;
      `relations.csv` holds the same rows in both. */
  lemma AuditBranchesAgree(title: string, e: Export)
    ensures var p, f := AuditOf(true, title, e), AuditOf(false, title, e);
            && p.report == f.report
            && p.csv.followers == f.csv.followers && p.csv.following == f.csv.following
            && p.csv.youFollowTheyDoNot == f.csv.youFollowTheyDoNot
            && p.csv.theyFollowYouOnly == f.csv.theyFollowYouOnly
            && p.csv.mutual == f.csv.mutual
            && multiset(p.csv.relations) == multiset(f.csv.relations)
  {
    var followersRows := SortedFilesRows(e.followersFiles);
    var followingRows := KeptRows(e.relationshipsFollowing);
    var followers, following := Usernames(followersRows), Usernames(followingRows);
    var rows := RelationRowsOf(followers, following);
    RelationRowsProperties(rows, followers, following);
    BranchesAgree(followersRows, followingRows, rows);
  }

  /** Each per-relation CSV file lists, in username order, exactly the
      handles of its relation among those found in the two raw files; the
      report's cards list the same handles in the same order, and its
      summary counts the raw files' handles. */
  lemma AuditFilesAgree(withPandas: bool, title: string, e: Export)
    ensures var out := AuditOf(withPandas, title, e);
            var followers, following := Usernames(out.csv.followers), Usernames(out.csv.following);
            && Elems(Names(out.csv.youFollowTheyDoNot)) == following - followers
            && Elems(Names(out.csv.theyFollowYouOnly)) == followers - following
            && Elems(Names(out.csv.mutual)) == followers * following
            && StrictlySorted(Names(out.csv.youFollowTheyDoNot))
            && StrictlySorted(Names(out.csv.theyFollowYouOnly))
            && StrictlySorted(Names(out.csv.mutual))
            && out.report.sections[0].usernames == Names(out.csv.youFollowTheyDoNot)
            && out.report.sections[1].usernames == Names(out.csv.theyFollowYouOnly)
            && out.report.sections[2].usernames == Names(out.csv.mutual)
            && out.report.summary.followers == |followers|
            && out.report.summary.following == |following|
  {
    var followersRows := SortedFilesRows(e.followersFiles);
    var followingRows := KeptRows(e.relationshipsFollowing);
    var followers, following := Usernames(followersRows), Usernames(followingRows);
    var rows := RelationRowsOf(followers, following);
    RelationRowsProperties(rows, followers, following);
    ReportSections(title, followers, following, rows);
    ReportCounts(title, followers, following, rows);
    PerRelationTablesAgree(rows, YouFollowTheyDoNot);
    PerRelationTablesAgree(rows, TheyFollowYouOnly);
    PerRelationTablesAgree(rows, Mutual);
  }

  /** An export with no followers documents and no followed accounts
      yields empty tables and a report of zeros. */
  lemma AuditEmpty(withPandas: bool, title: string)
    ensures var out := AuditOf(withPandas, title, Export(map[], []));
            && out.csv.followers == [] && out.csv.following == [] && out.csv.relations == []
            && out.csv.youFollowTheyDoNot == [] && out.csv.theyFollowYouOnly == [] && out.csv.mutual == []
            && out.report.summary == Summary(0, 0, 0, 0, 0)
            && |out.report.sections| == 3
            && out.report.sections[0].count == out.report.sections[1].count == out.report.sections[2].count == 0
  {
    var files: map<string, seq<Entry>> := map[];
    assert files.Keys == {};
    assert SortedSeq(files.Keys) == [];
    var rows := RelationRowsOf({}, {});
    assert |rows| == 0;
  }
}
