# Instagram follow audit, modelled in Dafny

`ig_follow_audit.py` reads an Instagram "Download your information" export,
collects the handles of the accounts that follow the owner (the followers
documents `followers_*.json`) and of the accounts the owner follows
(`following.json`, under `relationships_following`), and classifies every
handle of the union as *mutual*, *you follow – they do not* or *they follow
you only*. It writes two raw CSV files (`followers.csv`, `following.csv`), a
relations table (`relations.csv`), one CSV file per relation, and an HTML
report with summary counts and one card per relation.

The model covers that data flow after the archive has been unpacked and its
JSON parsed:

- `Loader` — the entries of a document as values (`Entry`, `ListItem`,
  `Scalar`), `safe_get` (`SafeGet`), the truthiness test on a handle
  (`Identifier`), and the two loader loops as methods (`AddEntries`,
  `LoadFollowers`, `LoadFollowing`) proved against the recursive
  specification `KeptRows` and the handle set `Usernames`.
- `StringOrder` — Python's order on `str` (code-point lexicographic) and
  `sorted` on a set of strings as a method (`SortedStrings`) proved equal to
  `SortedSeq`, the unique strictly increasing enumeration of the set.
- `Classifier` — `build_relation_rows` as a method with the source's loop and
  `if` chain, proved to return exactly `RelationRowsOf(followers, following)`.
- `Partition` — `subset`, `html_list` and `write_html` without the markup:
  the report's summary counts and the handles each card lists.
- `RelationsTable` — the two branches `main` takes to write the relation CSV
  files: with pandas, `sort_values(["relation_rank", "username"])` modelled as
  an insertion sort (`RankSort`) on the key (rank, username), and any sort
  on that key gives the same table (`RankSortDetermined`); without pandas,
  the rows in the order of `build_relation_rows`. The central result
  (`RankSortGroups`) is that on rows sorted by username the rank sort only
  groups them by relation, each group keeping username order; hence both
  branches write the same rows, in the same order, to each per-relation
  file (`BranchesAgree`).
- `Audit` — `main`'s data flow from the parsed export to all outputs
  (`RunAudit`), with whole-pipeline properties.

The loaders' I/O is replaced by parameters: the followers documents are a
map from file name to the parsed entries (the glob's matches in one
directory, read in sorted name order), and the following document is the
list held under `relationships_following` (empty when the key is absent). A
flag chooses between the pandas branch and the plain branch.

## Model

| member | source | states |
|---|---|---|
| `Loader.SafeGet` | ig_follow_audit.py:77-81 | The lookup yields a value exactly when the entry is an object, element `idx` of its `string_list_data` exists and is an object, and that object has the field; the value is then that field; every other case (including each caught exception) yields none. |
| `Loader.Identifier` | ig_follow_audit.py:99-101 | An entry contributes a handle exactly when element 0 of its list is an object whose `value` is a non-empty string, and the handle is that string. |
| `Loader.KeptRows` | ig_follow_audit.py:98-103 | The rows kept for a run of entries are at most one per entry and never carry an empty handle. |
| `Loader.KeptRowsAppend` | ig_follow_audit.py:95-103 | Reading two runs of entries one after the other yields the rows of the first followed by those of the second. |
| `Loader.KeptRowsMembers` | ig_follow_audit.py:98-103 | A row is in the output exactly when some entry has that truthy handle, and the row carries that entry's handle and timestamp lookup. |
| `Loader.UsernamesBound` | ig_follow_audit.py:101-103 | The handle set has no more elements than the row list (duplicates collapse in the set but not in the rows). |
| `Loader.AddEntries` | ig_follow_audit.py:98-103 | The loop body over one document appends exactly the kept rows, in entry order, and adds exactly their handles to the set. |
| `Loader.LoadFollowers` | ig_follow_audit.py:89-103 | The followers rows are the kept rows of every followers document, documents taken in sorted file-name order, and the followers set is exactly the handles of those rows. |
| `Loader.LoadFollowing` | ig_follow_audit.py:108-115 | The following rows are the kept rows of `relationships_following`, and the following set is exactly their handles. |
| `StringOrder.LessTotal` | ig_follow_audit.py:128 | The string order used by `sorted` is total: any two strings are equal or one is below the other. |
| `StringOrder.LessTransitive` | ig_follow_audit.py:128 | The string order is transitive. |
| `StringOrder.SortedSeqProperties` | ig_follow_audit.py:128 | The sorted form of a set (its least element, then the sorted form of the rest) is strictly increasing, holds exactly the set's elements, and has the set's size. |
| `StringOrder.StrictlySortedUnique` | ig_follow_audit.py:128 | Two strictly increasing sequences with the same elements are equal, so the sorted form of a set is unique. |
| `StringOrder.SortedStrings` | ig_follow_audit.py:128 | `sorted` on a set returns its sorted form. |
| `Classifier.Classify` | ig_follow_audit.py:133-140 | Each of the four relations is chosen exactly when its flag combination holds (both directions of each equivalence). |
| `Classifier.ProfileUrl` | ig_follow_audit.py:146 | The link is the fixed prefix followed by the handle verbatim. |
| `Classifier.ProfileUrlInjective` | ig_follow_audit.py:146 | Distinct handles get distinct links. |
| `Classifier.RelationRowsOf` | ig_follow_audit.py:127-148 | The reference row list: one row per handle of the sorted union, each the row its handle's membership dictates. |
| `Classifier.BuildRelationRows` | ig_follow_audit.py:127-148 | The method returns a valid row list for the two sets, one row per handle of their union. |
| `Classifier.RelationRowsProperties` | ig_follow_audit.py:127-148 | A valid row list is strictly sorted by handle, covers exactly the union, has its size, its flags tell membership, its relation is the classification of the flags and never `unknown`, and its link is the profile link. |
| `Classifier.RelationRowsUnique` | ig_follow_audit.py:127-148 | The row list is determined by the two sets. |
| `Partition.Subset` | ig_follow_audit.py:150-151 | Filtering never lengthens the rows. |
| `Partition.SubsetMembers` | ig_follow_audit.py:150-151 | A row is in the filtered list exactly when it is in the input and carries the tag. |
| `Partition.SubsetIsSubsequence` | ig_follow_audit.py:150-151 | The filtered list keeps the input's order. |
| `Partition.SubsetSorted` | ig_follow_audit.py:150-151 | Filtering rows sorted by handle leaves them sorted. |
| `Partition.SubsetAppend` | ig_follow_audit.py:150-151 | Filtering distributes over concatenation. |
| `Partition.SubsetOfSubset` | ig_follow_audit.py:150-151 | Filtering a filtered list by the same tag changes nothing, by another tag leaves nothing. |
| `Partition.SubsetLengths` | ig_follow_audit.py:150-151 | The four filtered lists together are as long as the input. |
| `Partition.ThreeWayPartition` | ig_follow_audit.py:164-166 | Without `unknown` rows the three relation lists partition the rows: their lengths add up, every row is in one of them, and no row is in two. |
| `Partition.HandlesTaggedExactly` | ig_follow_audit.py:133-140 | In a valid row list a handle is tagged with a relation exactly when its membership in the two sets gives that relation. |
| `Partition.HandlesBySet` | ig_follow_audit.py:164-166 | The mutual handles are the intersection of the sets, the unreturned follows are following minus followers, the unreturned followers are followers minus following, and no handle is `unknown`. |
| `Partition.SubsetCount` | ig_follow_audit.py:177-179 | On rows sorted by handle, a relation list's length is the number of handles it holds. |
| `Partition.HtmlReport` | ig_follow_audit.py:163-185 | The report keeps the title; its summary counts the followers set, the following set and the three relation lists; its three cards are, in order, you-follow-only, follows-you-only and mutual, with the source's ids and titles, each listing its relation's rows. |
| `Partition.HtmlList` | ig_follow_audit.py:153-161 | A card's count badge is the number of rows it lists, and it lists each row's handle and profile link in order. |
| `Partition.ReportCounts` | ig_follow_audit.py:175-181 | The summary shows the sizes of the two sets, the intersection and the two differences; the three relation counts add up to the row count; each card's badge agrees with the summary. |
| `Partition.ReportSections` | ig_follow_audit.py:182-185 | The cards come in the order you-follow-only, follows-you-only, mutual, with those ids, and each lists, strictly sorted, exactly the handles of its set difference or intersection. |
| `RelationsTable.Rank` | ig_follow_audit.py:218-219 | The ranks are 0 for you-follow-only, 1 for follows-you-only, 2 for mutual and 9 for `unknown`, each value given to exactly that relation. |
| `RelationsTable.KeyNotLessTransitive` | ig_follow_audit.py:220 | "Not smaller" on the sort key (rank, username) is transitive. |
| `RelationsTable.InsertPermutes` | ig_follow_audit.py:220 | Insertion adds exactly the inserted row. |
| `RelationsTable.InsertSorted` | ig_follow_audit.py:220 | Insertion into a list ascending by key keeps it ascending. |
| `RelationsTable.RankSort` | ig_follow_audit.py:218-220 | The sorted table is a permutation of the rows and ascending by (rank, username). |
| `RelationsTable.InsertHead` | ig_follow_audit.py:220 | A row whose handle is below all others lands at the head of its relation's group. |
| `RelationsTable.RankSortGroups` | ig_follow_audit.py:218-220 | On rows sorted by handle, the sorted table is the you-follow-only rows, then the follows-you-only rows, then the mutual rows, then the `unknown` rows, each group in its original order. |
| `RelationsTable.PerRelationTablesAgree` | ig_follow_audit.py:222-224 | On rows sorted by handle, filtering the sorted table to one relation gives the same list as filtering the unsorted rows. |
| `RelationsTable.SortedByRankUnique` | ig_follow_audit.py:220 | Two orderings of the same rows, both ascending by (rank, username), are equal when distinct rows have distinct usernames. |
| `RelationsTable.RankSortDetermined` | ig_follow_audit.py:220 | On rows sorted by username, every permutation ascending by (rank, username) is the modelled rank sort, and so the rows grouped by relation. |
| `RelationsTable.CsvOutputs` | ig_follow_audit.py:207-237 | Both branches write the raw rows unchanged and a relations table that is a permutation of the rows; the pandas table is ascending by key, the plain one is the rows as given; each per-relation file is the table filtered to its relation. |
| `RelationsTable.BranchesAgree` | ig_follow_audit.py:216-237 | On rows sorted by handle, both branches write the same rows, in the same order, to the raw and per-relation files; their relations tables hold the same rows, the plain one sorted by handle and the pandas one grouped by rank. |
| `RelationsTable.ExampleUnion` | ig_follow_audit.py:128 | The sorted union of {a, b} and {b, c} is a, b, c. |
| `RelationsTable.ExampleRows` | ig_follow_audit.py:127-148 | Followers {a, b} and following {b, c} give the rows a (follows you only), b (mutual), c (you follow only). |
| `RelationsTable.RankSortThree` | ig_follow_audit.py:218-220 | Rows tagged follows-you-only, mutual, you-follow-only sort to r2, r0, r1, with the you-follow-only row first. |
| `RelationsTable.ExampleOrdering` | ig_follow_audit.py:216-221 | For that example, the pandas `relations.csv` lists c, a, b. |
| `Audit.RunAudit` | ig_follow_audit.py:204-240 | The pipeline's outputs are those dictated by the export: loaded rows, the relation rows of their handle sets, the CSV files and the report. |
| `Audit.AuditBranchesAgree` | ig_follow_audit.py:216-240 | With or without pandas, the audit writes the same rows, in the same order, to the raw and per-relation files, the same report, and relations tables with the same rows. |
| `Audit.AuditFilesAgree` | ig_follow_audit.py:207-240 | Each per-relation file lists, sorted by handle, exactly its relation's handles among those of the raw files; the report's cards list the same handles in the same order; the summary counts the raw files' distinct handles. |
| `Audit.AuditEmpty` | ig_follow_audit.py:204-240 | An export with no followers documents and no followed accounts yields empty tables and a report of zeros. |

## Left out

- Unpacking the ZIP into a temporary directory, the existence checks of the
  `followers_and_following` directory and of `following.json` (and their
  `FileNotFoundError`), globbing, opening files and JSON parsing: the model
  starts from the parsed documents. A top-level following document that is
  not an object (which makes `.get` raise) is not modelled.
- A followers document whose top level is not a list is not modelled; the
  model takes it as a list of entries. A `string_list_data` that is absent
  or not a list is modelled as an empty list (every lookup then fails, as in
  the source), and a field holding JSON null as an absent field.
- `Loader.Identifier`: only a non-empty string counts as a handle. In the
  source, a non-empty list or object `value` is unhashable, so `.add` raises
  `TypeError` while loading (ig_follow_audit.py:102, :114); a non-zero
  number or `true` enters the set, and `sorted` (:128) raises when strings
  are also present (and succeeds when every handle is numeric). The model
  skips every such entry.
- `Loader.SafeGet`: the index is a natural number; Python's negative indexing
  is not modelled (the source only ever uses index 0), and the unused `key`
  parameter is dropped.
- CSV serialisation (`write_csv_rows`, `csv.DictWriter`, `to_csv`): the model
  states which rows each file holds and in which order, not the bytes. In
  particular the two branches' CSV files differ in their line endings:
  `to_csv` ends lines with the platform's line separator (`\n` on POSIX),
  `csv.DictWriter` always with `\r\n`, so the files of the two branches hold
  the same rows but are not byte-identical.
- The HTML markup, the stylesheet and the client-side search script: the
  report is modelled as its title, summary counts and the handles and links
  of each card. No HTML escaping takes place in the source, and none is
  modelled.
- Command-line parsing, the printed messages, creating the output directory
  and opening the report in a browser.
- pandas itself: `sort_values` is modelled as an insertion sort on
  (rank, username). The rows have distinct handles, so no two rows share a
  key; `RankSortDetermined` proves that every permutation ascending by that
  key is this table, whatever algorithm pandas uses.
  `Rank` is `relation_order`, which already gives `unknown` rank 9;
  `fillna(9)` only affects values outside that table, which the source
  never produces and the model cannot express.
- Field values of `string_list_data` elements are modelled as strings and
  integers only (`Scalar`): a float, boolean, array or object value (a float
  `timestamp`, for example, which would land in `follow_ts`) is outside the
  model.
- Representation gaps that real exports do not hit: the followers files are
  taken in code-point order of their names, which is how `sorted` orders
  POSIX paths at :89 (Windows paths compare case-insensitively); a
  `relationships_following` holding JSON null or a number, which makes the
  loop at :110 raise `TypeError`, cannot be expressed since the model's input
  is a sequence; and Python strings holding lone surrogates (which
  `json.load` accepts) cannot be expressed, since a Dafny `char` is a Unicode
  scalar value.
