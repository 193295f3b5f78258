/**
  Record extraction from an export archive, after the archive has been
  unpacked and its JSON documents parsed. A followers document is a list of
  entries; the following document holds its entries under
  `relationships_following`. Each entry carries a `string_list_data` list
  whose element 0 holds the account handle under `value` and, optionally,
  the time of the relationship under `timestamp`.
*/
module Loader {
  import opened Wrappers
  import opened StringOrder

  /** A non-null JSON value held by a field of a `string_list_data` element. */
  datatype Scalar = Str(s: string) | Int(i: int)

  /** One element of an entry's `string_list_data`: an object with its
      fields (a field holding JSON null is treated as absent), or a value
      that is not an object. */
  datatype ListItem = Fields(fields: map<string, Scalar>) | NonObjectItem

  /** One entry of a document: an object with its `string_list_data` list
      (empty when the key is absent or does not hold a list), or a value
      that is not an object. */
  datatype Entry = Entry(stringListData: seq<ListItem>) | NonObjectEntry

  /** One row of `followers.csv` or `following.csv`. */
  datatype MembershipRow = MembershipRow(username: string, followTs: Option<Scalar>)

  /** `safe_get`: field `field` of element `idx` of the entry's
      `string_list_data`, or `None` when any step of the lookup fails. */
  function SafeGet(entry: Entry, idx: nat, field: string): (r: Option<Scalar>)
    ensures r.Some? <==>
              && entry.Entry?
              && idx < |entry.stringListData|
              && entry.stringListData[idx].Fields?
              && field in entry.stringListData[idx].fields
    ensures r.Some? ==> r.value == entry.stringListData[idx].fields[field]
  {
    if entry.NonObjectEntry? || idx >= |entry.stringListData| then None
    else
      match entry.stringListData[idx]
      case NonObjectItem => None
      case Fields(f) => if field in f then Some(f[field]) else None
  }

  /** The handle an entry contributes, when its `value` is truthy. */
  function Identifier(entry: Entry): (r: Option<string>)
    ensures r.Some? <==>
              && entry.Entry?
              && |entry.stringListData| > 0
              && entry.stringListData[0].Fields?
              && "value" in entry.stringListData[0].fields
              && entry.stringListData[0].fields["value"].Str?
              && entry.stringListData[0].fields["value"].s != ""
    ensures r.Some? ==> r.value == entry.stringListData[0].fields["value"].s
  {
    match SafeGet(entry, 0, "value")
    case Some(Str(u)) => if u != "" then Some(u) else None
    case _ => None
  }

  /** The row a kept entry adds; its timestamp may be missing. */
  function RowOf(entry: Entry, u: string): MembershipRow
  {
    MembershipRow(u, SafeGet(entry, 0, "timestamp"))
  }

  /** The rows the loader appends for `entries`, in entry order. */
  function KeptRows(entries: seq<Entry>): (r: seq<MembershipRow>)
    ensures |r| <= |entries|
    ensures forall k :: 0 <= k < |r| ==> r[k].username != ""
  {
    if entries == [] then []
    else
      var last := entries[|entries| - 1];
      KeptRows(entries[..|entries| - 1]) +
        match Identifier(last)
        case Some(u) => [RowOf(last, u)]
        case None => []
  }

  /** The handles recorded in a row list. */
  function Usernames(rows: seq<MembershipRow>): set<string>
  {
    set k | 0 <= k < |rows| :: rows[k].username
  }

  /** The rows of several documents read one after the other. */
  function FilesRows(names: seq<string>, files: map<string, seq<Entry>>): seq<MembershipRow>
    requires forall k :: 0 <= k < |names| ==> names[k] in files
  {
    if names == [] then []
    else FilesRows(names[..|names| - 1], files) + KeptRows(files[names[|names| - 1]])
  }

  /** The rows of a set of documents read in sorted name order. */
  ghost function SortedFilesRows(files: map<string, seq<Entry>>): seq<MembershipRow>
  {
    var names := SortedSeq(files.Keys);
    assert forall k :: 0 <= k < |names| ==> names[k] in files by {
      SortedSeqProperties(files.Keys);
      assert forall k :: 0 <= k < |names| ==> names[k] in Elems(names);
    }
    FilesRows(names, files)
  }

  /** Reading two runs of entries one after the other yields the rows of the
      first run followed by those of the second. */
  lemma {:induction false} KeptRowsAppend(a: seq<Entry>, b: seq<Entry>)
    ensures KeptRows(a + b) == KeptRows(a) + KeptRows(b)
    decreases |b|
  {
    if b != [] {
      var b' := b[..|b| - 1];
      assert (a + b)[..|a + b| - 1] == a + b';
      assert (a + b)[|a + b| - 1] == b[|b| - 1];
      KeptRowsAppend(a, b');
    } else {
      assert a + b == a;
    }
  }

  /** A row is kept exactly for an entry with a truthy handle, and it carries
      that entry's handle and timestamp. */
  lemma {:induction false} KeptRowsMembers(entries: seq<Entry>, row: MembershipRow)
    ensures row in KeptRows(entries) <==>
              exists e :: e in entries && Identifier(e) == Some(row.username) && row == RowOf(e, row.username)
  {
    if entries != [] {
      var init := entries[..|entries| - 1];
      var last := entries[|entries| - 1];
      KeptRowsMembers(init, row);
      assert entries == init + [last];
      if row in KeptRows(entries) && row !in KeptRows(init) {
        assert Identifier(last) == Some(row.username) && row == RowOf(last, row.username);
      }
      if exists e :: e in entries && Identifier(e) == Some(row.username) && row == RowOf(e, row.username) {
        var e :| e in entries && Identifier(e) == Some(row.username) && row == RowOf(e, row.username);
        if e !in init {
          assert e == last;
        }
      }
    }
  }

  /** A set of handles is never larger than the row list it was built from. */
  lemma {:induction false} UsernamesBound(rows: seq<MembershipRow>)
    ensures |Usernames(rows)| <= |rows|
  {
    if rows != [] {
      var init := rows[..|rows| - 1];
      UsernamesBound(init);
      assert Usernames(rows) == Usernames(init) + {rows[|rows| - 1].username} by {
        forall u | u in Usernames(rows)
          ensures u in Usernames(init) + {rows[|rows| - 1].username}
        {
          var k :| 0 <= k < |rows| && rows[k].username == u;
          if k < |init| {
            assert init[k] == rows[k];
          }
        }
        forall u | u in Usernames(init)
          ensures u in Usernames(rows)
        {
          var k :| 0 <= k < |init| && init[k].username == u;
          assert rows[k] == init[k];
        }
      }
    }
  }

  lemma UsernamesAppend(a: seq<MembershipRow>, b: seq<MembershipRow>)
    ensures Usernames(a + b) == Usernames(a) + Usernames(b)
  {
    forall u | u in Usernames(a + b)
      ensures u in Usernames(a) + Usernames(b)
    {
      var k :| 0 <= k < |a + b| && (a + b)[k].username == u;
      if k >= |a| {
        assert b[k - |a|] == (a + b)[k];
      }
    }
    forall u | u in Usernames(b)
      ensures u in Usernames(a + b)
    {
      var k :| 0 <= k < |b| && b[k].username == u;
      assert (a + b)[|a| + k] == b[k];
    }
    forall u | u in Usernames(a)
      ensures u in Usernames(a + b)
    {
      var k :| 0 <= k < |a| && a[k].username == u;
      assert (a + b)[k] == a[k];
    }
  }

  /** Runs the loop body of the loader over `entries`: every entry with a
      truthy handle is added to `users` and appended to `rows`. */
  method AddEntries(entries: seq<Entry>, users0: set<string>, rows0: seq<MembershipRow>)
    returns (users: set<string>, rows: seq<MembershipRow>)
    ensures rows == rows0 + KeptRows(entries)
    ensures users == users0 + Usernames(KeptRows(entries))
  {
    users, rows := users0, rows0;
    for i := 0 to |entries|
      invariant rows == rows0 + KeptRows(entries[..i])
      invariant users == users0 + Usernames(KeptRows(entries[..i]))
    {
      var entry := entries[i];
      var username := SafeGet(entry, 0, "value");
      var ts := SafeGet(entry, 0, "timestamp");
      assert entries[..i + 1][..i] == entries[..i];
      if username.Some? && username.value.Str? && username.value.s != "" {
        var u := username.value.s;
        assert Identifier(entry) == Some(u);
        assert KeptRows(entries[..i + 1]) == KeptRows(entries[..i]) + [MembershipRow(u, ts)];
        UsernamesAppend(KeptRows(entries[..i]), [MembershipRow(u, ts)]);
        assert Usernames([MembershipRow(u, ts)]) == {u} by {
          assert [MembershipRow(u, ts)][0].username == u;
        }
        users := users + {u};
        rows := rows + [MembershipRow(u, ts)];
      } else {
        assert Identifier(entry) == None;
        assert KeptRows(entries[..i + 1]) == KeptRows(entries[..i]);
      }
    }
    assert entries[..|entries|] == entries;
  }

  /** The followers half of `load_from_zip`: the documents, keyed by file
      name (all matching `followers_*.json` in one directory), are read in
      sorted name order. */
  method LoadFollowers(files: map<string, seq<Entry>>)
    returns (followers: set<string>, followersRows: seq<MembershipRow>)
    ensures followersRows == SortedFilesRows(files)
    ensures followers == Usernames(followersRows)
  {
    var names := SortedStrings(files.Keys);
    assert forall k :: 0 <= k < |names| ==> names[k] in files by {
      SortedSeqProperties(files.Keys);
      assert forall k :: 0 <= k < |names| ==> names[k] in Elems(names);
    }
    followers, followersRows := {}, [];
    for i := 0 to |names|
      invariant followersRows == FilesRows(names[..i], files)
      invariant followers == Usernames(followersRows)
    {
      var entries := files[names[i]];
      assert names[..i + 1][..i] == names[..i];
      assert FilesRows(names[..i + 1], files) == FilesRows(names[..i], files) + KeptRows(entries);
      UsernamesAppend(followersRows, KeptRows(entries));
      followers, followersRows := AddEntries(entries, followers, followersRows);
    }
    assert names[..|names|] == names;
  }

  /** The following half of `load_from_zip`, over the entries held under
      `relationships_following` (none when the key is absent). */
  method LoadFollowing(relationshipsFollowing: seq<Entry>)
    returns (following: set<string>, followingRows: seq<MembershipRow>)
    ensures followingRows == KeptRows(relationshipsFollowing)
    ensures following == Usernames(followingRows)
  {
    following, followingRows := AddEntries(relationshipsFollowing, {}, []);
  }
}
