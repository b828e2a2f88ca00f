/**
 * The owner's file list: the rows of the `files` table that belong to the
 * signed-in user, their share links, and the two-store delete.
 *
 * Two independent remote stores take part: the content store (the
 * `file_uploads` bucket, blobs keyed by their path) and the metadata table
 * (`files`, rows keyed by their `id`). Neither is joined to the other by a
 * transaction, so a delete is an ordered pair of requests whose outcomes are
 * inputs of the model.
 */
module FilesList {
  import opened Wrappers

  type Blob = seq<bv8>

  /** A row of the `files` table, as the list shows it. */
  datatype FileRow = FileRow(
    id: string,
    user_id: string,
    name: string,
    size: nat,
    created_at: int,
    download_count: nat,
    unique_id: string,
    file_path: string)

  /** A write request sent to one of the two remote stores. */
  datatype Request = RemoveBlob(path: string) | DeleteRow(id: string)

  /** How a delete ends: silently without a user, or with one of three toasts. */
  datatype DeleteOutcome = SignedOut | StorageDeleteFailed | RowDeleteFailed | Deleted

  /** The content store, the metadata table and the component's local list. */
  datatype Stores = Stores(blobs: map<string, Blob>, rows: map<string, FileRow>, files: seq<FileRow>)

  /** The stores after a delete, the requests it sent, in order, and its outcome. */
  datatype DeleteStep = DeleteStep(after: Stores, sent: seq<Request>, outcome: DeleteOutcome)

  /** The answer of the list query: rows (possibly null) or an error message. */
  datatype QueryResponse = QueryOk(data: Option<seq<FileRow>>) | QueryFailed(message: string)

  // ---------------------------------------------------------------------------
  // The local filter `files.filter(file => file.id !== id)`

  /** The list without the entries whose id is `id`. */
  function Without(files: seq<FileRow>, id: string): (r: seq<FileRow>)
    ensures |r| <= |files|
    ensures forall i :: 0 <= i < |r| ==> r[i].id != id && r[i] in files
    ensures forall f :: f in files && f.id != id ==> f in r
  {
    if files == [] then []
    else (if files[0].id == id then [] else [files[0]]) + Without(files[1..], id)
  }

  /** Filtering a concatenation filters each part. */
  lemma {:induction false} WithoutConcat(a: seq<FileRow>, b: seq<FileRow>, id: string)
    ensures Without(a + b, id) == Without(a, id) + Without(b, id)
  {
    if a == [] {
      assert a + b == b;
    } else {
      assert (a + b)[1..] == a[1..] + b;
      WithoutConcat(a[1..], b, id);
    }
  }

  /** A list with no entry for `id` is left as it is. */
  lemma {:induction false} WithoutNoMatch(files: seq<FileRow>, id: string)
    requires forall i :: 0 <= i < |files| ==> files[i].id != id
    ensures Without(files, id) == files
  {
    if files != [] {
      WithoutNoMatch(files[1..], id);
    }
  }

  /** Filtering twice by the same id is filtering once. */
  lemma WithoutIdempotent(files: seq<FileRow>, id: string)
    ensures Without(Without(files, id), id) == Without(files, id)
  {
    WithoutNoMatch(Without(files, id), id);
  }

  /** Entries that survive the filter keep their relative order. */
  lemma WithoutKeepsOrder(files: seq<FileRow>, id: string, i: int, j: int)
    requires 0 <= i < j < |files|
    requires files[i].id != id && files[j].id != id
    ensures var r := Without(files, id);
      exists p, q :: 0 <= p < q < |r| && r[p] == files[i] && r[q] == files[j]
  {
    var a, b, c := files[..i], files[i + 1..j], files[j + 1..];
    var x, y := files[i], files[j];
    assert files == a + [x] + b + [y] + c;
    assert Without([x], id) == [x] && Without([y], id) == [y];
    WithoutConcat(a + [x] + b + [y], c, id);
    WithoutConcat(a + [x] + b, [y], id);
    WithoutConcat(a + [x], b, id);
    WithoutConcat(a, [x], id);
    var r := Without(files, id);
    assert r == Without(a, id) + [x] + Without(b, id) + [y] + Without(c, id);
    var p := |Without(a, id)|;
    var q := p + 1 + |Without(b, id)|;
    assert r[p] == x && r[q] == y;
  }

  // ---------------------------------------------------------------------------
  // handleDelete as a transition of the two stores and the list

  /**
   * handleDelete(id, filePath): with no user nothing happens; when the path is
   * non-empty the blob is removed first and a failure there ends the delete;
   * only then is the row with that id deleted (by id alone, with no owner
   * check); only when both succeed is the local list filtered.
   */
  function Delete(s: Stores, signedIn: bool, id: string, filePath: string, storageOk: bool, rowOk: bool)
    : (r: DeleteStep)
    ensures r.outcome == Deleted <==> signedIn && (filePath == "" || storageOk) && rowOk
    ensures r.outcome == SignedOut <==> !signedIn
    ensures r.outcome == StorageDeleteFailed <==> signedIn && filePath != "" && !storageOk
    // without a user nothing is sent and nothing changes
    ensures !signedIn ==> r.after == s && r.sent == []
    // an empty path skips the storage step: only the row delete is sent
    ensures filePath == "" ==> r.after.blobs == s.blobs && (signedIn ==> r.sent == [DeleteRow(id)])
    // a failure leaves the metadata table and the local list as they were
    ensures r.outcome != Deleted ==> r.after.rows == s.rows && r.after.files == s.files
    ensures r.outcome == Deleted ==> r.after.rows == s.rows - {id} && r.after.files == Without(s.files, id)
    // the content store loses at most the blob at filePath, and only without a storage failure
    ensures r.after.blobs == s.blobs || r.after.blobs == s.blobs - {filePath}
    ensures r.after.blobs != s.blobs ==> filePath != "" && storageOk && |r.sent| > 0 && r.sent[0] == RemoveBlob(filePath)
    ensures r.outcome == StorageDeleteFailed ==> r.after == s && r.sent == [RemoveBlob(filePath)]
    // the row delete is sent only once the blob is gone, and it is the last request
    ensures forall k :: 0 <= k < |r.sent| && r.sent[k] == DeleteRow(id) ==>
      k == |r.sent| - 1 && (filePath != "" ==> k == 1 && r.sent[0] == RemoveBlob(filePath) && filePath !in r.after.blobs)
    // once the storage step is skipped or succeeds, the row delete is the last request sent
    ensures signedIn && (filePath == "" || storageOk) ==> |r.sent| > 0 && r.sent[|r.sent| - 1] == DeleteRow(id)
    ensures signedIn && filePath != "" && storageOk ==>
      r.sent == [RemoveBlob(filePath), DeleteRow(id)] && filePath !in r.after.blobs
    // never a deleted row whose blob is still stored
    ensures id in s.rows && id !in r.after.rows && filePath != "" ==> filePath !in r.after.blobs
  {
    if !signedIn then DeleteStep(s, [], SignedOut)
    else if filePath != "" && !storageOk then DeleteStep(s, [RemoveBlob(filePath)], StorageDeleteFailed)
    else
      var cleared := if filePath != "" then s.(blobs := s.blobs - {filePath}) else s;
      var sent := (if filePath != "" then [RemoveBlob(filePath)] else []) + [DeleteRow(id)];
      if !rowOk then DeleteStep(cleared, sent, RowDeleteFailed)
      else DeleteStep(cleared.(rows := s.rows - {id}, files := Without(s.files, id)), sent, Deleted)
  }

  /**
   * The delete is keyed by id alone: whose row it is makes no difference to
   * what is sent, what happens or how it ends.
   */
  lemma DeleteIgnoresOwner(s: Stores, other: string, signedIn: bool, id: string, filePath: string, storageOk: bool, rowOk: bool)
    requires id in s.rows
    ensures var s2 := s.(rows := s.rows[id := s.rows[id].(user_id := other)]);
      var r, r2 := Delete(s, signedIn, id, filePath, storageOk, rowOk), Delete(s2, signedIn, id, filePath, storageOk, rowOk);
      r2.outcome == r.outcome && r2.sent == r.sent && r2.after.blobs == r.after.blobs
      && r2.after.files == r.after.files && r2.after.rows - {id} == r.after.rows - {id}
  {
    var s2 := s.(rows := s.rows[id := s.rows[id].(user_id := other)]);
    assert s2.rows - {id} == s.rows - {id};
  }

  /** The `files` table is keyed by each row's own id. */
  ghost predicate Keyed(rows: map<string, FileRow>)
  {
    forall k :: k in rows ==> rows[k].id == k
  }

  /** No orphan blob: every stored blob is referenced by some row, and no blob sits at the empty path. */
  ghost predicate NoOrphanBlob(s: Stores)
  {
    && "" !in s.blobs
    && forall p :: p in s.blobs ==> exists k :: k in s.rows && s.rows[k].file_path == p
  }

  /**
   * A delete issued for a row with that row's own path never leaves an orphan
   * blob, whatever the two stores answer; the only inconsistency it can leave
   * is a row whose blob is gone.
   */
  lemma DeleteKeepsNoOrphanBlob(s: Stores, signedIn: bool, id: string, filePath: string, storageOk: bool, rowOk: bool)
    requires NoOrphanBlob(s)
    requires id in s.rows ==> s.rows[id].file_path == filePath
    ensures NoOrphanBlob(Delete(s, signedIn, id, filePath, storageOk, rowOk).after)
    ensures Keyed(s.rows) ==> Keyed(Delete(s, signedIn, id, filePath, storageOk, rowOk).after.rows)
  {
    var t := Delete(s, signedIn, id, filePath, storageOk, rowOk).after;
    forall p | p in t.blobs
      ensures exists k :: k in t.rows && t.rows[k].file_path == p
    {
      assert p in s.blobs;
      var k :| k in s.rows && s.rows[k].file_path == p;
      if k !in t.rows {
        assert false;
      }
    }
  }

  /**
   * The permitted inconsistency: when the blob removal succeeds and the row
   * delete fails, the blob is gone, the row remains and the list is unchanged.
   */
  lemma OrphanRowWindow(s: Stores, id: string, filePath: string)
    requires filePath != ""
    ensures var r := Delete(s, true, id, filePath, true, false);
      && r.outcome == RowDeleteFailed
      && filePath !in r.after.blobs
      && r.after.rows == s.rows && r.after.files == s.files
      && r.sent == [RemoveBlob(filePath), DeleteRow(id)]
  {
  }

  /** Retrying after an orphan row completes the delete, as one successful delete would have. */
  lemma RetryAfterOrphanRow(s: Stores, id: string, filePath: string)
    ensures var first := Delete(s, true, id, filePath, true, false);
      var retry := Delete(first.after, true, id, filePath, true, true);
      retry.outcome == Deleted && retry.after == Delete(s, true, id, filePath, true, true).after
  {
  }

  /** A second successful delete of the same file changes nothing more. */
  lemma DeleteTwice(s: Stores, id: string, filePath: string)
    ensures var once := Delete(s, true, id, filePath, true, true);
      Delete(once.after, true, id, filePath, true, true).after == once.after
  {
    WithoutIdempotent(s.files, id);
    var once := Delete(s, true, id, filePath, true, true);
    var twice := Delete(once.after, true, id, filePath, true, true);
    assert twice.after.blobs == once.after.blobs;
    assert twice.after.rows == once.after.rows;
  }

  // ---------------------------------------------------------------------------
  // The list query: rows with user_id = the user's id, newest created_at first

  /**
   * The contract of `select('*').eq('user_id', uid).order('created_at', { ascending: false })`:
   * each of the owner's rows exactly once, nothing else, newest first.
   * Rows with equal timestamps may come in any order.
   */
  ghost predicate OwnerListing(rows: map<string, FileRow>, uid: string, data: seq<FileRow>)
  {
    && (forall i, j :: 0 <= i < j < |data| ==> data[i] != data[j])
    && (forall i :: 0 <= i < |data| ==> data[i] in rows.Values && data[i].user_id == uid)
    && (forall k :: k in rows && rows[k].user_id == uid ==> rows[k] in data)
    && (forall i, j :: 0 <= i < j < |data| ==> data[i].created_at >= data[j].created_at)
  }

  /** The owner's rows, as a set. */
  ghost function OwnerRows(rows: map<string, FileRow>, uid: string): (s: set<FileRow>)
    ensures forall f :: f in s <==> f in rows.Values && f.user_id == uid
  {
    set k | k in rows && rows[k].user_id == uid :: rows[k]
  }

  /** A finite non-empty set of rows has a newest one. */
  lemma {:induction false} NewestExists(s: set<FileRow>)
    requires s != {}
    ensures exists f :: f in s && forall g :: g in s ==> g.created_at <= f.created_at
  {
    var x :| x in s;
    if s - {x} != {} {
      NewestExists(s - {x});
      var y :| y in s - {x} && forall g :: g in s - {x} ==> g.created_at <= y.created_at;
      if x.created_at <= y.created_at {
        assert forall g :: g in s ==> g.created_at <= y.created_at;
      } else {
        assert forall g :: g in s ==> g.created_at <= x.created_at;
      }
    } else {
      assert s == {x};
    }
  }

  /** A reference ordering: the rows of s, each once, newest first. */
  ghost function NewestFirst(s: set<FileRow>): (r: seq<FileRow>)
    ensures forall i :: 0 <= i < |r| ==> r[i] in s
    ensures forall f :: f in s ==> f in r
    ensures forall i, j :: 0 <= i < j < |r| ==> r[i] != r[j]
    ensures forall i, j :: 0 <= i < j < |r| ==> r[i].created_at >= r[j].created_at
    decreases s
  {
    if s == {} then []
    else
      NewestExists(s);
      var f :| f in s && forall g :: g in s ==> g.created_at <= f.created_at;
      var rest := NewestFirst(s - {f});
      assert forall i :: 0 <= i < |rest| ==> rest[i] in s - {f};
      [f] + rest
  }

  /** The query contract can be met: every table has an owner listing. */
  lemma OwnerListingExists(rows: map<string, FileRow>, uid: string)
    ensures OwnerListing(rows, uid, NewestFirst(OwnerRows(rows, uid)))
  {
    var d := NewestFirst(OwnerRows(rows, uid));
    forall k | k in rows && rows[k].user_id == uid
      ensures rows[k] in d
    {
      assert rows[k] in rows.Values;
    }
  }

  /** The message fetchFiles keeps on a failed query: the error's own, or a fallback. */
  function FetchErrorMessage(message: string): (m: string)
    ensures m != ""
    ensures message != "" ==> m == message
    ensures message == "" ==> m == "Failed to load files"
  {
    if message != "" then message else "Failed to load files"
  }

  // ---------------------------------------------------------------------------
  // Links: handleCopyLink and handleView

  /** The share link copied to the clipboard: the origin, then "/d/", then the unique_id. */
  function ShareLink(origin: string, uniqueId: string): (link: string)
    ensures |link| == |origin| + 3 + |uniqueId|
    ensures link[..|origin|] == origin && link[|origin|..|origin| + 3] == "/d/"
    ensures link[|origin| + 3..] == uniqueId
  {
    origin + ViewPath(uniqueId)
  }

  /** The path the view button opens: "/d/", then the unique_id. */
  function ViewPath(uniqueId: string): (path: string)
    ensures |path| == 3 + |uniqueId| && path[..3] == "/d/" && path[3..] == uniqueId
  {
    "/d/" + uniqueId
  }

  /**
   * The link of a list entry, built from its public unique_id: it parses back
   * to that unique_id, never to the internal id.
   */
  function RowShareLink(origin: string, row: FileRow): (link: string)
    ensures LinkPublicId(origin, link) == Some(row.unique_id)
    ensures link[..|origin|] == origin
  {
    ShareLinkRoundTrip(origin, row.unique_id);
    ShareLink(origin, row.unique_id)
  }

  /** Reading the public id back out of a share link of this origin. */
  function LinkPublicId(origin: string, link: string): (u: Option<string>)
    ensures u.Some? ==> link == ShareLink(origin, u.value)
  {
    var prefix := origin + "/d/";
    if |prefix| <= |link| && link[..|prefix|] == prefix then
      assert link == prefix + link[|prefix|..];
      Some(link[|prefix|..])
    else None
  }

  /** A share link gives back exactly the unique_id it was built from. */
  lemma ShareLinkRoundTrip(origin: string, uniqueId: string)
    ensures LinkPublicId(origin, ShareLink(origin, uniqueId)) == Some(uniqueId)
  {
    var link := ShareLink(origin, uniqueId);
    assert link == (origin + "/d/") + uniqueId;
    assert link[..|origin + "/d/"|] == origin + "/d/";
  }

  /**
   * A row's link depends on its unique_id and on nothing else: two rows have
   * the same link exactly when their unique_ids agree, whatever their internal ids.
   */
  lemma RowShareLinkUsesPublicId(origin: string, r1: FileRow, r2: FileRow)
    ensures RowShareLink(origin, r1) == origin + ViewPath(r1.unique_id)
    ensures RowShareLink(origin, r1) == RowShareLink(origin, r2) <==> r1.unique_id == r2.unique_id
  {
    ShareLinkRoundTrip(origin, r1.unique_id);
    ShareLinkRoundTrip(origin, r2.unique_id);
  }

  // ---------------------------------------------------------------------------
  // The component

  /** The FilesList component: the two remote stores it talks to and its own state. */
  class FilesPanel {
    var blobs: map<string, Blob>
    var rows: map<string, FileRow>
    var files: seq<FileRow>
    var loading: bool
    var error: Option<string>
    /** Every write request sent to the two stores so far, in order. */
    var sent: seq<Request>

    ghost function View(): Stores
      reads this
    {
      Stores(blobs, rows, files)
    }

    /** The `files` table the panel talks to is keyed by each row's id. */
    ghost predicate Valid()
      reads this
    {
      Keyed(rows)
    }

    /** A freshly mounted list over the given stores: empty, loading, no error. */
    constructor (blobs0: map<string, Blob>, rows0: map<string, FileRow>)
      requires Keyed(rows0)
      ensures Valid()
      ensures blobs == blobs0 && rows == rows0 && files == []
      ensures loading && error == None && sent == []
    {
      blobs, rows, files := blobs0, rows0, [];
      loading, error, sent := true, None, [];
    }

    /** `storage.from('file_uploads').remove([path])`; `ok` is the store's answer. */
    method RemoveFromStorage(path: string, ok: bool) returns (failed: bool)
      modifies this
      ensures failed == !ok
      ensures blobs == if ok then old(blobs) - {path} else old(blobs)
      ensures sent == old(sent) + [RemoveBlob(path)]
      ensures rows == old(rows) && files == old(files) && loading == old(loading) && error == old(error)
    {
      sent := sent + [RemoveBlob(path)];
      if ok {
        blobs := blobs - {path};
      }
      failed := !ok;
    }

    /** `from('files').delete().eq('id', id)`; `ok` is the table's answer. */
    method DeleteFromTable(id: string, ok: bool) returns (failed: bool)
      requires Valid()
      modifies this
      ensures Valid()
      ensures failed == !ok
      ensures rows == if ok then old(rows) - {id} else old(rows)
      ensures sent == old(sent) + [DeleteRow(id)]
      ensures blobs == old(blobs) && files == old(files) && loading == old(loading) && error == old(error)
    {
      sent := sent + [DeleteRow(id)];
      if ok {
        rows := rows - {id};
      }
      failed := !ok;
    }

    /**
     * handleDelete(id, filePath) for the signed-in `user`, the store answering
     * `storageOk` to the blob removal and `rowOk` to the row delete.
     */
    method HandleDelete(user: Option<string>, id: string, filePath: string, storageOk: bool, rowOk: bool)
      returns (outcome: DeleteOutcome)
      requires Valid()
      modifies this
      ensures Valid()
      ensures var r := Delete(old(View()), user.Some?, id, filePath, storageOk, rowOk);
        View() == r.after && sent == old(sent) + r.sent && outcome == r.outcome
      ensures loading == old(loading) && error == old(error)
    {
      if user.None? {
        return SignedOut;
      }
      if filePath != "" {
        var storageFailed := RemoveFromStorage(filePath, storageOk);
        if storageFailed {
          return StorageDeleteFailed;
        }
      }
      var rowFailed := DeleteFromTable(id, rowOk);
      if rowFailed {
        return RowDeleteFailed;
      }
      files := Without(files, id);
      outcome := Deleted;
    }

    /**
     * fetchFiles() for the signed-in `user`, the table answering `response`.
     * Without a user nothing happens (loading stays as it was). A successful
     * query replaces the list (null data becomes the empty list) and leaves
     * an earlier error in place; a failed one keeps the list and records the error.
     */
    method FetchFiles(user: Option<string>, response: QueryResponse)
      requires Valid()
      modifies this
      ensures Valid()
      ensures user.None? ==> files == old(files) && loading == old(loading) && error == old(error)
      ensures user.Some? ==> !loading
      ensures user.Some? && response.QueryOk? ==>
        files == (if response.data.Some? then response.data.value else []) && error == old(error)
      ensures user.Some? && response.QueryFailed? ==>
        files == old(files) && error == Some(FetchErrorMessage(response.message))
      ensures user.Some? && response.QueryOk? && response.data.Some? && OwnerListing(rows, user.value, response.data.value) ==>
        OwnerListing(rows, user.value, files)
      ensures blobs == old(blobs) && rows == old(rows) && sent == old(sent)
    {
      if user.None? {
        return;
      }
      loading := true;
      match response {
        case QueryOk(data) =>
          files := if data.Some? then data.value else [];
        case QueryFailed(message) =>
          error := Some(FetchErrorMessage(message));
      }
      loading := false;
    }
  }
}
