/**
 * The `FileList` component: the category filter over the visible records, the
 * companion-PDF path of a derived text file, and the download and delete
 * handlers with the state they update (`files`, `loading`, `error`).
 *
 * The Supabase client is modelled by `Backend`, an object store (a set of
 * paths) and the `files` table (a map from id to record). How each call ends
 * is not decided by the model: it is a parameter of the handler.
 */
module FileList {
  import opened Wrappers
  import opened Text
  import opened Lists
  import opened FileData

  /** The category filter: "all", "txt" or "audio". */
  datatype Category = All | Txt | Audio

  /** Whether a record is shown under a category. */
  predicate Keeps(c: Category, f: FileRecord)
  {
    match c
    case All => true
    case Txt => f.fileType == "text/plain" || Contains(f.fileType, "pdf")
    case Audio => Contains(f.fileType, "audio")
  }

  /** `filteredFiles`: the records shown under category `c`, in list order. */
  function FilteredFiles(files: seq<FileRecord>, c: Category): (r: seq<FileRecord>)
    ensures SubsequenceOf(r, files)
    ensures c == All ==> r == files
    ensures c == Txt ==> forall f :: f in r <==> f in files && (f.fileType == "text/plain" || Contains(f.fileType, "pdf"))
    ensures c == Audio ==> forall f :: f in r <==> f in files && Contains(f.fileType, "audio")
    ensures forall f :: multiset(r)[f] == if Keeps(c, f) then multiset(files)[f] else 0
  {
    FilterMultiset(files, f => Keeps(c, f));
    Filter(files, f => Keeps(c, f))
  }

  /** The list once every entry with id `id` is dropped, the others kept in order. */
  function WithoutId(files: seq<FileRecord>, id: string): (r: seq<FileRecord>)
    ensures SubsequenceOf(r, files)
    ensures forall f :: f in r <==> f in files && f.id != id
    ensures forall f: FileRecord :: f.id != id ==> multiset(r)[f] == multiset(files)[f]
    ensures (forall i :: 0 <= i < |files| ==> files[i].id != id) ==> r == files
  {
    FilterMultiset(files, (f: FileRecord) => f.id != id);
    Filter(files, (f: FileRecord) => f.id != id)
  }

  /** A plain-text record stored under a "/text/" directory: text extracted from an uploaded PDF. */
  predicate IsDerivedText(f: FileRecord)
  {
    f.fileType == "text/plain" && Contains(f.filePath, "/text/")
  }

  /**
   * The path of the PDF a derived text file was extracted from: the first
   * "/text/" becomes "/pdfs/", then the first ".txt" becomes ".pdf".
   */
  function CompanionPath(path: string): (r: string)
    ensures |r| == |path|
    ensures !Contains(path, "/text/") && !Contains(path, ".txt") ==> r == path
  {
    ReplaceFirst(ReplaceFirst(path, "/text/", "/pdfs/"), ".txt", ".pdf")
  }

  /** No character of ".txt" occurs in "/pdfs/". */
  lemma ExtensionAvoidsPdfs()
    ensures Disjoint(".txt", "/pdfs/")
  {
  }

  /**
   * In a path under "/text/", the companion path has "/pdfs/" where the first
   * "/text/" was: the extension rewrite never reaches it.
   */
  lemma CompanionPathInPdfs(path: string)
    requires Contains(path, "/text/")
    ensures IndexOf(path, "/text/").Some?
    ensures OccursAt(CompanionPath(path), "/pdfs/", IndexOf(path, "/text/").value)
    ensures Contains(CompanionPath(path), "/pdfs/")
  {
    var i := IndexOf(path, "/text/").value;
    var t := ReplaceFirst(path, "/text/", "/pdfs/");
    ReplaceFirstAt(path, "/text/", "/pdfs/", i);
    ExtensionAvoidsPdfs();
    ReplaceKeepsDisjoint(t, ".txt", ".pdf", "/pdfs/", i);
    ContainsAt(CompanionPath(path), "/pdfs/", i);
  }

  /**
   * For a path `owner/text/name.txt...` whose owner segment has no "/" and
   * where ".txt" first occurs right after `name`, the companion swaps the
   * directory and that ".txt". Only the first ".txt" is rewritten: with
   * `rest` equal to ".txt", `owner/text/a.txt.txt` becomes
   * `owner/pdfs/a.pdf.txt`.
   */
  lemma CompanionPathOfTextPath(owner: string, name: string, rest: string)
    requires '/' !in owner && !Contains(owner + "/pdfs/" + name, ".txt")
    ensures CompanionPath(owner + "/text/" + name + ".txt" + rest) == owner + "/pdfs/" + name + ".pdf" + rest
  {
    var path := owner + "/text/" + name + ".txt" + rest;
    var tail := name + ".txt" + rest;
    var head := owner + "/pdfs/" + name;
    assert ReplaceFirst(path, "/text/", "/pdfs/") == head + ".txt" + rest by {
      assert path == owner + "/text/" + tail;
      ReplaceFirstAfter(owner, "/text/", "/pdfs/", tail);
      assert owner + "/pdfs/" + tail == head + ".txt" + rest;
    }
    assert ReplaceFirst(head + ".txt" + rest, ".txt", ".pdf") == head + ".pdf" + rest by {
      ExtensionStartsOnce();
      ReplaceFirstAfterFree(head, ".txt", ".pdf", rest);
    }
    assert head + ".pdf" + rest == owner + "/pdfs/" + name + ".pdf" + rest;
  }

  /** The "." that starts ".txt" does not recur in it. */
  lemma ExtensionStartsOnce()
    ensures forall k :: 0 < k < |".txt"| ==> ".txt"[k] != ".txt"[0]
  {
  }

  /** A name with a dot of its own keeps it: `u/text/a.b.txt` pairs with `u/pdfs/a.b.pdf`. */
  lemma CompanionPathDottedName()
    ensures CompanionPath("u/text/a.b.txt") == "u/pdfs/a.b.pdf"
  {
    NotContainsMissingChar("u" + "/pdfs/" + "a.b", ".txt", 1);
    CompanionPathOfTextPath("u", "a.b", "");
    DottedNameSpelling();
  }

  /** The two literal paths `CompanionPathDottedName` spells out. */
  lemma DottedNameSpelling()
    ensures "u" + "/text/" + "a.b" + ".txt" + "" == "u/text/a.b.txt"
    ensures "u" + "/pdfs/" + "a.b" + ".pdf" + "" == "u/pdfs/a.b.pdf"
  {
  }

  /**
   * How a store call ends: resolved without an error, resolved with an
   * `error`, or rejected (thrown). Something thrown carries its message when
   * it is an `Error` and none otherwise.
   */
  datatype Outcome = Ok | Failed | Threw(message: Option<string>)

  const STORAGE_DELETE_FAILED := "Failed to delete file from storage"
  const DATABASE_DELETE_FAILED := "Failed to delete file record from database"
  const DELETE_FAILED := "Failed to delete file"

  /** The message the delete handler's catch block shows for a thrown value. */
  function CaughtMessage(message: Option<string>): string
  {
    match message
    case Some(m) => m
    case None => DELETE_FAILED
  }

  /** The store requests a component can make. */
  datatype Request = StorageRemove(paths: seq<string>) | RecordDelete(id: string) | StorageDownload(path: string)

  /**
   * The requests a confirmed delete of `file` makes, in order, given how the
   * storage removal and the companion removal end.
   */
  function DeleteRequests(file: FileRecord, storage: Outcome, companion: Outcome): (r: seq<Request>)
    ensures 1 <= |r| <= 3 && r[0] == StorageRemove([file.filePath])
    ensures |r| == if !storage.Ok? then 1 else if IsDerivedText(file) && !companion.Threw? then 3 else 2
    ensures (storage.Ok? && IsDerivedText(file)) <==> |r| >= 2 && r[1] == StorageRemove([CompanionPath(file.filePath)])
    ensures r[|r| - 1] == RecordDelete(file.id) <==> storage.Ok? && !(IsDerivedText(file) && companion.Threw?)
    ensures forall k :: 0 <= k < |r| - 1 ==> r[k].StorageRemove?
  {
    if !storage.Ok? then [StorageRemove([file.filePath])]
    else
      var companionStep := if IsDerivedText(file) then [StorageRemove([CompanionPath(file.filePath)])] else [];
      if IsDerivedText(file) && companion.Threw? then [StorageRemove([file.filePath])] + companionStep
      else [StorageRemove([file.filePath])] + companionStep + [RecordDelete(file.id)]
  }

  /**
   * The `error` a confirmed delete leaves: `None` on full success, otherwise
   * the message of the step that stopped it.
   */
  function DeleteReport(file: FileRecord, storage: Outcome, companion: Outcome, db: Outcome): (r: Option<string>)
    ensures r.None? <==> storage.Ok? && db.Ok? && !(IsDerivedText(file) && companion.Threw?)
    ensures storage.Failed? ==> r == Some(STORAGE_DELETE_FAILED)
    ensures storage.Ok? && !(IsDerivedText(file) && companion.Threw?) && db.Failed? ==> r == Some(DATABASE_DELETE_FAILED)
    ensures storage.Threw? ==> r == Some(CaughtMessage(storage.message))
    ensures storage.Ok? && IsDerivedText(file) && companion.Threw? ==> r == Some(CaughtMessage(companion.message))
    ensures storage.Ok? && !(IsDerivedText(file) && companion.Threw?) && db.Threw? ==> r == Some(CaughtMessage(db.message))
  {
    match storage
    case Failed => Some(STORAGE_DELETE_FAILED)
    case Threw(m) => Some(CaughtMessage(m))
    case Ok =>
      if IsDerivedText(file) && companion.Threw? then Some(CaughtMessage(companion.message))
      else
        match db
        case Ok => None
        case Failed => Some(DATABASE_DELETE_FAILED)
        case Threw(m) => Some(CaughtMessage(m))
  }

  /**
   * A companion removal that resolves with an error is only a warning: the
   * delete makes the same requests and reports the same as if it had succeeded.
   */
  lemma CompanionErrorOnlyWarns(file: FileRecord, storage: Outcome, db: Outcome)
    ensures DeleteRequests(file, storage, Failed) == DeleteRequests(file, storage, Ok)
    ensures DeleteReport(file, storage, Failed, db) == DeleteReport(file, storage, Ok, db)
  {
  }

  /** `requests` each paired with the id shown as busy while it was in flight. */
  ghost function WhileBusy(requests: seq<Request>, id: string): (r: seq<(Request, Option<string>)>)
    ensures |r| == |requests|
    ensures forall k :: 0 <= k < |r| ==> r[k] == (requests[k], Some(id))
  {
    seq(|requests|, k requires 0 <= k < |requests| => (requests[k], Some(id)))
  }

  /** Logging one more request adds that request, marked busy, to the log. */
  lemma WhileBusyAppend(requests: seq<Request>, x: Request, id: string)
    ensures WhileBusy(requests + [x], id) == WhileBusy(requests, id) + [(x, Some(id))]
  {
    var a, b := WhileBusy(requests + [x], id), WhileBusy(requests, id) + [(x, Some(id))];
    assert |a| == |b|;
    forall k | 0 <= k < |a|
      ensures a[k] == b[k]
    {
      if k < |requests| {
        assert (requests + [x])[k] == requests[k];
      }
    }
  }

  /** The Supabase client: the "files" storage bucket and the "files" table. */
  class Backend {
    var objects: set<string>
    var rows: map<string, FileRecord>

    constructor (objects: set<string>, rows: map<string, FileRecord>)
      ensures this.objects == objects && this.rows == rows
    {
      this.objects := objects;
      this.rows := rows;
    }

    /** Removal of `paths` from the "files" bucket, ending as `outcome`. */
    method Remove(paths: seq<string>, outcome: Outcome) returns (response: Outcome)
      modifies this
      ensures response == outcome
      ensures objects == if outcome.Ok? then old(objects) - (set p | p in paths) else old(objects)
      ensures rows == old(rows)
    {
      if outcome.Ok? {
        objects := objects - (set p | p in paths);
      }
      response := outcome;
    }

    /** Deletion of the rows with id `id` from the "files" table, ending as `outcome`. */
    method Delete(id: string, outcome: Outcome) returns (response: Outcome)
      modifies this
      ensures response == outcome
      ensures rows == if outcome.Ok? then old(rows) - {id} else old(rows)
      ensures objects == old(objects)
    {
      if outcome.Ok? {
        rows := rows - {id};
      }
      response := outcome;
    }
  }

  /** The state of one `FileList` component. */
  class FileListView {
    var files: seq<FileRecord>
    /** The id of the record whose download or delete is in progress. */
    var loading: Option<string>
    var error: Option<string>
    var category: Category
    const backend: Backend
    /** Every store request this view has made, with the value of `loading` while it was in flight. */
    ghost var requests: seq<(Request, Option<string>)>

    constructor (initialFiles: seq<FileRecord>, backend: Backend)
      ensures files == initialFiles && loading == None && error == None && category == All
      ensures this.backend == backend && requests == []
    {
      files := initialFiles;
      loading := None;
      error := None;
      category := All;
      this.backend := backend;
      requests := [];
    }

    /** Choosing a category with one of the filter buttons. */
    method SetCategory(c: Category)
      modifies this
      ensures category == c
      ensures files == old(files) && loading == old(loading) && error == old(error) && requests == old(requests)
    {
      category := c;
    }

    /**
     * `handleDownload`: fetch the object and hand it to the browser. Whatever
     * the outcome, only `loading` moves, and it ends cleared.
     */
    method HandleDownload(file: FileRecord, outcome: Outcome)
      modifies this
      ensures files == old(files) && error == old(error) && category == old(category)
      ensures loading == None
      ensures requests == old(requests) + [(StorageDownload(file.filePath), Some(file.id))]
    {
      loading := Some(file.id);
      requests := requests + [(StorageDownload(file.filePath), loading)];
      // The blob is handed to the browser on success; a failure is only logged.
      loading := None;
    }

    /**
     * `handleDelete`: after confirmation, remove the object, then the
     * companion PDF of a derived text file, then the table row, and only then
     * the record from the list.
     */
    method HandleDelete(file: FileRecord, confirmed: bool, storage: Outcome, companion: Outcome, db: Outcome)
      modifies this, backend
      ensures category == old(category)
      ensures !confirmed ==> files == old(files) && loading == old(loading) && error == old(error)
      ensures !confirmed ==> requests == old(requests)
      ensures !confirmed ==> backend.objects == old(backend.objects) && backend.rows == old(backend.rows)
      ensures confirmed ==> loading == None
      ensures confirmed ==> error == DeleteReport(file, storage, companion, db)
      ensures confirmed ==> requests == old(requests) + WhileBusy(DeleteRequests(file, storage, companion), file.id)
      ensures confirmed ==> files == if DeleteReport(file, storage, companion, db).None? then WithoutId(old(files), file.id) else old(files)
      ensures confirmed ==> backend.rows == if DeleteReport(file, storage, companion, db).None? then old(backend.rows) - {file.id} else old(backend.rows)
      ensures confirmed ==> backend.objects == old(backend.objects)
                                               - (if storage.Ok? then {file.filePath} else {})
                                               - (if storage.Ok? && IsDerivedText(file) && companion.Ok? then {CompanionPath(file.filePath)} else {})
      // The fail-safe order: a record leaves the list or the table only once its object is gone.
      ensures files != old(files) ==> file.filePath !in backend.objects
      ensures file.id in old(backend.rows) && file.id !in backend.rows ==> file.filePath !in backend.objects
    {
      if !confirmed {
        return;
      }
      loading := Some(file.id);
      error := None;
      var thrown := DeleteSteps(file, storage, companion, db);
      if thrown.None? {
        assert storage.Ok? && file.filePath !in backend.objects;
        files := WithoutId(files, file.id);
      } else {
        // the catch block
        error := thrown;
      }
      // the finally block
      loading := None;
    }

    /**
     * The `try` block of `handleDelete`, while `loading` shows `file.id`: the
     * store calls in order. The result is the message of what it throws, or
     * `None` when every step succeeded.
     */
    method DeleteSteps(file: FileRecord, storage: Outcome, companion: Outcome, db: Outcome) returns (thrown: Option<string>)
      requires loading == Some(file.id)
      modifies backend, this`requests
      ensures thrown == DeleteReport(file, storage, companion, db)
      ensures requests == old(requests) + WhileBusy(DeleteRequests(file, storage, companion), file.id)
      ensures backend.rows == if thrown.None? then old(backend.rows) - {file.id} else old(backend.rows)
      ensures backend.objects == old(backend.objects)
                                 - (if storage.Ok? then {file.filePath} else {})
                                 - (if storage.Ok? && IsDerivedText(file) && companion.Ok? then {CompanionPath(file.filePath)} else {})
    {
      // `sent` holds the requests made so far.
      ghost var sent: seq<Request> := [StorageRemove([file.filePath])];
      WhileBusyAppend([], StorageRemove([file.filePath]), file.id);
      var removed := RemoveObject(file.filePath, storage);
      assert requests == old(requests) + WhileBusy(sent, file.id);
      if !removed.Ok? {
        thrown := Some(if removed.Failed? then STORAGE_DELETE_FAILED else CaughtMessage(removed.message));
        assert sent == DeleteRequests(file, storage, companion);
        assert thrown == DeleteReport(file, storage, companion, db);
        return;
      }
      assert backend.objects == old(backend.objects) - {file.filePath};

      if IsDerivedText(file) {
        var originalPdfPath := CompanionPath(file.filePath);
        WhileBusyAppend(sent, StorageRemove([originalPdfPath]), file.id);
        sent := sent + [StorageRemove([originalPdfPath])];
        var pdfRemoved := RemoveObject(originalPdfPath, companion);
        assert requests == old(requests) + WhileBusy(sent, file.id);
        // A resolved error is only a warning; a rejection ends the delete here.
        if pdfRemoved.Threw? {
          thrown := Some(CaughtMessage(pdfRemoved.message));
          assert sent == DeleteRequests(file, storage, companion);
          assert thrown == DeleteReport(file, storage, companion, db);
          return;
        }
      }

      WhileBusyAppend(sent, RecordDelete(file.id), file.id);
      sent := sent + [RecordDelete(file.id)];
      var deleted := DeleteRecord(file.id, db);
      assert requests == old(requests) + WhileBusy(sent, file.id);
      assert sent == DeleteRequests(file, storage, companion);
      thrown := if deleted.Ok? then None
                else Some(if deleted.Failed? then DATABASE_DELETE_FAILED else CaughtMessage(deleted.message));
      assert thrown == DeleteReport(file, storage, companion, db);
    }

    /** Removal of the single object `path`, logged with the current `loading`. */
    method RemoveObject(path: string, outcome: Outcome) returns (response: Outcome)
      modifies backend, this`requests
      ensures response == outcome
      ensures requests == old(requests) + [(StorageRemove([path]), loading)]
      ensures backend.objects == if outcome.Ok? then old(backend.objects) - {path} else old(backend.objects)
      ensures backend.rows == old(backend.rows)
    {
      response := backend.Remove([path], outcome);
      requests := requests + [(StorageRemove([path]), loading)];
      assert (set p | p in [path]) == {path};
    }

    /** Deletion of the row `id`, logged with the current `loading`. */
    method DeleteRecord(id: string, outcome: Outcome) returns (response: Outcome)
      modifies backend, this`requests
      ensures response == outcome
      ensures requests == old(requests) + [(RecordDelete(id), loading)]
      ensures backend.rows == if outcome.Ok? then old(backend.rows) - {id} else old(backend.rows)
      ensures backend.objects == old(backend.objects)
    {
      response := backend.Delete(id, outcome);
      requests := requests + [(RecordDelete(id), loading)];
    }
  }
}
