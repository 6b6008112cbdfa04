/** The file controller: listing by directory, upload, rename of the display
    name, deletion and download. The clock is the parameter `now` (seconds);
    the blob store is the set of keys on the public disk plus the log of
    storage calls. No action checks directory access. */
module Files {
  import opened Common
  import opened Entities
  import opened Text
  import opened DirectoryModel
  import opened Store

  /** Upper bound of the upload rule, in bytes (102400 kilobytes). */
  const MaxUploadBytes: nat := 102400 * 1024

  /** The stored name: the decimal timestamp, an underscore, the client's name. */
  function StoredName(now: nat, clientName: string): string {
    NatToString(now) + "_" + clientName
  }

  /** The key on the public disk. */
  function StoredPath(now: nat, clientName: string): string {
    "uploads/" + StoredName(now, clientName)
  }

  lemma UnderscoreAt(s: string, n: string)
    ensures |s + "_" + n| > |s| && (s + "_" + n)[|s|] == '_'
  {
  }

  /** Two decimal renderings each followed by an underscore line up: the
      underscore is the first non-digit. */
  lemma DigitsBeforeUnderscore(s1: string, n1: string, s2: string, n2: string)
    requires AllDigits(s1) && AllDigits(s2)
    requires s1 + "_" + n1 == s2 + "_" + n2
    ensures s1 == s2 && n1 == n2
  {
    var x := s1 + "_" + n1;
    if |s1| < |s2| {
      UnderscoreAt(s1, n1);
      assert false;
    } else if |s2| < |s1| {
      UnderscoreAt(s2, n2);
      assert false;
    }
    assert s1 == x[..|s1|];
    assert n1 == x[|s1| + 1..];
  }

  /** Stored names collide exactly when both the second and the client name
      agree: two uploads of one name within the same second share a blob. */
  lemma StoredNameInjective(t1: nat, n1: string, t2: nat, n2: string)
    ensures StoredName(t1, n1) == StoredName(t2, n2) <==> t1 == t2 && n1 == n2
  {
    if StoredName(t1, n1) == StoredName(t2, n2) {
      DigitsBeforeUnderscore(NatToString(t1), n1, NatToString(t2), n2);
      NatToStringInjective(t1, t2);
    }
  }

  /** The same path for two different client names is impossible; the same
      name in the same second gives the same path. */
  lemma StoredPathCollision(now: nat, a: string, b: string)
    ensures StoredPath(now, a) == StoredPath(now, b) <==> a == b
  {
    StoredNameInjective(now, a, now, b);
    if StoredPath(now, a) == StoredPath(now, b) {
      assert StoredName(now, a) == StoredPath(now, a)[8..];
    }
  }

  /** index: the files whose directory_id equals the query; an absent query
      matches nothing, the column being non-null. */
  function Index(files: map<nat, StoredFile>, directoryId: Option<nat>): (r: set<nat>)
    ensures directoryId.None? ==> r == {}
    ensures directoryId.Some? ==> r == FilesIn(files, directoryId.value)
  {
    set f | f in files && Some(files[f].directoryId) == directoryId
  }

  /** An uploaded file as the request presents it. */
  datatype Upload = Upload(clientName: string, mimeType: string, size: nat)

  /** store: the directory must exist and the file be at most 102400 KB
      (422); the blob is written first, then the row, which keeps the client
      name as original_name and the stored name as name. */
  method StoreFile(db: Db, actor: nat, now: nat, upload: Upload, directoryId: nat) returns (code: nat, id: Option<nat>)
    requires db.Valid() && actor in db.users
    modifies db`files, db`nextFile, db`blobs, db`storageLog
    ensures db.Valid()
    ensures code == 201 || code == 422
    ensures code == 422 <==> directoryId !in db.directories || upload.size > MaxUploadBytes
    ensures code == 422 ==> id == None && unchanged(db)
    ensures code == 201 ==>
              var path := StoredPath(now, upload.clientName);
              && id == Some(old(db.nextFile)) && id.value !in old(db.files)
              && db.nextFile == old(db.nextFile) + 1
              && db.files == old(db.files)[id.value := StoredFile(StoredName(now, upload.clientName), upload.clientName,
                                                                  directoryId, actor, path, upload.mimeType, upload.size)]
              && db.blobs == old(db.blobs) + {path}
              && db.storageLog == old(db.storageLog) + [PutBlob(path), InsertFileRow(id.value)]
  {
    if directoryId !in db.directories || upload.size > MaxUploadBytes {
      return 422, None;
    }
    var f := SaveUpload(db, actor, now, upload, directoryId);
    return 201, Some(f);
  }

  /** store's writes once the request passed: the blob, then the row. */
  method SaveUpload(db: Db, actor: nat, now: nat, upload: Upload, directoryId: nat) returns (f: nat)
    requires db.Valid() && directoryId in db.directories
    modifies db`files, db`nextFile, db`blobs, db`storageLog
    ensures db.Valid()
    ensures var path := StoredPath(now, upload.clientName);
            && f == old(db.nextFile) && f !in old(db.files)
            && db.nextFile == old(db.nextFile) + 1
            && db.files == old(db.files)[f := StoredFile(StoredName(now, upload.clientName), upload.clientName,
                                                         directoryId, actor, path, upload.mimeType, upload.size)]
            && db.blobs == old(db.blobs) + {path}
            && db.storageLog == old(db.storageLog) + [PutBlob(path), InsertFileRow(f)]
  {
    var name := StoredName(now, upload.clientName);
    var path := "uploads/" + name;
    PutBlobAt(db, path);
    f := InsertFile(db, StoredFile(name, upload.clientName, directoryId, actor, path, upload.mimeType, upload.size));
    LogCall(db, InsertFileRow(f));
  }

  /** update: only original_name changes; the stored name and path stay. */
  method UpdateFile(db: Db, f: nat, name: string) returns (code: nat)
    requires db.Valid()
    modifies db`files
    ensures db.Valid()
    ensures code == 200 || code == 404 || code == 422
    ensures code == 404 <==> f !in old(db.files)
    ensures code == 422 <==> f in old(db.files) && !RequiredString(name)
    ensures code != 200 ==> unchanged(db)
    ensures code == 200 ==> db.files == old(db.files)[f := old(db.files)[f].(originalName := name)]
    ensures code == 200 ==> db.files[f].name == old(db.files)[f].name && db.files[f].filePath == old(db.files)[f].filePath
  {
    if f !in db.files {
      return 404;
    }
    if !RequiredString(name) {
      return 422;
    }
    SetFileRow(db, f, db.files[f].(originalName := name));
    code := 200;
  }

  /** destroy: the blob at file_path is deleted before the row is. */
  method DestroyFile(db: Db, f: nat) returns (code: nat)
    requires db.Valid()
    modifies db`files, db`blobs, db`storageLog
    ensures db.Valid()
    ensures code == 200 || code == 404
    ensures code == 404 <==> f !in old(db.files)
    ensures code == 404 ==> unchanged(db)
    ensures code == 200 ==>
              var path := old(db.files)[f].filePath;
              && db.files == old(db.files) - {f}
              && db.blobs == old(db.blobs) - {path}
              && db.storageLog == old(db.storageLog) + [DeleteBlob(path), DeleteFileRow(f)]
  {
    if f !in db.files {
      return 404;
    }
    var path := db.files[f].filePath;
    DeleteBlobAt(db, path);
    RemoveFileRow(db, f);
    LogCall(db, DeleteFileRow(f));
    code := 200;
  }

  /** download: the blob at file_path, offered under the current
      original_name; a missing row is 404. */
  function Download(files: map<nat, StoredFile>, f: nat): (r: Option<(string, string)>)
    ensures r.Some? <==> f in files
    ensures r.Some? ==> r.value.0 == files[f].filePath && r.value.1 == files[f].originalName
  {
    if f in files then Some((files[f].filePath, files[f].originalName)) else None
  }

  /** Renaming a file changes the name a download offers and nothing else
      about it. */
  lemma RenameChangesDownloadName(files: map<nat, StoredFile>, f: nat, name: string)
    requires f in files
    ensures var renamed := files[f := files[f].(originalName := name)];
            Download(renamed, f) == Some((files[f].filePath, name))
            && Download(renamed, f).value.0 == Download(files, f).value.0
  {
  }
}
