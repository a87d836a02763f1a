/**
 * The file endpoints (backend/routes/files_routes.py): uploading an encrypted
 * blob with its catalog entry, the download check, direct grants to one
 * recipient, the per-user listings and the per-user history log.
 *
 * The blob store is the `Disk` map from relative storage path to bytes; the
 * uuid the handlers draw and the SHA-256 digest are parameters.
 */
module FileRoutes {
  import opened Wrappers
  import opened Http
  import opened Text
  import opened Query
  import opened Models
  import opened Store

  // ---------------------------------------------------------------- upload_file

  /** The `file` part of an upload: the client's file name ("" when it sent none) and the encrypted bytes. */
  datatype Upload = Upload(filename: string, bytes: Bytes)

  /** The multipart form of an upload; `None` marks a field the client left out. */
  datatype UploadForm = UploadForm(
    file: Option<Upload>,
    fileName: Option<string>,
    originalSize: Option<int>,
    iv: Option<string>,
    sha256Hash: Option<string>,
    contentType: Option<string>)

  /** `os.path.join(uuid[:2], uuid + '.enc')`: blobs are spread over two-character directories. */
  function StoragePath(fileUuid: string): string
  {
    Take(fileUuid, 2) + "/" + fileUuid + ".enc"
  }

  /** Two uuids of at least two characters never share a storage path, so no upload overwrites another's blob. */
  lemma StoragePathInjective(u: string, v: string)
    requires |u| >= 2 && |v| >= 2 && StoragePath(u) == StoragePath(v)
    ensures u == v
  {
    var p := StoragePath(u);
    assert |p| == |u| + 7 && |StoragePath(v)| == |v| + 7;
    assert p[3..|p| - 4] == u;
    assert StoragePath(v)[3..|p| - 4] == v;
  }

  /** The hash the catalog records: the client's when it sent a non-empty one, else the digest of the stored bytes. */
  function RecordedHash(supplied: Option<string>, stored: Bytes, digest: Bytes -> string): string
  {
    if supplied.Some? && supplied.value != "" then supplied.value else digest(stored)
  }

  /** The catalog row `upload_file` inserts for an upload with id `id`. */
  function UploadedRow(id: int, caller: int, form: UploadForm, up: Upload, fileUuid: string,
                       digest: Bytes -> string): (f: FileMetadata)
    ensures f.id == id && f.ownerId == caller
    ensures f.encryptedSize == |up.bytes|
    ensures f.storagePath == StoragePath(fileUuid)
    ensures form.sha256Hash.Some? && form.sha256Hash.value != "" ==> f.sha256Hash == form.sha256Hash.value
    ensures form.sha256Hash.None? || form.sha256Hash.value == "" ==> f.sha256Hash == digest(up.bytes)
    ensures form.fileName.Some? ==> f.fileName == form.fileName.value
    ensures form.fileName.None? && up.filename != "" ==> f.fileName == up.filename
    ensures form.fileName.None? && up.filename == "" ==> f.fileName == "unnamed"
    ensures form.originalSize.Some? ==> f.originalSize == form.originalSize.value
    ensures form.originalSize.None? ==> f.originalSize == 0
    ensures form.iv.Some? ==> f.iv == form.iv.value
    ensures form.iv.None? ==> f.iv == ""
    ensures form.contentType.Some? ==> f.contentType == form.contentType.value
    ensures form.contentType.None? ==> f.contentType == "application/octet-stream"
  {
    FileMetadata(
      id, caller,
      form.fileName.GetOr(if up.filename == "" then "unnamed" else up.filename),
      form.originalSize.GetOr(0),
      |up.bytes|,
      StoragePath(fileUuid),
      form.contentType.GetOr(DefaultContentType),
      RecordedHash(form.sha256Hash, up.bytes, digest),
      form.iv.GetOr(""))
  }

  /** The 'encrypt' history line an upload adds; its type is the content type. */
  function UploadHistory(id: int, f: FileMetadata): FileHistory
  {
    FileHistory(id, f.ownerId, f.fileName, f.originalSize, f.encryptedSize, f.contentType, "encrypt")
  }

  /**
   * `upload_file`: without a file part, 400 and nothing changes; otherwise the
   * bytes land at the uuid's path and one catalog row and one 'encrypt'
   * history line are appended.
   */
  method UploadFile(db: Ledger, disk: Disk, caller: int, form: UploadForm, fileUuid: string, digest: Bytes -> string)
    returns (status: Status, meta: Option<FileDict>)
    modifies db`files, db`nextFileId, db`history, db`nextHistoryId, disk`blobs
    ensures form.file.None? ==>
      && status == BadRequest && meta == None
      && db.files == old(db.files) && db.nextFileId == old(db.nextFileId)
      && db.history == old(db.history) && db.nextHistoryId == old(db.nextHistoryId)
      && disk.blobs == old(disk.blobs)
    ensures form.file.Some? ==>
      var f := UploadedRow(old(db.nextFileId), caller, form, form.file.value, fileUuid, digest);
      && status == Created && meta == Some(FileToDict(f))
      && disk.blobs == old(disk.blobs)[f.storagePath := form.file.value.bytes]
      && f.encryptedSize == |disk.blobs[f.storagePath]|
      && db.files == old(db.files) + [f] && db.nextFileId == old(db.nextFileId) + 1
      && db.history == old(db.history) + [UploadHistory(old(db.nextHistoryId), f)]
      && db.nextHistoryId == old(db.nextHistoryId) + 1
  {
    if form.file.None? {
      return BadRequest, None;
    }
    var up := form.file.value;
    var path := StoragePath(fileUuid);
    disk.blobs := disk.blobs[path := up.bytes];
    var f := UploadedRow(db.nextFileId, caller, form, up, fileUuid, digest);
    db.files := db.files + [f];
    db.nextFileId := db.nextFileId + 1;
    db.history := db.history + [UploadHistory(db.nextHistoryId, f)];
    db.nextHistoryId := db.nextHistoryId + 1;
    status, meta := Created, Some(FileToDict(f));
  }

  /** An upload keeps the catalog and history autoincrement tables, and every grant still points at its owner's file. */
  lemma UploadKeepsInvariants(files: seq<FileMetadata>, nf: int, history: seq<FileHistory>, nh: int,
                              shares: seq<SharedAccess>, access: seq<GroupFileAccess>, f: FileMetadata)
    requires Keyed(files, FileKey, nf) && Keyed(history, HistoryKey, nh)
    requires SendersOwnFiles(files, shares) && SharersOwnFiles(files, access)
    requires f.id == nf
    ensures Keyed(files + [f], FileKey, nf + 1)
    ensures Keyed(history + [UploadHistory(nh, f)], HistoryKey, nh + 1)
    ensures SendersOwnFiles(files + [f], shares) && SharersOwnFiles(files + [f], access)
  {
    AppendKeyed(files, f, FileKey, nf);
    AppendKeyed(history, UploadHistory(nh, f), HistoryKey, nh);
    forall s | s in shares ensures OwnsFile(files + [f], s.fileId, s.senderId) {
      var g :| g in files && g.id == s.fileId && g.ownerId == s.senderId;
      assert g in files + [f];
    }
    forall a | a in access ensures OwnsFile(files + [f], a.fileId, a.sharedBy) {
      var g :| g in files && g.id == a.fileId && g.ownerId == a.sharedBy;
      assert g in files + [f];
    }
  }

  // ---------------------------------------------------------------- download_file

  /** What a successful download sends: the stored bytes under the catalog name plus ".enc". */
  datatype Download = Download(bytes: Bytes, downloadName: string)

  /** Some direct grant of file `fid` names `uid` as recipient. */
  ghost predicate IsRecipient(shares: seq<SharedAccess>, fid: int, uid: int)
  {
    exists s :: s in shares && s.fileId == fid && s.recipientId == uid
  }

  /** `SharedAccess.query.filter_by(file_id=..., recipient_id=...).first()` found a row. */
  function HasShareFor(shares: seq<SharedAccess>, fid: int, uid: int): (r: bool)
    ensures r <==> IsRecipient(shares, fid, uid)
  {
    var k := FirstIndex(shares, (s: SharedAccess) => s.fileId == fid && s.recipientId == uid);
    if k.Some? then
      assert shares[k.value] in shares;
      true
    else
      false
  }

  /**
   * `download_file`: 404 for an unknown file, 403 unless the caller owns it or
   * receives a direct grant of it (a group grant does not count), 404 when its
   * blob is missing from storage, else the blob.
   */
  function DownloadFile(files: seq<FileMetadata>, shares: seq<SharedAccess>, blobs: map<string, Bytes>,
                        caller: int, fileId: int): (r: (Status, Option<Download>))
    ensures r.0 == Ok || r.0 == Forbidden || r.0 == NotFound
    ensures r.0 == Ok <==> r.1.Some?
    ensures FileById(files, fileId).None? ==> r.0 == NotFound
    ensures FileById(files, fileId).Some? ==>
      var f := files[FileById(files, fileId).value];
      && (r.0 == Forbidden <==> f.ownerId != caller && !IsRecipient(shares, fileId, caller))
      && (r.0 == Ok <==> (f.ownerId == caller || IsRecipient(shares, fileId, caller)) && f.storagePath in blobs)
      && (r.0 == Ok ==> r.1.value == Download(blobs[f.storagePath], f.fileName + ".enc"))
  {
    match FileById(files, fileId)
    case None => (NotFound, None)
    case Some(i) =>
      var f := files[i];
      if f.ownerId != caller && !HasShareFor(shares, fileId, caller) then (Forbidden, None)
      else if f.storagePath !in blobs then (NotFound, None)
      else (Ok, Some(Download(blobs[f.storagePath], f.fileName + ".enc")))
  }

  // ---------------------------------------------------------------- share_file

  /** The JSON body of `share_file`; `None` marks an absent key. */
  datatype ShareRequest = ShareRequest(
    fileId: Option<int>,
    recipientId: Option<string>,
    kemCiphertext: Option<string>,
    permission: Option<string>)

  predicate IsHexDigit(c: char)
  {
    '0' <= c <= '9' || 'a' <= c <= 'f'
  }

  function UpperHex(c: char): char
  {
    if 'a' <= c <= 'f' then (c as int - 32) as char else c
  }

  /** `uuid.uuid4().hex[:8].upper()`. */
  function ShareCodeOf(shareUuid: string): string
  {
    var p := Take(shareUuid, 8);
    seq(|p|, i requires 0 <= i < |p| => UpperHex(p[i]))
  }

  /** A uuid4 hex string yields a code of eight upper-case hexadecimal digits. */
  lemma ShareCodeFormat(shareUuid: string)
    requires |shareUuid| == 32 && forall i :: 0 <= i < 32 ==> IsHexDigit(shareUuid[i])
    ensures var c := ShareCodeOf(shareUuid);
      |c| == 8 && forall i :: 0 <= i < 8 ==> '0' <= c[i] <= '9' || 'A' <= c[i] <= 'F'
  {
  }

  /** `(data.get('recipientId') or '').strip()`. */
  function RecipientHandle(req: ShareRequest): string
  {
    Trim(req.recipientId.GetOr(""))
  }

  /**
   * The status `share_file` answers with: 400 when the file id is missing or
   * 0, the trimmed recipient is empty or the ciphertext is empty; the same 404
   * for an unknown file and someone else's file; 404 for an unknown recipient;
   * 500 when the drawn code is already in use (the unique index rejects the
   * commit); else 201.
   */
  function ShareFileStatus(files: seq<FileMetadata>, users: seq<User>, shares: seq<SharedAccess>,
                           caller: int, req: ShareRequest, code: string): (s: Status)
    ensures s == Created <==>
      && req.fileId.Some? && req.fileId.value != 0
      && RecipientHandle(req) != [] && req.kemCiphertext.GetOr("") != ""
      && FileById(files, req.fileId.value).Some? && files[FileById(files, req.fileId.value).value].ownerId == caller
      && UserByHandle(users, RecipientHandle(req)).Some?
      && ShareByCode(shares, code).None?
    ensures s == BadRequest <==>
      req.fileId.None? || req.fileId.value == 0 || RecipientHandle(req) == [] || req.kemCiphertext.GetOr("") == ""
    ensures s == NotFound <==>
      && !(req.fileId.None? || req.fileId.value == 0 || RecipientHandle(req) == [] || req.kemCiphertext.GetOr("") == "")
      && (|| FileById(files, req.fileId.value).None?
          || files[FileById(files, req.fileId.value).value].ownerId != caller
          || UserByHandle(users, RecipientHandle(req)).None?)
    ensures s == Created || s == BadRequest || s == NotFound || s == ServerError
  {
    if req.fileId.None? || req.fileId.value == 0 || RecipientHandle(req) == [] || req.kemCiphertext.GetOr("") == "" then
      BadRequest
    else
      var found := FileById(files, req.fileId.value);
      if found.None? || files[found.value].ownerId != caller then NotFound
      else if UserByHandle(users, RecipientHandle(req)).None? then NotFound
      else if ShareByCode(shares, code).Some? then ServerError
      else Created
  }

  /** The grant a successful `share_file` inserts; the permission defaults to 'download'. */
  function NewShare(id: int, users: seq<User>, caller: int, req: ShareRequest, code: string): SharedAccess
    requires UserByHandle(users, RecipientHandle(req)).Some? && req.fileId.Some?
  {
    var recipient := users[UserByHandle(users, RecipientHandle(req)).value];
    SharedAccess(id, req.fileId.value, caller, recipient.id, req.kemCiphertext.GetOr(""), code,
                 req.permission.GetOr(DefaultPermission))
  }

  /** The 'share' history line of a direct grant. */
  function ShareHistory(id: int, caller: int, f: FileMetadata): FileHistory
  {
    FileHistory(id, caller, f.fileName, f.originalSize, f.encryptedSize, "share", "share")
  }

  /**
   * `share_file`: on 201 exactly one grant with the code drawn from the uuid
   * and one 'share' history line are appended; on every refusal nothing
   * changes.
   */
  method ShareFile(db: Ledger, caller: int, req: ShareRequest, shareUuid: string)
    returns (status: Status, share: Option<SharedAccess>)
    modifies db`shares, db`nextShareId, db`history, db`nextHistoryId
    ensures status == ShareFileStatus(db.files, db.users, old(db.shares), caller, req, ShareCodeOf(shareUuid))
    ensures status != Created ==>
      && db.shares == old(db.shares) && db.nextShareId == old(db.nextShareId)
      && db.history == old(db.history) && db.nextHistoryId == old(db.nextHistoryId)
      && share == None
    ensures status == Created ==>
      var s := NewShare(old(db.nextShareId), db.users, caller, req, ShareCodeOf(shareUuid));
      var f := db.files[FileById(db.files, req.fileId.value).value];
      && db.shares == old(db.shares) + [s] && db.nextShareId == old(db.nextShareId) + 1
      && db.history == old(db.history) + [ShareHistory(old(db.nextHistoryId), caller, f)]
      && db.nextHistoryId == old(db.nextHistoryId) + 1
      && share == Some(s)
  {
    var code := ShareCodeOf(shareUuid);
    status := ShareFileStatus(db.files, db.users, db.shares, caller, req, code);
    if status != Created {
      return status, None;
    }
    var f := db.files[FileById(db.files, req.fileId.value).value];
    var s := NewShare(db.nextShareId, db.users, caller, req, code);
    db.shares := db.shares + [s];
    db.nextShareId := db.nextShareId + 1;
    db.history := db.history + [ShareHistory(db.nextHistoryId, caller, f)];
    db.nextHistoryId := db.nextHistoryId + 1;
    share := Some(s);
  }

  /** A successful `share_file` keeps share codes unique and every grant sent by the owner of its file. */
  lemma ShareFileKeepsInvariants(files: seq<FileMetadata>, users: seq<User>, shares: seq<SharedAccess>, ns: int,
                                 history: seq<FileHistory>, nh: int, caller: int, req: ShareRequest, code: string)
    requires Keyed(shares, ShareKey, ns) && UniqueShareCodes(shares) && SendersOwnFiles(files, shares)
    requires Keyed(history, HistoryKey, nh)
    requires ShareFileStatus(files, users, shares, caller, req, code) == Created
    ensures var s := NewShare(ns, users, caller, req, code);
      && Keyed(shares + [s], ShareKey, ns + 1)
      && UniqueShareCodes(shares + [s])
      && SendersOwnFiles(files, shares + [s])
    ensures var f := files[FileById(files, req.fileId.value).value];
      Keyed(history + [ShareHistory(nh, caller, f)], HistoryKey, nh + 1)
  {
    var s := NewShare(ns, users, caller, req, code);
    var r := shares + [s];
    AppendKeyed(shares, s, ShareKey, ns);
    var f := files[FileById(files, req.fileId.value).value];
    assert f in files;
    AppendKeyed(history, ShareHistory(nh, caller, f), HistoryKey, nh);
    forall i, j | 0 <= i < j < |r| ensures r[i].shareCode != r[j].shareCode {
      if j == |shares| {
        assert r[i] == shares[i];
      }
    }
  }

  /**
   * Nothing makes a (file, recipient) grant unique: once a share succeeded,
   * the same request with a fresh code succeeds again and adds a second grant.
   */
  lemma RepeatedShareIsAccepted(files: seq<FileMetadata>, users: seq<User>, shares: seq<SharedAccess>, ns: int,
                                caller: int, req: ShareRequest, code: string, code2: string)
    requires ShareFileStatus(files, users, shares, caller, req, code) == Created
    requires code2 != code && ShareByCode(shares, code2).None?
    ensures var s := NewShare(ns, users, caller, req, code);
      ShareFileStatus(files, users, shares + [s], caller, req, code2) == Created
  {
    var s := NewShare(ns, users, caller, req, code);
    var r := shares + [s];
    assert forall j :: 0 <= j < |shares| ==> r[j] == shares[j];
  }

  // ---------------------------------------------------------------- listings

  /** `list_shared`: the grants the caller sent, newest first. */
  function ListShared(shares: seq<SharedAccess>, caller: int): (r: seq<SharedAccess>)
    ensures forall s :: s in r <==> s in shares && s.senderId == caller
    ensures Ascending(shares, ShareKey) ==> Descending(r, ShareKey)
  {
    NewestFirstDescending(shares, (s: SharedAccess) => s.senderId == caller, ShareKey);
    NewestFirst(shares, (s: SharedAccess) => s.senderId == caller)
  }

  /** `list_received`: the grants addressed to the caller, newest first. */
  function ListReceived(shares: seq<SharedAccess>, caller: int): (r: seq<SharedAccess>)
    ensures forall s :: s in r <==> s in shares && s.recipientId == caller
    ensures Ascending(shares, ShareKey) ==> Descending(r, ShareKey)
  {
    NewestFirstDescending(shares, (s: SharedAccess) => s.recipientId == caller, ShareKey);
    NewestFirst(shares, (s: SharedAccess) => s.recipientId == caller)
  }

  /** `list_my_files`: the caller's catalog rows, newest first. */
  function ListMyFiles(files: seq<FileMetadata>, caller: int): (r: seq<FileMetadata>)
    ensures forall f :: f in r <==> f in files && f.ownerId == caller
    ensures Ascending(files, FileKey) ==> Descending(r, FileKey)
  {
    NewestFirstDescending(files, (f: FileMetadata) => f.ownerId == caller, FileKey);
    NewestFirst(files, (f: FileMetadata) => f.ownerId == caller)
  }

  // ---------------------------------------------------------------- get_share_by_code

  /** The file fields `get_share_by_code` adds for the recipient to decrypt. */
  datatype ShareFileInfo = ShareFileInfo(iv: string, originalSize: int, encryptedSize: int)

  datatype ShareDetail = ShareDetail(share: SharedAccess, file: Option<ShareFileInfo>)

  /**
   * `get_share_by_code`: 404 for an unknown code, 403 unless the caller sent
   * or receives the grant, else the grant with its file's iv and sizes.
   */
  function GetShareByCode(files: seq<FileMetadata>, shares: seq<SharedAccess>, caller: int, code: string)
    : (r: (Status, Option<ShareDetail>))
    ensures r.0 == Ok <==> r.1.Some?
    ensures r.0 == NotFound <==> forall s :: s in shares ==> s.shareCode != code
    ensures r.0 == Forbidden <==>
      ShareByCode(shares, code).Some? && var s := shares[ShareByCode(shares, code).value];
      s.recipientId != caller && s.senderId != caller
    ensures r.0 == Ok ==>
      && r.1.value.share in shares && r.1.value.share.shareCode == code
      && (r.1.value.share.recipientId == caller || r.1.value.share.senderId == caller)
    ensures r.0 == Ok && FileById(files, r.1.value.share.fileId).Some? ==>
      var f := files[FileById(files, r.1.value.share.fileId).value];
      r.1.value.file == Some(ShareFileInfo(f.iv, f.originalSize, f.encryptedSize))
    ensures r.0 == Ok || r.0 == Forbidden || r.0 == NotFound
  {
    match ShareByCode(shares, code)
    case None => (NotFound, None)
    case Some(i) =>
      var s := shares[i];
      assert s in shares;
      if s.recipientId != caller && s.senderId != caller then (Forbidden, None)
      else
        var info := match FileById(files, s.fileId)
          case None => None
          case Some(k) => Some(ShareFileInfo(files[k].iv, files[k].originalSize, files[k].encryptedSize));
        (Ok, Some(ShareDetail(s, info)))
  }

  /** With unique codes, the grant a code finds is the only one carrying it. */
  lemma ShareCodeIdentifiesGrant(files: seq<FileMetadata>, shares: seq<SharedAccess>, caller: int, s: SharedAccess)
    requires UniqueShareCodes(shares) && s in shares && (s.senderId == caller || s.recipientId == caller)
    ensures GetShareByCode(files, shares, caller, s.shareCode).0 == Ok
    ensures GetShareByCode(files, shares, caller, s.shareCode).1.value.share == s
  {
  }

  // ---------------------------------------------------------------- revoke_share

  /** The same 404 for an unknown grant id and for a grant someone else sent. */
  function RevokeStatus(shares: seq<SharedAccess>, caller: int, shareId: int): (s: Status)
    ensures s == Ok || s == NotFound
    ensures s == Ok <==> ShareById(shares, shareId).Some? && shares[ShareById(shares, shareId).value].senderId == caller
    ensures (forall x :: x in shares ==> x.id != shareId || x.senderId != caller) ==> s == NotFound
  {
    match ShareById(shares, shareId)
    case None => NotFound
    case Some(i) =>
      assert shares[i] in shares;
      if shares[i].senderId != caller then NotFound else Ok
  }

  /** `revoke_share`: on success exactly the grant is deleted; otherwise nothing changes. */
  method RevokeShare(db: Ledger, caller: int, shareId: int) returns (status: Status)
    modifies db`shares
    ensures status == RevokeStatus(old(db.shares), caller, shareId)
    ensures status != Ok ==> db.shares == old(db.shares)
    ensures status == Ok ==>
      var i := ShareById(old(db.shares), shareId).value;
      db.shares == old(db.shares)[..i] + old(db.shares)[i + 1..]
  {
    status := RevokeStatus(db.shares, caller, shareId);
    if status == Ok {
      var i := ShareById(db.shares, shareId).value;
      db.shares := db.shares[..i] + db.shares[i + 1..];
    }
  }

  /** Revoking keeps the grant table an autoincrement table with unique codes, each grant sent by its file's owner. */
  lemma RevokeKeepsInvariants(files: seq<FileMetadata>, shares: seq<SharedAccess>, ns: int, i: nat)
    requires Keyed(shares, ShareKey, ns) && UniqueShareCodes(shares) && SendersOwnFiles(files, shares)
    requires i < |shares|
    ensures var r := shares[..i] + shares[i + 1..];
      Keyed(r, ShareKey, ns) && UniqueShareCodes(r) && SendersOwnFiles(files, r)
  {
    var r := shares[..i] + shares[i + 1..];
    RemoveKeyed(shares, i, ShareKey, ns);
    RemoveAtContents(shares, i, ShareKey);
    forall a, b | 0 <= a < b < |r| ensures r[a].shareCode != r[b].shareCode {
      var a', b' := if a < i then a else a + 1, if b < i then b else b + 1;
      assert r[a] == shares[a'] && r[b] == shares[b'];
    }
  }

  /** A revoke removes exactly the grant with that id, so revoking it again answers 404 and changes nothing. */
  lemma RevokeIsFinal(shares: seq<SharedAccess>, ns: int, caller: int, shareId: int)
    requires Keyed(shares, ShareKey, ns) && RevokeStatus(shares, caller, shareId) == Ok
    ensures var i := ShareById(shares, shareId).value;
      var r := shares[..i] + shares[i + 1..];
      && (forall x :: x in r <==> x in shares && x.id != shareId)
      && RevokeStatus(r, caller, shareId) == NotFound
  {
    var i := ShareById(shares, shareId).value;
    var r := shares[..i] + shares[i + 1..];
    RemoveAtContents(shares, i, ShareKey);
    forall x | x in shares && x.id == shareId ensures x == shares[i] {
      var j :| 0 <= j < |shares| && shares[j] == x;
      KeyedUnique(shares, ShareKey, i, j);
    }
  }

  // ---------------------------------------------------------------- history

  const HistoryLimit := 100

  /** `get_history`: the caller's newest 100 history lines, newest first. */
  function GetHistory(history: seq<FileHistory>, caller: int): (r: seq<FileHistory>)
    ensures |r| <= HistoryLimit && |r| <= |NewestFirst(history, (h: FileHistory) => h.userId == caller)|
    ensures |r| == if |NewestFirst(history, (h: FileHistory) => h.userId == caller)| <= HistoryLimit
                   then |NewestFirst(history, (h: FileHistory) => h.userId == caller)| else HistoryLimit
    ensures forall h :: h in r ==> h in history && h.userId == caller
    ensures r == NewestFirst(history, (h: FileHistory) => h.userId == caller)[..|r|]
    ensures |NewestFirst(history, (h: FileHistory) => h.userId == caller)| <= HistoryLimit ==>
      forall h :: h in history && h.userId == caller ==> h in r
    ensures Ascending(history, HistoryKey) ==> Descending(r, HistoryKey)
  {
    var own := NewestFirst(history, (h: FileHistory) => h.userId == caller);
    NewestFirstDescending(history, (h: FileHistory) => h.userId == caller, HistoryKey);
    var r := Take(own, HistoryLimit);
    assert forall h :: h in r ==> h in own;
    assert Ascending(history, HistoryKey) ==> Descending(r, HistoryKey) by {
      if Ascending(history, HistoryKey) {
        forall i, j | 0 <= i < j < |r| ensures KeyAt(r, HistoryKey, i) > KeyAt(r, HistoryKey, j) {
          assert KeyAt(own, HistoryKey, i) > KeyAt(own, HistoryKey, j);
        }
      }
    }
    r
  }

  /** The JSON body of `add_history`; `None` marks an absent key. */
  datatype HistoryRequest = HistoryRequest(
    name: Option<string>,
    originalSize: Option<int>,
    encryptedSize: Option<int>,
    fileType: Option<string>,
    operation: Option<string>)

  /** The row `add_history` inserts, with the handler's defaults for absent keys. */
  function NewHistory(id: int, caller: int, req: HistoryRequest): (h: FileHistory)
    ensures h.id == id && h.userId == caller
    ensures req.name.Some? ==> h.name == req.name.value
    ensures req.name.None? ==> h.name == "Unnamed"
    ensures req.originalSize.Some? ==> h.originalSize == req.originalSize.value
    ensures req.originalSize.None? ==> h.originalSize == 0
    ensures req.encryptedSize.Some? ==> h.encryptedSize == req.encryptedSize.value
    ensures req.encryptedSize.None? ==> h.encryptedSize == 0
    ensures req.fileType.Some? ==> h.fileType == req.fileType.value
    ensures req.fileType.None? ==> h.fileType == "unknown"
    ensures req.operation.Some? ==> h.operation == req.operation.value
    ensures req.operation.None? ==> h.operation == "encrypt"
  {
    FileHistory(id, caller, req.name.GetOr("Unnamed"), req.originalSize.GetOr(0), req.encryptedSize.GetOr(0),
                req.fileType.GetOr(DefaultFileType), req.operation.GetOr(DefaultOperation))
  }

  /** `add_history`: exactly one line for the caller is appended. */
  method AddHistory(db: Ledger, caller: int, req: HistoryRequest) returns (status: Status, entry: FileHistory)
    modifies db`history, db`nextHistoryId
    ensures status == Created && entry == NewHistory(old(db.nextHistoryId), caller, req)
    ensures db.history == old(db.history) + [entry] && db.nextHistoryId == old(db.nextHistoryId) + 1
  {
    entry := NewHistory(db.nextHistoryId, caller, req);
    db.history := db.history + [entry];
    db.nextHistoryId := db.nextHistoryId + 1;
    status := Created;
  }

  /** The appended line keeps history ids ascending and heads the caller's history. */
  lemma AddHistoryKeepsInvariants(history: seq<FileHistory>, nh: int, caller: int, req: HistoryRequest)
    requires Keyed(history, HistoryKey, nh)
    ensures Keyed(history + [NewHistory(nh, caller, req)], HistoryKey, nh + 1)
    ensures NewHistory(nh, caller, req) in GetHistory(history + [NewHistory(nh, caller, req)], caller)
    ensures GetHistory(history + [NewHistory(nh, caller, req)], caller)[0] == NewHistory(nh, caller, req)
  {
    var h := NewHistory(nh, caller, req);
    var r := history + [h];
    AppendKeyed(history, h, HistoryKey, nh);
    NewestFirstDescending(r, (x: FileHistory) => x.userId == caller, HistoryKey);
    var nf := NewestFirst(r, (x: FileHistory) => x.userId == caller);
    assert h in nf;
    forall x | x in nf ensures HistoryKey(x) <= nh {
      var j :| 0 <= j < |r| && r[j] == x;
      assert KeyAt(r, HistoryKey, j) < nh + 1;
    }
    var k :| 0 <= k < |nf| && nf[k] == h;
    assert nf[0] in nf;
    assert KeyAt(nf, HistoryKey, 0) <= nh == KeyAt(nf, HistoryKey, k);
    assert k == 0;
    assert GetHistory(r, caller) != [] ==> GetHistory(r, caller)[0] == h;
  }

  /** `filter_by(id=item_id, user_id=caller).first()`. */
  function OwnHistoryItem(history: seq<FileHistory>, caller: int, itemId: int): (r: Option<nat>)
    ensures r.Some? ==> r.value < |history| && history[r.value].id == itemId && history[r.value].userId == caller
    ensures r.None? <==> forall h :: h in history ==> !(h.id == itemId && h.userId == caller)
  {
    var k := FirstIndex(history, (h: FileHistory) => h.id == itemId && h.userId == caller);
    assert k.None? ==> forall h :: h in history ==> !(h.id == itemId && h.userId == caller);
    k
  }

  /** `delete_history_item`: 404 unless the line exists and is the caller's; on success exactly that line goes. */
  method DeleteHistoryItem(db: Ledger, caller: int, itemId: int) returns (status: Status)
    modifies db`history
    ensures OwnHistoryItem(old(db.history), caller, itemId).None? ==> status == NotFound && db.history == old(db.history)
    ensures OwnHistoryItem(old(db.history), caller, itemId).Some? ==>
      var i := OwnHistoryItem(old(db.history), caller, itemId).value;
      status == Ok && db.history == old(db.history)[..i] + old(db.history)[i + 1..]
  {
    match OwnHistoryItem(db.history, caller, itemId) {
      case None =>
        status := NotFound;
      case Some(i) =>
        db.history := db.history[..i] + db.history[i + 1..];
        status := Ok;
    }
  }

  /** Deleting one of the caller's lines keeps the autoincrement table and removes only that line. */
  lemma DeleteHistoryItemKeepsOthers(history: seq<FileHistory>, nh: int, caller: int, itemId: int)
    requires Keyed(history, HistoryKey, nh) && OwnHistoryItem(history, caller, itemId).Some?
    ensures var i := OwnHistoryItem(history, caller, itemId).value;
      var r := history[..i] + history[i + 1..];
      && Keyed(r, HistoryKey, nh)
      && forall h :: h in r <==> h in history && h.id != itemId
  {
    var i := OwnHistoryItem(history, caller, itemId).value;
    var r := history[..i] + history[i + 1..];
    RemoveKeyed(history, i, HistoryKey, nh);
    RemoveAtContents(history, i, HistoryKey);
    forall h | h in history && h.id == itemId ensures h == history[i] {
      var j :| 0 <= j < |history| && history[j] == h;
      KeyedUnique(history, HistoryKey, i, j);
    }
  }

  /** The history left after `clear_history`: every line of the other users. */
  function ClearedHistory(history: seq<FileHistory>, caller: int): (r: seq<FileHistory>)
    ensures forall h :: h in r <==> h in history && h.userId != caller
  {
    Where(history, (h: FileHistory) => h.userId != caller)
  }

  /** `clear_history`: all and only the caller's lines are deleted. */
  method ClearHistory(db: Ledger, caller: int) returns (status: Status)
    modifies db`history
    ensures status == Ok && db.history == ClearedHistory(old(db.history), caller)
  {
    db.history := ClearedHistory(db.history, caller);
    status := Ok;
  }

  /** Clearing keeps the autoincrement table; afterwards the caller's history listing is empty. */
  lemma ClearHistoryKeepsInvariants(history: seq<FileHistory>, nh: int, caller: int)
    requires Keyed(history, HistoryKey, nh)
    ensures Keyed(ClearedHistory(history, caller), HistoryKey, nh)
    ensures forall h :: h !in GetHistory(ClearedHistory(history, caller), caller)
  {
    WhereKeyed(history, (h: FileHistory) => h.userId != caller, HistoryKey, nh);
  }
}
