/** FileService: upload, info, download and delete over the metadata store
    and the blob store. Each operation is one transaction: when it throws,
    the metadata store is as it was (the blob store is not transactional). */
module Service {
  import opened JavaLang
  import opened Exceptions
  import opened Entity
  import opened Repository
  import opened TokenGenerator
  import opened FileValidator

  const NOT_FOUND_MESSAGE: string := "File not found"
  const DELETED_MESSAGE: string := "File has been deleted"
  const ALREADY_DELETED_MESSAGE: string := "File has already been deleted"
  const EXPIRED_MESSAGE: string := "File has expired and is no longer available"
  const LIMIT_MESSAGE: string := "Download limit reached for this file"
  const PASSWORD_REQUIRED_MESSAGE: string := "Password is required"
  const INVALID_PASSWORD_MESSAGE: string := "Invalid password"
  const UPLOAD_FAILED_MESSAGE: string := "Error while uploading file to MinIO service"
  const DOWNLOAD_FAILED_MESSAGE: string := "Error while downloading file from MinIO service"
  const DELETE_FAILED_MESSAGE: string := "Error while deleting file from MinIO service"
  /** Stands for the persistence provider's text, which is not modelled. */
  const CONSTRAINT_MESSAGE: string := "could not execute statement"
  const STORAGE_PREFIX: string := "uploads/"

  /** The bucket StorageService talks to: the set of object keys in it.
      `reachable` is whether the network call to the object store succeeds. */
  class BlobStore {
    var keys: set<string>

    constructor()
      ensures keys == {}
    {
      keys := {};
    }

    /** putObject: on success the key holds the uploaded bytes (an existing
        object under the key is overwritten). */
    method PutObject(key: string, reachable: bool) returns (ok: bool)
      modifies this
      ensures ok == reachable
      ensures keys == if ok then old(keys) + {key} else old(keys)
    {
      ok := reachable;
      if ok {
        keys := keys + {key};
      }
    }

    /** getObject: opens a stream on the key; a missing key is an error. */
    method GetObject(key: string, reachable: bool) returns (ok: bool)
      ensures ok <==> reachable && key in keys
    {
      ok := reachable && key in keys;
    }

    /** removeObject: removing a missing key is not an error. */
    method RemoveObject(key: string, reachable: bool) returns (ok: bool)
      modifies this
      ensures ok == reachable
      ensures keys == if ok then old(keys) - {key} else old(keys)
    {
      ok := reachable;
      if ok {
        keys := keys - {key};
      }
    }
  }

  datatype UploadResponse = UploadResponse(
    fileId: Uuid, fileName: Nullable<string>, fileSize: int,
    shareUrl: string, deleteUrl: string, expiresAt: int, maxDownloads: Nullable<Int32>)

  datatype FileInfoResponse = FileInfoResponse(
    fileName: Nullable<string>, fileSize: int, mimeType: Nullable<string>,
    uploadDate: int, expiryDate: int, downloadCount: Int32, maxDownloads: Nullable<Int32>,
    isPasswordProtected: bool, isExpired: bool)

  /** FileDownloadResult; the stream is named by the blob key it reads. */
  datatype FileDownloadResult = FileDownloadResult(
    blobKey: string, fileName: Nullable<string>, mimeType: Nullable<string>, fileSize: int)

  /** What one upload draws from outside the program: the UUID the store
      assigns, SecureRandom's bytes for the three tokens, the BCrypt digest
      of the password (salted at random), and the two readings of the clock
      (expiryDate is computed from the first, uploadDate is the second). */
  datatype UploadEnvironment = UploadEnvironment(
    fileId: Uuid,
    shareRandom: seq<Byte>, deleteRandom: seq<Byte>, nameRandom: seq<Byte>,
    passwordDigest: string,
    expiryClock: int, uploadClock: int)

  predicate WellSized(env: UploadEnvironment)
  {
    |env.shareRandom| == SHARE_TOKEN_BYTES &&
    |env.deleteRandom| == DELETE_TOKEN_BYTES &&
    |env.nameRandom| == STORAGE_NAME_BYTES
  }

  /** `password != null && !password.isEmpty()` */
  predicate HasPassword(password: Nullable<string>)
  {
    password.Present? && |password.value| > 0
  }

  /** `expiryHours != null ? expiryHours : defaultExpiryHours` */
  function HoursUntilExpiry(expiryHours: Nullable<Int32>, defaultExpiryHours: Int32): Int32
  {
    if expiryHours.Present? then expiryHours.value else defaultExpiryHours
  }

  /** The record uploadFile builds from the request and the environment. */
  function UploadedRecord(
    file: MultipartFile, expiryHours: Nullable<Int32>, password: Nullable<string>,
    maxDownloads: Nullable<Int32>, uploaderIp: Nullable<string>,
    env: UploadEnvironment, defaultExpiryHours: Int32): FileMetadata
  {
    var storageKey := STORAGE_PREFIX
      + StorageFileNameOf(env.nameRandom, GetFileExtension(file.originalFilename));
    Build(env.fileId, file.originalFilename, file.size, file.contentType, storageKey,
      ShareTokenOf(env.shareRandom), DeleteTokenOf(env.deleteRandom),
      if HasPassword(password) then Present(env.passwordDigest) else Null,
      env.uploadClock,
      env.expiryClock + HoursUntilExpiry(expiryHours, defaultExpiryHours) * SECONDS_PER_HOUR,
      Some(0), maxDownloads, Some(false), uploaderIp)
  }

  /** The record uploadFile assembles step by step is UploadedRecord. */
  lemma BuiltIsUploadedRecord(
    file: MultipartFile, expiryHours: Nullable<Int32>, password: Nullable<string>,
    maxDownloads: Nullable<Int32>, uploaderIp: Nullable<string>,
    env: UploadEnvironment, defaultExpiryHours: Int32,
    shareToken: string, deleteToken: string, storageKey: string)
    requires shareToken == ShareTokenOf(env.shareRandom)
    requires deleteToken == DeleteTokenOf(env.deleteRandom)
    requires storageKey == STORAGE_PREFIX
      + StorageFileNameOf(env.nameRandom, GetFileExtension(file.originalFilename))
    ensures Build(env.fileId, file.originalFilename, file.size, file.contentType, storageKey,
                  shareToken, deleteToken,
                  if HasPassword(password) then Present(env.passwordDigest) else Null,
                  env.uploadClock,
                  env.expiryClock + HoursUntilExpiry(expiryHours, defaultExpiryHours) * SECONDS_PER_HOUR,
                  Some(0), maxDownloads, Some(false), uploaderIp)
         == UploadedRecord(file, expiryHours, password, maxDownloads, uploaderIp, env, defaultExpiryHours)
  {
  }

  /** findFileByShareToken: an unknown token and a deleted record are both
      "not found", with different messages. */
  function FindFileByShareToken(records: seq<FileMetadata>, shareToken: string): (r: Result<FileMetadata>)
    ensures r.Ok? ==> r.value in records && r.value.shareToken == shareToken && !r.value.isDeleted
    ensures r.Err? ==> r.error.FileNotFound?
  {
    match FindByShareToken(records, shareToken)
    case None => Err(FileNotFound(NOT_FOUND_MESSAGE))
    case Some(m) => if m.isDeleted then Err(FileNotFound(DELETED_MESSAGE)) else Ok(m)
  }

  /** The lookup at the head of deleteFile. */
  function FindFileByDeleteToken(records: seq<FileMetadata>, deleteToken: string): (r: Result<FileMetadata>)
    ensures r.Ok? ==> r.value in records && r.value.deleteToken == deleteToken && !r.value.isDeleted
    ensures r.Err? ==> r.error.FileNotFound?
  {
    match FindByDeleteToken(records, deleteToken)
    case None => Err(FileNotFound(NOT_FOUND_MESSAGE))
    case Some(m) => if m.isDeleted then Err(FileNotFound(ALREADY_DELETED_MESSAGE)) else Ok(m)
  }

  /** The response getFileInfo builds from a record. */
  function InfoOf(m: FileMetadata, now: int): FileInfoResponse
  {
    FileInfoResponse(m.originalFileName, m.fileSize, m.mimeType, m.uploadDate, m.expiryDate,
      m.downloadCount, m.maxDownloads, m.IsPasswordProtected(), m.IsExpired(now))
  }

  /** The policy checks of downloadFile, in the order the code makes them;
      `matches` is BCrypt's verification of a password against a digest. */
  function CheckDownload(m: FileMetadata, password: Nullable<string>, now: int,
                         matches: (string, string) -> bool): Outcome
  {
    if m.IsExpired(now) then Fail(FileExpired(EXPIRED_MESSAGE))
    else if m.IsDownloadLimitReached() then Fail(FileExpired(LIMIT_MESSAGE))
    else if m.IsPasswordProtected() && !HasPassword(password) then
      Fail(InvalidPassword(PASSWORD_REQUIRED_MESSAGE))
    else if m.IsPasswordProtected() && !matches(password.value, m.passwordHash.value) then
      Fail(InvalidPassword(INVALID_PASSWORD_MESSAGE))
    else Pass
  }

  /** The record after `setDownloadCount(getDownloadCount() + 1)`. */
  function Downloaded(m: FileMetadata): FileMetadata
  {
    m.(downloadCount := Inc32(m.downloadCount))
  }

  /** The record after `setIsDeleted(true)`. */
  function MarkedDeleted(m: FileMetadata): FileMetadata
  {
    m.(isDeleted := true)
  }

  /** The data-model invariant tying the two stores together: the blob of
      every live record is in the bucket. */
  predicate LiveBlobsPresent(records: seq<FileMetadata>, keys: set<string>)
  {
    forall m :: m in records && !m.isDeleted ==> m.storageKey in keys
  }

  /** No two live records share a storage key. The keys are random, so the
      code makes this likely but does not check it. */
  predicate LiveKeysDistinct(records: seq<FileMetadata>)
  {
    forall i, j ::
      (0 <= i < |records| && 0 <= j < |records| && i != j &&
       !records[i].isDeleted && !records[j].isDeleted) ==>
      records[i].storageKey != records[j].storageKey
  }

  class FileService {
    const repository: FileMetadataRepository
    const storage: BlobStore
    const validator: ValidatorConfig
    const defaultExpiryHours: Int32   // filestore.file.default-expiry-hours
    const contextPath: string         // server.servlet.context-path

    ghost predicate Valid()
      reads this, repository
    {
      repository.Valid()
    }

    constructor(validator: ValidatorConfig, defaultExpiryHours: Int32, contextPath: string)
      ensures Valid() && fresh(repository) && fresh(storage)
      ensures repository.records == [] && storage.keys == {}
      ensures this.validator == validator && this.defaultExpiryHours == defaultExpiryHours
      ensures this.contextPath == contextPath
    {
      this.validator := validator;
      this.defaultExpiryHours := defaultExpiryHours;
      this.contextPath := contextPath;
      repository := new FileMetadataRepository();
      storage := new BlobStore();
    }

    /** uploadFile. A rejected file changes nothing; a blob-store failure
        changes nothing; a refused insert leaves the blob already written. */
    method UploadFile(file: MultipartFile, expiryHours: Nullable<Int32>, password: Nullable<string>,
                      maxDownloads: Nullable<Int32>, uploaderIp: Nullable<string>,
                      env: UploadEnvironment, storageReachable: bool)
      returns (r: Result<UploadResponse>)
      requires Valid() && WellSized(env)
      modifies repository, storage
      ensures Valid()
      ensures ValidateFile(validator, file).Fail? ==>
        r == Err(ValidateFile(validator, file).error) &&
        repository.records == old(repository.records) && storage.keys == old(storage.keys)
      ensures ValidateFile(validator, file).Pass? && !storageReachable ==>
        r == Err(StorageFailure(UPLOAD_FAILED_MESSAGE)) &&
        repository.records == old(repository.records) && storage.keys == old(storage.keys)
      ensures var m := UploadedRecord(file, expiryHours, password, maxDownloads, uploaderIp,
                                      env, defaultExpiryHours);
        ValidateFile(validator, file).Pass? && storageReachable ==>
        storage.keys == old(storage.keys) + {m.storageKey} &&
        if InsertAllowed(old(repository.records), m) then
          r == Ok(UploadResponse(env.fileId, file.originalFilename, file.size,
                                 contextPath + "/f/" + m.shareToken,
                                 contextPath + "/delete/" + m.deleteToken,
                                 m.expiryDate, maxDownloads)) &&
          repository.records == old(repository.records) + [m]
        else
          r == Err(DataIntegrityViolation(CONSTRAINT_MESSAGE)) &&
          repository.records == old(repository.records)
      ensures LiveBlobsPresent(old(repository.records), old(storage.keys)) ==>
        LiveBlobsPresent(repository.records, storage.keys)
    {
      var check := ValidateFile(validator, file);
      if check.Fail? {
        return Err(check.error);
      }
      var shareToken := GenerateShareToken(env.shareRandom);
      var deleteToken := GenerateDeleteToken(env.deleteRandom);
      var fileExtension := GetFileExtension(file.originalFilename);
      var storageFileName := GenerateStorageFileName(env.nameRandom, fileExtension);
      var storageKey := STORAGE_PREFIX + storageFileName;

      ghost var keysBefore := storage.keys;
      var stored := storage.PutObject(storageKey, storageReachable);
      if !stored {
        return Err(StorageFailure(UPLOAD_FAILED_MESSAGE));
      }

      var passwordHash := if HasPassword(password) then Present(env.passwordDigest) else Null;
      var hoursUntilExpiry := HoursUntilExpiry(expiryHours, defaultExpiryHours);
      var expiryDate := env.expiryClock + hoursUntilExpiry * SECONDS_PER_HOUR;
      var metadata := Build(env.fileId, file.originalFilename, file.size, file.contentType,
        storageKey, shareToken, deleteToken, passwordHash, env.uploadClock, expiryDate,
        Some(0), maxDownloads, Some(false), uploaderIp);
      BuiltIsUploadedRecord(file, expiryHours, password, maxDownloads, uploaderIp, env,
                            defaultExpiryHours, shareToken, deleteToken, storageKey);

      ghost var m := UploadedRecord(file, expiryHours, password, maxDownloads, uploaderIp,
                                    env, defaultExpiryHours);
      assert metadata == m;
      assert storage.keys == old(storage.keys) + {m.storageKey};
      ghost var recordsBefore := repository.records;
      var saved := repository.Insert(metadata);
      if LiveBlobsPresent(recordsBefore, keysBefore) {
        UploadKeepsLiveBlobs(recordsBefore, keysBefore, m);
      }
      if !saved {
        return Err(DataIntegrityViolation(CONSTRAINT_MESSAGE));
      }
      r := Ok(UploadResponse(env.fileId, file.originalFilename, file.size,
                             contextPath + "/f/" + shareToken,
                             contextPath + "/delete/" + deleteToken,
                             expiryDate, maxDownloads));
      assert shareToken == m.shareToken && deleteToken == m.deleteToken && expiryDate == m.expiryDate;
    }

    /** getFileInfo: reads one record and changes nothing. */
    method GetFileInfo(shareToken: string, now: int) returns (r: Result<FileInfoResponse>)
      requires Valid()
      ensures (forall m :: m in repository.records ==> m.shareToken != shareToken) ==>
        r == Err(FileNotFound(NOT_FOUND_MESSAGE))
      ensures forall m :: m in repository.records && m.shareToken == shareToken ==>
        r == if m.isDeleted then Err(FileNotFound(DELETED_MESSAGE)) else Ok(InfoOf(m, now))
    {
      var found := FindFileByShareToken(repository.records, shareToken);
      forall m | m in repository.records && m.shareToken == shareToken
        ensures FindByShareToken(repository.records, shareToken) == Some(m)
      {
        FindByShareTokenUnique(repository.records, m);
      }
      match found
      case Err(e) => r := Err(e);
      case Ok(metadata) => r := Ok(InfoOf(metadata, now));
    }

    /** downloadFile: the checks, then the counter increment, then the blob
        stream; a blob-store failure rolls the increment back. */
    method DownloadFile(shareToken: string, password: Nullable<string>, now: int,
                        matches: (string, string) -> bool, storageReachable: bool)
      returns (r: Result<FileDownloadResult>)
      requires Valid()
      modifies repository
      ensures Valid()
      ensures r.Err? ==> repository.records == old(repository.records)
      ensures (forall m :: m in old(repository.records) ==> m.shareToken != shareToken) ==>
        r == Err(FileNotFound(NOT_FOUND_MESSAGE))
      ensures forall m :: m in old(repository.records) && m.shareToken == shareToken ==>
        r == (if m.isDeleted then Err(FileNotFound(DELETED_MESSAGE))
              else if CheckDownload(m, password, now, matches).Fail? then
                Err(CheckDownload(m, password, now, matches).error)
              else if !storageReachable || m.storageKey !in storage.keys then
                Err(StorageFailure(DOWNLOAD_FAILED_MESSAGE))
              else Ok(FileDownloadResult(m.storageKey, m.originalFileName, m.mimeType, m.fileSize)))
      ensures forall m :: m in old(repository.records) && m.shareToken == shareToken && r.Ok? ==>
        repository.records == Replaced(old(repository.records), Downloaded(m))
      ensures LiveBlobsPresent(old(repository.records), storage.keys) ==>
        LiveBlobsPresent(repository.records, storage.keys)
    {
      var snapshot := repository.records;
      forall m | m in snapshot && m.shareToken == shareToken
        ensures FindByShareToken(snapshot, shareToken) == Some(m)
      {
        FindByShareTokenUnique(snapshot, m);
      }
      var found := FindFileByShareToken(snapshot, shareToken);
      if found.Err? {
        return Err(found.error);
      }
      var metadata := found.value;
      assert forall m :: m in snapshot && m.shareToken == shareToken ==> m == metadata;
      var policy := CheckDownload(metadata, password, now, matches);
      if policy.Fail? {
        return Err(policy.error);
      }

      var counted := Downloaded(metadata);
      SavesAllowed(snapshot, metadata);
      repository.Update(counted);

      var streamed := storage.GetObject(metadata.storageKey, storageReachable);
      if !streamed {
        repository.Rollback(snapshot);
        return Err(StorageFailure(DOWNLOAD_FAILED_MESSAGE));
      }
      DownloadKeepsLiveBlobs(snapshot, storage.keys, metadata);
      r := Ok(FileDownloadResult(metadata.storageKey, metadata.originalFileName,
                                 metadata.mimeType, metadata.fileSize));
    }

    /** deleteFile: the blob goes first, then the record is marked deleted. */
    method DeleteFile(deleteToken: string, storageReachable: bool) returns (r: Outcome)
      requires Valid()
      modifies repository, storage
      ensures Valid()
      ensures r.Fail? ==>
        repository.records == old(repository.records) && storage.keys == old(storage.keys)
      ensures (forall m :: m in old(repository.records) ==> m.deleteToken != deleteToken) ==>
        r == Fail(FileNotFound(NOT_FOUND_MESSAGE))
      ensures forall m :: m in old(repository.records) && m.deleteToken == deleteToken ==>
        r == (if m.isDeleted then Fail(FileNotFound(ALREADY_DELETED_MESSAGE))
              else if !storageReachable then Fail(StorageFailure(DELETE_FAILED_MESSAGE))
              else Pass)
      ensures forall m :: m in old(repository.records) && m.deleteToken == deleteToken && r.Pass? ==>
        repository.records == Replaced(old(repository.records), MarkedDeleted(m)) &&
        storage.keys == old(storage.keys) - {m.storageKey} &&
        CountByIsDeletedFalse(repository.records) == old(CountByIsDeletedFalse(repository.records)) - 1 &&
        CalculateTotalStorageUsed(repository.records)
          == old(CalculateTotalStorageUsed(repository.records)) - m.fileSize
      ensures (LiveBlobsPresent(old(repository.records), old(storage.keys)) &&
               LiveKeysDistinct(old(repository.records))) ==>
        LiveBlobsPresent(repository.records, storage.keys)
    {
      var snapshot := repository.records;
      forall m | m in snapshot && m.deleteToken == deleteToken
        ensures FindByDeleteToken(snapshot, deleteToken) == Some(m)
      {
        FindByDeleteTokenUnique(snapshot, m);
      }
      var found := FindFileByDeleteToken(snapshot, deleteToken);
      if found.Err? {
        return Fail(found.error);
      }
      var metadata := found.value;
      assert forall m :: m in snapshot && m.deleteToken == deleteToken ==> m == metadata;

      ghost var keysBefore := storage.keys;
      var removed := storage.RemoveObject(metadata.storageKey, storageReachable);
      if !removed {
        return Fail(StorageFailure(DELETE_FAILED_MESSAGE));
      }

      var deleted := MarkedDeleted(metadata);
      SavesAllowed(snapshot, metadata);
      repository.Update(deleted);
      AggregatesReplaced(snapshot, deleted, metadata);
      if LiveBlobsPresent(snapshot, keysBefore) && LiveKeysDistinct(snapshot) {
        DeleteKeepsLiveBlobs(snapshot, keysBefore, metadata);
      }
      r := Pass;
    }
  }

  /** Both saves of a stored record are updates the store admits: the
      counter and the deleted flag touch neither the id, the tokens nor a
      not-null column. */
  lemma SavesAllowed(records: seq<FileMetadata>, m: FileMetadata)
    requires WellFormed(records) && m in records
    ensures UpdateAllowed(records, Downloaded(m))
    ensures UpdateAllowed(records, MarkedDeleted(m))
  {
    FindByIdOfMember(records, m);
  }

  /** In a well-formed store a record is found by its own id. */
  lemma FindByIdOfMember(records: seq<FileMetadata>, m: FileMetadata)
    requires WellFormed(records) && m in records
    ensures FindById(records, m.id) == Some(m)
  {
    var r := FindById(records, m.id).value;
    var i :| 0 <= i < |records| && records[i] == m;
    var j :| 0 <= j < |records| && records[j] == r;
    assert i == j;
  }

  /** In a well-formed store, findFileByShareToken succeeds exactly when a
      record with the token exists and is not deleted. */
  lemma FindFileByShareTokenIff(records: seq<FileMetadata>, shareToken: string)
    requires WellFormed(records)
    ensures FindFileByShareToken(records, shareToken).Ok? <==>
      exists m :: m in records && m.shareToken == shareToken && !m.isDeleted
  {
    if m :| m in records && m.shareToken == shareToken && !m.isDeleted {
      FindByShareTokenUnique(records, m);
    }
  }

  /** getFileInfo does not hide expired files: a live record past its expiry
      is still found, and the response reports it expired. */
  lemma InfoShowsExpiredFiles(records: seq<FileMetadata>, m: FileMetadata, now: int)
    requires WellFormed(records) && m in records && !m.isDeleted && m.IsExpired(now)
    ensures FindFileByShareToken(records, m.shareToken) == Ok(m)
    ensures InfoOf(m, now).isExpired
    ensures InfoOf(m, now).isPasswordProtected == m.IsPasswordProtected()
  {
    FindByShareTokenUnique(records, m);
  }

  /** The download checks, in order: expiry and then the cap both fail with
      FileExpired, then a missing password and then a wrong one both fail with
      InvalidPassword; a download passes exactly when none applies. */
  lemma CheckDownloadOrder(m: FileMetadata, password: Nullable<string>, now: int,
                           matches: (string, string) -> bool)
    ensures m.IsExpired(now) ==> CheckDownload(m, password, now, matches) == Fail(FileExpired(EXPIRED_MESSAGE))
    ensures !m.IsExpired(now) && m.IsDownloadLimitReached() ==>
      CheckDownload(m, password, now, matches) == Fail(FileExpired(LIMIT_MESSAGE))
    ensures (!m.IsExpired(now) && !m.IsDownloadLimitReached() && m.IsPasswordProtected() &&
             !HasPassword(password)) ==>
      CheckDownload(m, password, now, matches) == Fail(InvalidPassword(PASSWORD_REQUIRED_MESSAGE))
    ensures CheckDownload(m, password, now, matches) == Pass <==>
      !m.IsExpired(now) && !m.IsDownloadLimitReached() &&
      (m.IsPasswordProtected() ==> HasPassword(password) && matches(password.value, m.passwordHash.value))
    ensures CheckDownload(m, password, now, matches).Fail? ==>
      (CheckDownload(m, password, now, matches).error.FileExpired? <==>
        m.IsExpired(now) || m.IsDownloadLimitReached())
  {
  }

  /** The password gate of a live, uncapped-or-under-cap, protected file: no
      password or an empty one, and a wrong one, are refused; the right one
      passes. */
  lemma PasswordGate(m: FileMetadata, now: int, matches: (string, string) -> bool, password: string)
    requires !m.IsExpired(now) && !m.IsDownloadLimitReached() && m.IsPasswordProtected()
    ensures CheckDownload(m, Null, now, matches) == Fail(InvalidPassword(PASSWORD_REQUIRED_MESSAGE))
    ensures CheckDownload(m, Present(""), now, matches) == Fail(InvalidPassword(PASSWORD_REQUIRED_MESSAGE))
    ensures password != "" && !matches(password, m.passwordHash.value) ==>
      CheckDownload(m, Present(password), now, matches) == Fail(InvalidPassword(INVALID_PASSWORD_MESSAGE))
    ensures password != "" && matches(password, m.passwordHash.value) ==>
      CheckDownload(m, Present(password), now, matches) == Pass
  {
  }

  /** A download that passes the checks of a capped file raises the count by
      exactly one and leaves it within the cap. */
  lemma DownloadStaysWithinCap(m: FileMetadata, password: Nullable<string>, now: int,
                               matches: (string, string) -> bool)
    requires CheckDownload(m, password, now, matches) == Pass && m.maxDownloads.Present?
    ensures Downloaded(m).downloadCount == m.downloadCount + 1
    ensures Downloaded(m).downloadCount <= m.maxDownloads.value
  {
  }

  /** With a cap of one, the first download passes and every later attempt
      fails with FileExpired, whatever the password and the time. */
  lemma CapOfOneAllowsOneDownload(m: FileMetadata, now: int, matches: (string, string) -> bool,
                                  laterPassword: Nullable<string>, later: int)
    requires m.maxDownloads == Present(1) && m.downloadCount == 0
    requires !m.IsExpired(now) && !m.IsPasswordProtected()
    ensures CheckDownload(m, Null, now, matches) == Pass
    ensures CheckDownload(Downloaded(m), laterPassword, later, matches).Fail?
    ensures CheckDownload(Downloaded(m), laterPassword, later, matches).error.FileExpired?
  {
  }

  /** Without a cap the counter is a Java int and nothing stops it: the
      download after Integer.MAX_VALUE stores Integer.MIN_VALUE. */
  lemma UncappedCounterWraps(m: FileMetadata, now: int, matches: (string, string) -> bool)
    requires m.maxDownloads.Null? && m.downloadCount == INT_MAX
    requires !m.IsExpired(now) && !m.IsPasswordProtected()
    ensures CheckDownload(m, Null, now, matches) == Pass
    ensures Downloaded(m).downloadCount == INT_MIN
  {
  }

  /** A download leaves the live count and the storage total as they were. */
  lemma DownloadKeepsAggregates(records: seq<FileMetadata>, m: FileMetadata)
    requires WellFormed(records) && m in records
    ensures CountByIsDeletedFalse(Replaced(records, Downloaded(m))) == CountByIsDeletedFalse(records)
    ensures CalculateTotalStorageUsed(Replaced(records, Downloaded(m))) == CalculateTotalStorageUsed(records)
  {
    FindByIdOfMember(records, m);
    AggregatesReplaced(records, Downloaded(m), m);
  }

  /** A successful download rewrites one record, and of it only the counter. */
  lemma DownloadChangesOnlyCounter(records: seq<FileMetadata>, m: FileMetadata)
    requires WellFormed(records) && m in records
    ensures var after := Replaced(records, Downloaded(m));
      |after| == |records| &&
      forall i :: 0 <= i < |records| ==>
        after[i] == (if records[i] == m then m.(downloadCount := Inc32(m.downloadCount)) else records[i])
  {
  }

  /** Deletion is terminal: afterwards the share token is "not found" for
      getFileInfo and downloadFile, and the delete token for deleteFile. */
  lemma DeleteIsTerminal(records: seq<FileMetadata>, m: FileMetadata)
    requires WellFormed(records) && m in records && !m.isDeleted
    ensures var after := Replaced(records, MarkedDeleted(m));
      WellFormed(after) &&
      FindFileByShareToken(after, m.shareToken) == Err(FileNotFound(DELETED_MESSAGE)) &&
      FindFileByDeleteToken(after, m.deleteToken) == Err(FileNotFound(ALREADY_DELETED_MESSAGE))
  {
    var after := Replaced(records, MarkedDeleted(m));
    FindByIdOfMember(records, m);
    UpdateKeepsWellFormed(records, MarkedDeleted(m));
    var k :| 0 <= k < |records| && records[k] == m;
    assert after[k] == MarkedDeleted(m);
    FindByShareTokenUnique(after, MarkedDeleted(m));
    FindByDeleteTokenUnique(after, MarkedDeleted(m));
  }

  /** A deleted record stays in the store, still deleted, through every
      change an operation makes: an insert, a download of a live record, and
      a deletion. */
  lemma DeletedStaysDeleted(records: seq<FileMetadata>, d: FileMetadata, m: FileMetadata, n: FileMetadata)
    requires WellFormed(records) && d in records && d.isDeleted
    requires m in records
    ensures d in records + [n]
    ensures !m.isDeleted ==> d in Replaced(records, Downloaded(m))
    ensures d in Replaced(records, MarkedDeleted(m))
  {
    var k :| 0 <= k < |records| && records[k] == d;
    var j :| 0 <= j < |records| && records[j] == m;
    assert (records + [n])[k] == d;
    ReplacedAt(records, MarkedDeleted(m), j, k);
    if k == j {
      assert MarkedDeleted(m) == d;
    } else {
      ReplacedAt(records, Downloaded(m), j, k);
      assert Replaced(records, Downloaded(m))[k] == d;
    }
    assert Replaced(records, MarkedDeleted(m))[k] == d;
  }

  /** The storage key is "uploads/", 22 random characters, '.' and the
      extension, so it outgrows its VARCHAR(255) column once the extension
      passes 224 characters. The file name, MIME type or uploader IP over 255
      characters makes the insert fail too. The blob is already written by
      then. */
  lemma OverlongColumnRefusesUpload(
    records: seq<FileMetadata>,
    file: MultipartFile, expiryHours: Nullable<Int32>, password: Nullable<string>,
    maxDownloads: Nullable<Int32>, uploaderIp: Nullable<string>,
    env: UploadEnvironment, defaultExpiryHours: Int32)
    requires WellSized(env)
    ensures |UploadedRecord(file, expiryHours, password, maxDownloads, uploaderIp, env,
                            defaultExpiryHours).storageKey|
         == 31 + |GetFileExtension(file.originalFilename)|
    ensures (|GetFileExtension(file.originalFilename)| > MAX_COLUMN_LENGTH - 31 ||
             (file.originalFilename.Present? && |file.originalFilename.value| > MAX_COLUMN_LENGTH) ||
             (file.contentType.Present? && |file.contentType.value| > MAX_COLUMN_LENGTH) ||
             (uploaderIp.Present? && |uploaderIp.value| > MAX_COLUMN_LENGTH)) ==>
      !InsertAllowed(records, UploadedRecord(file, expiryHours, password, maxDownloads,
                                             uploaderIp, env, defaultExpiryHours))
  {
    assert |Encode(env.nameRandom)| == 22;
  }

  /** uploadFile writes the blob before it inserts the record, so every
      outcome keeps each live record's blob in the bucket: a refused insert
      leaves only an extra blob behind. */
  lemma UploadKeepsLiveBlobs(records: seq<FileMetadata>, keys: set<string>, m: FileMetadata)
    requires LiveBlobsPresent(records, keys)
    ensures LiveBlobsPresent(records, keys + {m.storageKey})
    ensures LiveBlobsPresent(records + [m], keys + {m.storageKey})
  {
    forall n | n in records + [m] && !n.isDeleted
      ensures n.storageKey in keys + {m.storageKey}
    {
    }
  }

  /** Counting a download changes neither the storage key nor the deleted
      flag, so the invariant survives it. */
  lemma DownloadKeepsLiveBlobs(records: seq<FileMetadata>, keys: set<string>, m: FileMetadata)
    requires m in records
    ensures LiveBlobsPresent(records, keys) ==>
      LiveBlobsPresent(Replaced(records, Downloaded(m)), keys)
  {
    if LiveBlobsPresent(records, keys) {
      var r := Replaced(records, Downloaded(m));
      forall i | 0 <= i < |r| && !r[i].isDeleted ensures r[i].storageKey in keys {
        assert records[i] in records;
      }
    }
  }

  /** deleteFile removes a blob only while it marks its record deleted, so
      the invariant survives, given that no other live record shares the
      deleted record's storage key. */
  lemma DeleteKeepsLiveBlobs(records: seq<FileMetadata>, keys: set<string>, m: FileMetadata)
    requires WellFormed(records) && m in records && !m.isDeleted
    requires LiveBlobsPresent(records, keys) && LiveKeysDistinct(records)
    ensures LiveBlobsPresent(Replaced(records, MarkedDeleted(m)), keys - {m.storageKey})
  {
    var r := Replaced(records, MarkedDeleted(m));
    var k :| 0 <= k < |records| && records[k] == m;
    forall i | 0 <= i < |r| && !r[i].isDeleted ensures r[i].storageKey in keys - {m.storageKey} {
      ReplacedAt(records, MarkedDeleted(m), k, i);
      assert records[i] in records;
    }
  }

  /** While the invariant holds, a live record's blob is there, so a
      download that passes its checks fails only when the bucket cannot be
      reached. */
  lemma LiveRecordHasBlob(records: seq<FileMetadata>, keys: set<string>, m: FileMetadata)
    requires LiveBlobsPresent(records, keys) && m in records && !m.isDeleted
    ensures m.storageKey in keys
  {
  }

  /** What uploadFile stores: count 0, not deleted, a hash exactly when a
      non-empty password was given, the expiry offset from the first clock
      reading, and the storage key under "uploads/". */
  lemma UploadedRecordFields(
    file: MultipartFile, expiryHours: Nullable<Int32>, password: Nullable<string>,
    maxDownloads: Nullable<Int32>, uploaderIp: Nullable<string>,
    env: UploadEnvironment, defaultExpiryHours: Int32)
    requires WellSized(env)
    ensures var m := UploadedRecord(file, expiryHours, password, maxDownloads, uploaderIp,
                                    env, defaultExpiryHours);
      m.downloadCount == 0 && !m.isDeleted &&
      (m.passwordHash.Null? <==> !HasPassword(password)) &&
      (env.passwordDigest != "" ==> (m.IsPasswordProtected() <==> HasPassword(password))) &&
      m.expiryDate == env.expiryClock +
        (if expiryHours.Present? then expiryHours.value else defaultExpiryHours) * SECONDS_PER_HOUR &&
      m.uploadDate == env.uploadClock &&
      m.storageKey[..8] == "uploads/" &&
      |m.storageKey| == 31 + |GetFileExtension(file.originalFilename)| &&
      |m.shareToken| == 12 && |m.deleteToken| == 20 && m.deleteToken[..4] == "del_" &&
      m.shareToken != m.deleteToken
  {
    var m := UploadedRecord(file, expiryHours, password, maxDownloads, uploaderIp,
                            env, defaultExpiryHours);
    assert m.storageKey[..8] == STORAGE_PREFIX;
    assert m.deleteToken[..4] == DELETE_PREFIX;
  }

  /** The expiry lies after the upload instant only when the effective hours
      are positive and the two clock readings are less than an hour apart;
      then the new file is not expired at its upload instant. */
  lemma UploadExpiryAfterUpload(
    file: MultipartFile, expiryHours: Nullable<Int32>, password: Nullable<string>,
    maxDownloads: Nullable<Int32>, uploaderIp: Nullable<string>,
    env: UploadEnvironment, defaultExpiryHours: Int32)
    requires HoursUntilExpiry(expiryHours, defaultExpiryHours) > 0
    requires env.expiryClock <= env.uploadClock < env.expiryClock + SECONDS_PER_HOUR
    ensures var m := UploadedRecord(file, expiryHours, password, maxDownloads, uploaderIp,
                                    env, defaultExpiryHours);
      m.expiryDate > m.uploadDate && !m.IsExpired(m.uploadDate)
  {
  }

  /** A zero or negative expiryHours is not rejected: the stored file is
      expired as soon as the clock moves past the first reading. */
  lemma NonPositiveExpiryAccepted(
    file: MultipartFile, password: Nullable<string>,
    maxDownloads: Nullable<Int32>, uploaderIp: Nullable<string>,
    env: UploadEnvironment, defaultExpiryHours: Int32, hours: Int32)
    requires hours <= 0
    ensures var m := UploadedRecord(file, Present(hours), password, maxDownloads, uploaderIp,
                                    env, defaultExpiryHours);
      m.IsExpired(env.expiryClock + 1)
  {
  }

  /** Right after a successful insert the share token finds the new record,
      and its info shows no downloads and, before the expiry, not expired. */
  lemma UploadThenInfo(records: seq<FileMetadata>, m: FileMetadata, now: int)
    requires WellFormed(records) && InsertAllowed(records, m)
    requires !m.isDeleted && m.downloadCount == 0 && now <= m.expiryDate
    ensures FindFileByShareToken(records + [m], m.shareToken) == Ok(m)
    ensures InfoOf(m, now).downloadCount == 0 && !InfoOf(m, now).isExpired
    ensures InfoOf(m, now).fileName == m.originalFileName && InfoOf(m, now).fileSize == m.fileSize
  {
    InsertKeepsWellFormed(records, m);
    FindByShareTokenUnique(records + [m], m);
  }

  /** An uncapped, unprotected live file downloads again and again, the
      count going 0, 1, 2. */
  lemma UncappedDownloadsCount(m: FileMetadata, now: int, matches: (string, string) -> bool)
    requires m.maxDownloads.Null? && m.downloadCount == 0
    requires !m.IsExpired(now) && !m.IsPasswordProtected()
    ensures CheckDownload(m, Null, now, matches) == Pass
    ensures Downloaded(m).downloadCount == 1
    ensures CheckDownload(Downloaded(m), Null, now, matches) == Pass
    ensures Downloaded(Downloaded(m)).downloadCount == 2
  {
  }
}
