/** FileMetadata: the stored record of one uploaded file and the three
    predicates the service decides with. */
module Entity {
  import opened JavaLang

  /** The text form of the UUID the metadata store assigns to a record. */
  type Uuid = string

  /** Instants are whole seconds on one clock; plusHours(h) adds h hours. */
  const SECONDS_PER_HOUR: int := 3600

  datatype FileMetadata = FileMetadata(
    id: Uuid,
    originalFileName: Nullable<string>,   // column is NOT NULL
    fileSize: int,
    mimeType: Nullable<string>,           // column is NOT NULL
    storageKey: string,
    shareToken: string,                   // column is UNIQUE
    deleteToken: string,                  // column is UNIQUE
    passwordHash: Nullable<string>,
    uploadDate: int,
    expiryDate: int,
    downloadCount: Int32,
    maxDownloads: Nullable<Int32>,
    isDeleted: bool,
    uploaderIp: Nullable<string>)
  {
    /** isExpired: the clock reads strictly after the expiry instant. */
    predicate IsExpired(now: int)
    {
      now > expiryDate
    }

    /** isDownloadLimitReached: a cap is set and the count has reached it. */
    predicate IsDownloadLimitReached()
    {
      maxDownloads.Present? && downloadCount >= maxDownloads.value
    }

    /** isPasswordProtected: a non-empty hash is stored. */
    predicate IsPasswordProtected()
    {
      passwordHash.Present? && |passwordHash.value| > 0
    }
  }

  /** FileMetadata.builder()...build(): the two @Builder.Default fields take
      0 and false when the builder is not given them (None). */
  function Build(
    id: Uuid, originalFileName: Nullable<string>, fileSize: int, mimeType: Nullable<string>,
    storageKey: string, shareToken: string, deleteToken: string, passwordHash: Nullable<string>,
    uploadDate: int, expiryDate: int, downloadCount: Option<Int32>, maxDownloads: Nullable<Int32>,
    isDeleted: Option<bool>, uploaderIp: Nullable<string>): FileMetadata
  {
    FileMetadata(id, originalFileName, fileSize, mimeType, storageKey, shareToken, deleteToken,
      passwordHash, uploadDate, expiryDate,
      if downloadCount.Some? then downloadCount.value else 0,
      maxDownloads,
      if isDeleted.Some? then isDeleted.value else false,
      uploaderIp)
  }

  /** A record built without a count or a deleted flag starts at count 0 and
      not deleted; with a cap of 0 it is at its limit from creation, and with
      no cap it is not. */
  lemma BuilderDefaults(
    id: Uuid, originalFileName: Nullable<string>, fileSize: int, mimeType: Nullable<string>,
    storageKey: string, shareToken: string, deleteToken: string, passwordHash: Nullable<string>,
    uploadDate: int, expiryDate: int, maxDownloads: Nullable<Int32>, uploaderIp: Nullable<string>)
    ensures var m := Build(id, originalFileName, fileSize, mimeType, storageKey, shareToken,
      deleteToken, passwordHash, uploadDate, expiryDate, None, maxDownloads, None, uploaderIp);
      m.downloadCount == 0 && !m.isDeleted &&
      (maxDownloads == Present(0) ==> m.IsDownloadLimitReached()) &&
      (maxDownloads.Null? ==> !m.IsDownloadLimitReached())
  {
  }

  /** Expiry is strict: a file is still available at its expiry instant and
      expired one second later. */
  lemma ExpiryIsStrict(m: FileMetadata)
    ensures !m.IsExpired(m.expiryDate)
    ensures m.IsExpired(m.expiryDate + 1)
    ensures forall now :: now < m.expiryDate ==> !m.IsExpired(now)
  {
  }

  /** An absent cap is never reached; a present one is reached exactly when
      the count is at or above it. */
  lemma LimitReachedIff(m: FileMetadata)
    ensures m.maxDownloads.Null? ==> !m.IsDownloadLimitReached()
    ensures m.maxDownloads.Present? ==>
      (m.IsDownloadLimitReached() <==> m.downloadCount >= m.maxDownloads.value)
  {
  }

  /** A null hash and an empty hash both leave a file unprotected. */
  lemma ProtectionNeedsNonEmptyHash(m: FileMetadata)
    ensures m.passwordHash == Null ==> !m.IsPasswordProtected()
    ensures m.passwordHash == Present("") ==> !m.IsPasswordProtected()
    ensures m.passwordHash.Present? && m.passwordHash.value != "" ==> m.IsPasswordProtected()
  {
  }
}
