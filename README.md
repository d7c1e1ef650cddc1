# File store: lifecycle and access-control model

A Dafny model of the core of a small file-sharing service. A client uploads
a file and gets back two links. The share link serves `getFileInfo` and
`downloadFile`. The delete link serves `deleteFile`. Each stored file has a
metadata record in a relational store and an object in a blob store.

The model follows the program's structure, one module per source file:

- `JavaLang`: the Java platform pieces the core depends on. These are null
  references, `Optional`, 32-bit `int` increment, ASCII `toLowerCase` and
  `equalsIgnoreCase`, decimal formatting and `String.join`.
- `Exceptions`: the exceptions the core throws, and `GlobalExceptionHandler`'s
  table from exception to HTTP status and error body.
- `Entity`: the `FileMetadata` record, its builder defaults, and its three
  predicates: expired, download limit reached, password protected.
- `Repository`: the repository's finders and JPQL queries, as functions over
  the stored records. The class `FileMetadataRepository` holds those records.
  It splits `save` into an insert, which the unique and not-null constraints
  can refuse, and an update of a managed entity. It also models a
  transaction rollback.
- `TokenGenerator`: unpadded base64url tokens (section 5 of RFC 4648, with
  the padding of section 3.2 omitted), a decoder, and a proof that decoding
  undoes encoding. `GenerateToken` fills a fresh byte array with the random
  bytes and then encodes it.
- `FileValidator`: the empty, size-ceiling and allow-list checks, and
  extension extraction.
- `FileController`: the client-IP header fallback.
- `Service`: the blob store, a class holding a set of object keys, and
  `FileService` with upload, info, download and delete.

Inputs from outside the program are parameters:

- the clock is an integer count of seconds;
- the random bytes, the UUID the store assigns and the BCrypt digest are
  fields of `UploadEnvironment`;
- BCrypt's password check is the function parameter `matches`;
- whether each blob-store network call succeeds is a boolean parameter.

A failing operation returns an `Err` or `Fail` value and leaves the metadata
store as it was. This models `@Transactional`. The blob store is not
transactional. So a blob written before a refused insert stays there, as it
does in the code. The only metadata-store failure modelled is a refused
insert; a failing save or commit in the other operations is not modelled.

## Model

| member | source | states |
|---|---|---|
| JavaLang.Inc32 | src/main/java/com/filestore/service/FileService.java:131 | `getDownloadCount() + 1` on a Java int is two's-complement addition modulo 2^32: Integer.MAX_VALUE wraps to Integer.MIN_VALUE |
| JavaLang.ToLowerCase | src/main/java/com/filestore/util/FileValidator.java:34 | the lower-cased extension has the same length, holds no upper-case letter A-Z, and equals the original ignoring case |
| JavaLang.LowerCaseIdempotent | src/main/java/com/filestore/util/FileValidator.java:34 | lower-casing an already lower-cased extension changes nothing |
| JavaLang.EqualsIgnoreCaseIffSameLowerCase | src/main/java/com/filestore/controller/FileController.java:69 | two strings are equal ignoring case exactly when their lower-cased forms are equal |
| Exceptions.StatusOf | src/main/java/com/filestore/exception/GlobalExceptionHandler.java:16-45 | every exception gets one of 404, 410, 401, 413 or 500; it gets 500 exactly when no specific handler matches: the validator's IllegalArgumentException, storage failures and constraint violations |
| Exceptions.HandleException | src/main/java/com/filestore/exception/GlobalExceptionHandler.java:16-54 | the response status is the exception's StatusOf status and the body repeats it; its timestamp is the clock reading; its error is the reason phrase; the message is the exception's own for a handled exception, the fixed text for MaxUploadSizeExceeded, and prefixed "An unexpected error occurred: " for the generic case |
| Exceptions.StatusTable | src/main/java/com/filestore/exception/GlobalExceptionHandler.java:16-39 | not found 404, expired 410, invalid password 401, both size-limit exceptions 413; MaxUploadSizeExceeded carries "File size exceeds maximum limit" |
| Exceptions.ValidatorRejectionIsServerError | src/main/java/com/filestore/exception/GlobalExceptionHandler.java:41-45 | an IllegalArgumentException from the validator is answered 500 with the generic prefix |
| FileController.GetClientIp | src/main/java/com/filestore/controller/FileController.java:67-78 | x-forwarded-for when usable, else X-Real-IP when usable, else the remote address; a header is usable when present, non-empty and not "unknown" ignoring case; a header value is returned only if usable |
| FileController.UnknownInAnyCaseFallsThrough | src/main/java/com/filestore/controller/FileController.java:69-74 | "UNKNOWN" falls through like "unknown", and so does an empty header |
| Entity.BuilderDefaults | src/main/java/com/filestore/model/entity/FileMetadata.java:54-63 | a record built without a count or a deleted flag has count 0 and is not deleted; with cap 0 it is at its limit from creation, and with no cap it never is |
| Entity.ExpiryIsStrict | src/main/java/com/filestore/model/entity/FileMetadata.java:76-78 | a file is not expired at or before its expiry instant and is expired one second after it |
| Entity.LimitReachedIff | src/main/java/com/filestore/model/entity/FileMetadata.java:80-82 | an absent cap is never reached; a present cap is reached exactly when the count is at or above it |
| Entity.ProtectionNeedsNonEmptyHash | src/main/java/com/filestore/model/entity/FileMetadata.java:84-86 | a null or empty hash leaves a file unprotected; a non-empty hash protects it |
| Repository.FindByShareToken | src/main/java/com/filestore/repository/FileMetadataRepository.java:16 | a found record is stored and holds the token; none is found exactly when no stored record holds it |
| Repository.FindByDeleteToken | src/main/java/com/filestore/repository/FileMetadataRepository.java:18 | a found record is stored and holds the delete token; none is found exactly when no stored record holds it |
| Repository.FindById | src/main/java/com/filestore/repository/FileMetadataRepository.java:14 | a found record is stored and has the id; none is found exactly when no stored record has it |
| Repository.FindByShareTokenUnique | src/main/java/com/filestore/model/entity/FileMetadata.java:39-40 | with the unique share-token column, the finder returns the one record holding the token |
| Repository.FindByDeleteTokenUnique | src/main/java/com/filestore/model/entity/FileMetadata.java:42-43 | with the unique delete-token column, the finder returns the one record holding the token |
| Repository.FindByExpiredFiles | src/main/java/com/filestore/repository/FileMetadataRepository.java:20-21 | a record is in the result exactly when it is stored, not deleted, and its expiry is before `now`; each such record appears as often as it is stored |
| Repository.ExpiredQueryAgreesWithIsExpired | src/main/java/com/filestore/repository/FileMetadataRepository.java:20-21 | the sweep query returns exactly the live records the entity's own isExpired calls expired at the same instant |
| Repository.FindRecentFilesByIp | src/main/java/com/filestore/repository/FileMetadataRepository.java:23-24 | a record is in the result exactly when its uploader IP equals a non-null `ip` and it was uploaded after `since`, deleted or not, as often as it is stored; a null ip matches nothing |
| Repository.CountByIsDeletedFalse | src/main/java/com/filestore/repository/FileMetadataRepository.java:26 | the count is at most the number of records and is 0 exactly when every record is deleted |
| Repository.CalculateTotalStorageUsed | src/main/java/com/filestore/repository/FileMetadataRepository.java:28-29 | the sum is 0 when every record is deleted (the COALESCE) and is non-negative when sizes are |
| Repository.LiveRecords | src/main/java/com/filestore/repository/FileMetadataRepository.java:26-29 | the rows both aggregates range over: exactly the stored records that are not deleted, each live record kept as many times as it is stored and no deleted record kept |
| Repository.AggregatesOverLiveRecords | src/main/java/com/filestore/repository/FileMetadataRepository.java:26-29 | the count equals the number of live records and the total equals the sum of their sizes |
| Repository.AggregatesAppend | src/main/java/com/filestore/repository/FileMetadataRepository.java:26-29 | a new record adds 1 to the count and its size to the total when it is live, and nothing otherwise |
| Repository.AggregatesReplaced | src/main/java/com/filestore/repository/FileMetadataRepository.java:26-29 | overwriting a stored record swaps its contribution to the count and the total for that of the new version |
| Repository.InsertKeepsWellFormed | src/main/java/com/filestore/model/entity/FileMetadata.java:23-43 | inserting a record whose id and tokens are new and whose not-null columns are filled keeps ids and both tokens unique |
| Repository.UpdateKeepsWellFormed | src/main/java/com/filestore/model/entity/FileMetadata.java:23-43 | overwriting a stored record with one that keeps its id and tokens keeps ids and both tokens unique |
| Repository.FileMetadataRepository.Insert | src/main/java/com/filestore/service/FileService.java:79 | save of a new entity: it succeeds exactly when no constraint is violated (a new id and new tokens, a filled name and MIME type, every String column at most 255 characters), and then the record is appended; otherwise the store is unchanged |
| Repository.FileMetadataRepository.Update | src/main/java/com/filestore/service/FileService.java:131-132 | save of a managed entity overwrites the record with the same id and keeps the constraints |
| Repository.FileMetadataRepository.Rollback | src/main/java/com/filestore/service/FileService.java:110-111 | a transaction that throws leaves the store as it was when it began |
| TokenGenerator.Symbol | src/main/java/com/filestore/util/TokenGenerator.java:12 | each 6-bit value maps to a URL-safe character, never '=', that decodes back to the value |
| TokenGenerator.DecodeSymbolsEncode | src/main/java/com/filestore/util/TokenGenerator.java:12 | decoding the characters of an encoding gives back the bytes, by induction over groups of three |
| TokenGenerator.DecodeEncode | src/main/java/com/filestore/util/TokenGenerator.java:12-17 | the unpadded decoder accepts every encoding and returns the encoded bytes |
| TokenGenerator.EncodeInjective | src/main/java/com/filestore/util/TokenGenerator.java:14-18 | distinct byte inputs give distinct tokens |
| TokenGenerator.EncodedLengthIsCeiling | src/main/java/com/filestore/util/TokenGenerator.java:12-17 | an encoding of n bytes has ceil(4n/3) characters and contains no '=' |
| TokenGenerator.GenerateToken | src/main/java/com/filestore/util/TokenGenerator.java:14-18 | the array filled in place from the random bytes encodes to the base64url text of those bytes, of length (4n+2)/3 |
| TokenGenerator.GenerateShareToken | src/main/java/com/filestore/util/TokenGenerator.java:20-22 | a share token is 12 URL-safe characters |
| TokenGenerator.GenerateDeleteToken | src/main/java/com/filestore/util/TokenGenerator.java:24-26 | a delete token is "del_" and 16 URL-safe characters, 20 in all; every character of the whole token is URL-safe |
| TokenGenerator.GenerateStorageFileName | src/main/java/com/filestore/util/TokenGenerator.java:28-30 | a storage name is 22 URL-safe characters, '.', then the extension (so an empty extension leaves a trailing '.') |
| TokenGenerator.DeleteTokenIsNotShareToken | src/main/java/com/filestore/util/TokenGenerator.java:20-26 | a delete token never equals a share token |
| TokenGenerator.ShareTokenInjective | src/main/java/com/filestore/util/TokenGenerator.java:20-22 | distinct random bytes give distinct share tokens |
| TokenGenerator.DeleteTokenInjective | src/main/java/com/filestore/util/TokenGenerator.java:24-26 | distinct random bytes give distinct delete tokens |
| FileValidator.LastIndexOf | src/main/java/com/filestore/util/FileValidator.java:47 | the result is -1 exactly when the character is absent; otherwise it is the position of an occurrence with none after it |
| FileValidator.ExtensionEmptyIff | src/main/java/com/filestore/util/FileValidator.java:42-50 | the extension is empty exactly for a null name, a name without '.', or a name ending in '.' |
| FileValidator.ExtensionIsLastSegment | src/main/java/com/filestore/util/FileValidator.java:47-52 | a non-empty extension contains no '.' and the name is a prefix, '.', then the extension |
| FileValidator.ExtensionOfSplit | src/main/java/com/filestore/util/FileValidator.java:47-52 | conversely, prefix + "." + ext with ext non-empty and free of '.' has extension ext |
| FileValidator.DotFileExtension | src/main/java/com/filestore/util/FileValidator.java:47-52 | ".bashrc" has extension "bashrc" |
| FileValidator.ValidateFilePassIff | src/main/java/com/filestore/util/FileValidator.java:19-40 | a file passes exactly when it is non-empty, no larger than the ceiling, and of an allowed type |
| FileValidator.EmptyFileRejectedFirst | src/main/java/com/filestore/util/FileValidator.java:21-23 | an empty file fails with IllegalArgumentException "File is empty" whatever the ceiling and allow-list |
| FileValidator.SizeCeilingInclusive | src/main/java/com/filestore/util/FileValidator.java:25-30 | a non-empty file fails with FileSizeLimitExceeded exactly when it exceeds the ceiling; a file of exactly the ceiling goes on to the type check |
| FileValidator.EmptyAllowListDisablesTypeCheck | src/main/java/com/filestore/util/FileValidator.java:32 | with an empty allow-list any non-empty file within the ceiling passes |
| FileValidator.AllowListIsCaseSensitiveOnEntries | src/main/java/com/filestore/util/FileValidator.java:32-38 | the extension is lower-cased but the entries are not: "PDF" admits nothing, "pdf" admits "a.PDF" |
| FileValidator.TypeRejectionIsIllegalArgument | src/main/java/com/filestore/util/FileValidator.java:32-38 | a disallowed type is reported as IllegalArgumentException |
| Service.BlobStore.PutObject | src/main/java/com/filestore/service/StorageService.java:59-77 | on success the key is in the bucket; on a network failure nothing changes |
| Service.BlobStore.GetObject | src/main/java/com/filestore/service/StorageService.java:79-91 | a stream opens exactly when the store is reachable and the key exists |
| Service.BlobStore.RemoveObject | src/main/java/com/filestore/service/StorageService.java:93-105 | on success the key is gone; on a network failure nothing changes |
| Service.FindFileByShareToken | src/main/java/com/filestore/service/FileService.java:164-173 | a result is a stored, live record holding the token; every failure is FileNotFound |
| Service.FindFileByDeleteToken | src/main/java/com/filestore/service/FileService.java:149-154 | a result is a stored, live record holding the delete token; every failure is FileNotFound |
| Service.FindFileByShareTokenIff | src/main/java/com/filestore/service/FileService.java:164-173 | in a well-formed store the lookup succeeds exactly when a live record holds the token |
| Service.FileService.UploadFile | src/main/java/com/filestore/service/FileService.java:40-92 | a rejected file or an unreachable blob store changes nothing; otherwise the blob key is added, and either the built record is appended and the response carries the id, contextPath + "/f/" + share token, contextPath + "/delete/" + delete token and the expiry, or the insert is refused and only the blob remains; every outcome keeps the blob of each live record in the bucket |
| Service.FileService.GetFileInfo | src/main/java/com/filestore/service/FileService.java:94-108 | changes nothing; an unknown token fails "File not found", a deleted record "File has been deleted", otherwise it reports the record's fields, protection and expiry |
| Service.FileService.DownloadFile | src/main/java/com/filestore/service/FileService.java:110-145 | the outcome is not found, deleted, the first failing policy check, a storage failure, or the file; only success changes the store, by overwriting the record with its count incremented; the blob of each live record stays in the bucket |
| Service.OverlongColumnRefusesUpload | src/main/java/com/filestore/model/entity/FileMetadata.java:27-37 | the storage key is 31 characters plus the extension; an extension over 224 characters, or a file name, MIME type or uploader IP over 255, makes the upload's insert fail |
| Service.SavesAllowed | src/main/java/com/filestore/service/FileService.java:131-132 | the counter save and the deleted-flag save of a stored record are both admissible updates |
| Service.UploadKeepsLiveBlobs | src/main/java/com/filestore/service/FileService.java:54-79 | the blob is written before the insert, so both a completed and a refused upload keep every live record's blob in the bucket |
| Service.DownloadKeepsLiveBlobs | src/main/java/com/filestore/service/FileService.java:131-132 | counting a download keeps every live record's blob in the bucket |
| Service.DeleteKeepsLiveBlobs | src/main/java/com/filestore/service/FileService.java:156-159 | removing the blob while marking its record deleted keeps every other live record's blob, given that no two live records share a storage key |
| Service.LiveRecordHasBlob | src/main/java/com/filestore/service/FileService.java:134 | while the invariant holds, a live record's blob exists, so a download that passes its checks fails only when the bucket is unreachable |
| Service.DownloadKeepsAggregates | src/main/java/com/filestore/service/FileService.java:131-132 | a download leaves countByisDeletedFalse and calculateTotalStorageUsed unchanged |
| Service.FileService.DeleteFile | src/main/java/com/filestore/service/FileService.java:147-162 | unknown token or already deleted fails NotFound; an unreachable blob store fails; otherwise the blob key is removed, the record is marked deleted, the live count drops by 1 and the total by its size; a failure changes nothing; when no two live records share a storage key, the blob of each remaining live record stays in the bucket |
| Service.InfoShowsExpiredFiles | src/main/java/com/filestore/service/FileService.java:94-107 | a live record past its expiry is still found and reported expired, with its protection flag |
| Service.CheckDownloadOrder | src/main/java/com/filestore/service/FileService.java:114-129 | expiry is checked before the cap, and both fail FileExpired; a missing password on a protected file fails "Password is required"; a download passes exactly when not expired, under the cap, and unprotected or the password matches |
| Service.PasswordGate | src/main/java/com/filestore/service/FileService.java:122-129 | for a protected file a null or empty password is "required", a wrong one "invalid", the right one passes |
| Service.DownloadStaysWithinCap | src/main/java/com/filestore/service/FileService.java:118-131 | a passing download of a capped file raises the count by exactly one and leaves it at or below the cap |
| Service.CapOfOneAllowsOneDownload | src/main/java/com/filestore/service/FileService.java:118-131 | with cap 1 the first download passes and every later one fails FileExpired |
| Service.UncappedCounterWraps | src/main/java/com/filestore/service/FileService.java:131 | without a cap nothing stops the counter, and the download after Integer.MAX_VALUE stores Integer.MIN_VALUE |
| Service.UncappedDownloadsCount | src/main/java/com/filestore/service/FileService.java:118-132 | an uncapped, unprotected live file downloads repeatedly, the count going 0, 1, 2 |
| Service.DownloadChangesOnlyCounter | src/main/java/com/filestore/service/FileService.java:131-132 | after a download the downloaded record differs only in its count, and every other record is unchanged |
| Service.DeleteIsTerminal | src/main/java/com/filestore/service/FileService.java:147-173 | after a delete the store stays well formed, the share token gives "File has been deleted" and the delete token "File has already been deleted" |
| Service.DeletedStaysDeleted | src/main/java/com/filestore/service/FileService.java:152-159 | a deleted record stays stored and deleted through an insert, a download of a live record and a delete |
| Service.UploadedRecordFields | src/main/java/com/filestore/service/FileService.java:50-77 | the new record has count 0, is not deleted, has a hash exactly when a non-empty password was given, has expiry = first clock reading + hours, a key under "uploads/", a 12-character share token and a "del_" delete token different from it |
| Service.UploadExpiryAfterUpload | src/main/java/com/filestore/service/FileService.java:60-71 | with positive hours and the two clock readings less than an hour apart, expiry lies after upload and the file is not expired at upload |
| Service.NonPositiveExpiryAccepted | src/main/java/com/filestore/service/FileService.java:60-61 | zero or negative expiryHours is accepted and gives a file expired one second after the first clock reading |
| Service.UploadThenInfo | src/main/java/com/filestore/service/FileService.java:79-107 | after an insert the share token finds the new record, whose info shows count 0, not expired before its expiry, and its name and size |

## Left out

- StorageService's MinIO client is reduced to a set of object keys with a reachability flag per call. Object contents, content types, bucket set-up and the `InputStream` a download returns are not modelled. A download result names the key it streams.
- PasswordUtil and BCrypt are not part of this model. The digest is an input to the upload, and verification is the uninterpreted function `matches`.
- `SecureRandom`, `LocalDateTime.now()` and UUID generation are inputs. Instants are whole seconds, so sub-second precision is not modelled.
- `formatFileSize` is left out, because it uses floating point (`Math.log`, `Math.pow`).
- Concurrency is left out. Each operation runs alone, so two downloads or deletes racing on one record are not modelled.
- Logging, Spring wiring, the rest of FileController's HTTP handling, HealthController and the DTO builders are left out. The DTOs appear only as result datatypes.
- The `createdAt` and `updatedAt` timestamps of FileMetadata are not modelled, because no decision reads them.
- Repository.FileMetadataRepository.Insert: the message of the persistence provider's constraint exception is the placeholder `CONSTRAINT_MESSAGE`; only its kind and the 500 it maps to are modelled.
- JavaLang.ToLowerCase: only ASCII letters are folded. Java's `toLowerCase()` uses the JVM's default locale and full Unicode case mapping; neither is modelled. Under a Turkish default locale "GIF" lower-cases to "gıf" (dotless i), so Java rejects "a.GIF" against the allow-list entry "gif" while `FileValidator.TypeAllowed` accepts it.
- JavaLang.EqualsIgnoreCase: only ASCII letters are compared without case. Java's `equalsIgnoreCase` also folds non-ASCII characters, for example U+212A KELVIN SIGN to 'k'.
- FileController.GetClientIp: inherits the ASCII-only comparison above. For an x-forwarded-for value "un\u212Anown" (with the Kelvin sign) Java treats the header as "unknown" and falls through to X-Real-IP, while the model returns the header value.
- Service.FileService.DeleteFile: the metadata save and the transaction commit are assumed to succeed once `removeObject` has. In the code (FileService.java:156-159) a failing save or commit after the blob is removed rolls back only the record, which then stays live without its blob, so later downloads of it fail with a server error. The model's failure case covers only the unreachable blob store, which changes nothing.
- Repository.CalculateTotalStorageUsed: the sum is an unbounded integer. Overflow of the SQL `SUM` into a Java `Long` is not modelled.
- Service.UploadedRecord: `plusHours` is integer addition of seconds. LocalDateTime's year-range overflow is not modelled.
- Service.FileService.UploadFile: a storage-key collision overwrites an existing blob, as `putObject` does. Keys are 16 random bytes, so the model does not assume keys are unique. The blob written before a refused insert is left behind, as in the code.
- Service.FileService.DownloadFile: when the blob fetch fails after the counter was saved, the transaction rollback is modelled by restoring the snapshot taken at the start.
- Repository.WellFormed states the primary key, the two unique token columns, and the not-null name and MIME type. The other not-null columns are always filled by construction. The 255-character length of the String columns is checked when a row is inserted (`Repository.ColumnsFit` in `InsertAllowed`) but is not repeated in WellFormed: an update only changes the counter or the deleted flag, so it never lengthens a column.
- Repository.ColumnsFit: the String columns set no `length`, so the JPA default of 255 is taken as the column size, and a longer value is taken to make the insert fail, as it does in a database that enforces VARCHAR lengths. A database that silently truncates is not modelled.
- Service.DeleteKeepsLiveBlobs: the code does not check that storage keys are unique. They hold 16 random bytes, so the invariant is proved for deletion only when no two live records share a key.
- StorageService.fileExists is never called by FileService and is not modelled.
