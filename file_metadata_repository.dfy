/** FileMetadataRepository: the metadata store. Its finders and its
    declarative JPQL queries are functions over the stored records; save()
    is the store's one mutator, split into its insert path (a new entity is
    persisted) and its update path (a managed entity is written back). */
module Repository {
  import opened JavaLang
  import opened Entity

  /** The columns declared NOT NULL that an upload can leave null. */
  predicate NotNullColumns(m: FileMetadata)
  {
    m.originalFileName.Present? && m.mimeType.Present?
  }

  /** The length of a String column whose @Column sets none: VARCHAR(255). */
  const MAX_COLUMN_LENGTH: nat := 255

  /** No String column of the row is longer than its declared length. */
  predicate ColumnsFit(m: FileMetadata)
  {
    (m.originalFileName.Present? ==> |m.originalFileName.value| <= MAX_COLUMN_LENGTH) &&
    (m.mimeType.Present? ==> |m.mimeType.value| <= MAX_COLUMN_LENGTH) &&
    |m.storageKey| <= MAX_COLUMN_LENGTH &&
    |m.shareToken| <= MAX_COLUMN_LENGTH &&
    |m.deleteToken| <= MAX_COLUMN_LENGTH &&
    (m.passwordHash.Present? ==> |m.passwordHash.value| <= MAX_COLUMN_LENGTH) &&
    (m.uploaderIp.Present? ==> |m.uploaderIp.value| <= MAX_COLUMN_LENGTH)
  }

  /** The store's constraints: the primary key and the two unique token
      columns hold distinct values, and the not-null columns are filled. */
  predicate WellFormed(records: seq<FileMetadata>)
  {
    (forall i, j :: 0 <= i < |records| && 0 <= j < |records| && i != j ==>
      records[i].id != records[j].id &&
      records[i].shareToken != records[j].shareToken &&
      records[i].deleteToken != records[j].deleteToken) &&
    (forall i :: 0 <= i < |records| ==> NotNullColumns(records[i]))
  }

  /** findByShareToken. */
  function FindByShareToken(records: seq<FileMetadata>, token: string): (r: Option<FileMetadata>)
    ensures r.Some? ==> r.value in records && r.value.shareToken == token
    ensures r.None? <==> forall m :: m in records ==> m.shareToken != token
    decreases |records|
  {
    if |records| == 0 then None
    else if records[0].shareToken == token then Some(records[0])
    else FindByShareToken(records[1..], token)
  }

  /** findByDeleteToken. */
  function FindByDeleteToken(records: seq<FileMetadata>, token: string): (r: Option<FileMetadata>)
    ensures r.Some? ==> r.value in records && r.value.deleteToken == token
    ensures r.None? <==> forall m :: m in records ==> m.deleteToken != token
    decreases |records|
  {
    if |records| == 0 then None
    else if records[0].deleteToken == token then Some(records[0])
    else FindByDeleteToken(records[1..], token)
  }

  /** findById, which save() uses to tell an update from an insert. */
  function FindById(records: seq<FileMetadata>, id: Uuid): (r: Option<FileMetadata>)
    ensures r.Some? ==> r.value in records && r.value.id == id
    ensures r.None? <==> forall m :: m in records ==> m.id != id
    decreases |records|
  {
    if |records| == 0 then None
    else if records[0].id == id then Some(records[0])
    else FindById(records[1..], id)
  }

  /** In a well-formed store the share-token finder returns the one record
      holding that token. */
  lemma FindByShareTokenUnique(records: seq<FileMetadata>, m: FileMetadata)
    requires WellFormed(records) && m in records
    ensures FindByShareToken(records, m.shareToken) == Some(m)
  {
    var r := FindByShareToken(records, m.shareToken).value;
    var i :| 0 <= i < |records| && records[i] == m;
    var j :| 0 <= j < |records| && records[j] == r;
    assert i == j;
  }

  /** In a well-formed store the delete-token finder returns the one record
      holding that token. */
  lemma FindByDeleteTokenUnique(records: seq<FileMetadata>, m: FileMetadata)
    requires WellFormed(records) && m in records
    ensures FindByDeleteToken(records, m.deleteToken) == Some(m)
  {
    var r := FindByDeleteToken(records, m.deleteToken).value;
    var i :| 0 <= i < |records| && records[i] == m;
    var j :| 0 <= j < |records| && records[j] == r;
    assert i == j;
  }

  /** A non-empty sequence holds its head once more than its tail does. */
  lemma MultisetOfCons(records: seq<FileMetadata>)
    requires |records| > 0
    ensures multiset(records) == multiset{records[0]} + multiset(records[1..])
  {
    assert records == [records[0]] + records[1..];
  }

  /** findByExpiredFiles(now): `expiryDate < :now AND isDeleted = false`. */
  function FindByExpiredFiles(records: seq<FileMetadata>, now: int): (r: seq<FileMetadata>)
    ensures |r| <= |records|
    ensures forall m :: m in r <==> m in records && m.expiryDate < now && !m.isDeleted
    ensures forall m :: multiset(r)[m] ==
                       if m.expiryDate < now && !m.isDeleted then multiset(records)[m] else 0
    decreases |records|
  {
    if |records| == 0 then []
    else
      var rest := FindByExpiredFiles(records[1..], now);
      MultisetOfCons(records);
      if records[0].expiryDate < now && !records[0].isDeleted then [records[0]] + rest else rest
  }

  /** The sweep query returns exactly the live records the entity itself
      calls expired at the same instant. */
  lemma ExpiredQueryAgreesWithIsExpired(records: seq<FileMetadata>, now: int)
    ensures forall m :: m in FindByExpiredFiles(records, now) <==>
      m in records && !m.isDeleted && m.IsExpired(now)
  {
  }

  /** findRecentFilesByIp(ip, since): `uploaderIp = :ip AND uploadDate > :since`,
      deleted records included. SQL equality with NULL is never true, so a
      null ip matches nothing and a record without an ip is never matched. */
  function FindRecentFilesByIp(records: seq<FileMetadata>, ip: Nullable<string>, since: int): (r: seq<FileMetadata>)
    ensures |r| <= |records|
    ensures forall m :: m in r <==>
      m in records && ip.Present? && m.uploaderIp == ip && m.uploadDate > since
    ensures forall m :: multiset(r)[m] ==
                       if ip.Present? && m.uploaderIp == ip && m.uploadDate > since
                       then multiset(records)[m] else 0
    ensures ip.Null? ==> r == []
    decreases |records|
  {
    if |records| == 0 then []
    else
      var rest := FindRecentFilesByIp(records[1..], ip, since);
      MultisetOfCons(records);
      if ip.Present? && records[0].uploaderIp == ip && records[0].uploadDate > since
      then [records[0]] + rest else rest
  }

  /** The count a record adds to countByisDeletedFalse. */
  function LiveWeight(m: FileMetadata): nat
  {
    if m.isDeleted then 0 else 1
  }

  /** The size a record adds to calculateTotalStorageUsed. */
  function LiveSize(m: FileMetadata): int
  {
    if m.isDeleted then 0 else m.fileSize
  }

  /** countByisDeletedFalse. */
  function CountByIsDeletedFalse(records: seq<FileMetadata>): (r: nat)
    ensures r <= |records|
    ensures r == 0 <==> forall m :: m in records ==> m.isDeleted
    decreases |records|
  {
    if |records| == 0 then 0
    else LiveWeight(records[0]) + CountByIsDeletedFalse(records[1..])
  }

  /** calculateTotalStorageUsed: `COALESCE(SUM(fileSize), 0)` over the
      records not deleted. */
  function CalculateTotalStorageUsed(records: seq<FileMetadata>): (r: int)
    ensures (forall m :: m in records ==> m.isDeleted) ==> r == 0
    ensures (forall m :: m in records ==> m.fileSize >= 0) ==> r >= 0
    decreases |records|
  {
    if |records| == 0 then 0
    else LiveSize(records[0]) + CalculateTotalStorageUsed(records[1..])
  }

  /** The records not deleted, in stored order: the rows both aggregate
      queries range over. */
  function LiveRecords(records: seq<FileMetadata>): (r: seq<FileMetadata>)
    ensures |r| <= |records|
    ensures forall m :: m in r <==> m in records && !m.isDeleted
    ensures forall m :: multiset(r)[m] == if m.isDeleted then 0 else multiset(records)[m]
    decreases |records|
  {
    if |records| == 0 then []
    else
      var rest := LiveRecords(records[1..]);
      MultisetOfCons(records);
      if records[0].isDeleted then rest else [records[0]] + rest
  }

  /** SUM(fileSize) over rows, unfiltered. */
  function SumOfSizes(rows: seq<FileMetadata>): int
    decreases |rows|
  {
    if |rows| == 0 then 0 else rows[0].fileSize + SumOfSizes(rows[1..])
  }

  /** countByisDeletedFalse is the number of live records, and
      calculateTotalStorageUsed is the sum of their sizes. */
  lemma {:induction false} AggregatesOverLiveRecords(records: seq<FileMetadata>)
    ensures CountByIsDeletedFalse(records) == |LiveRecords(records)|
    ensures CalculateTotalStorageUsed(records) == SumOfSizes(LiveRecords(records))
    decreases |records|
  {
    if |records| > 0 {
      AggregatesOverLiveRecords(records[1..]);
      var rest := LiveRecords(records[1..]);
      if records[0].isDeleted {
        assert LiveRecords(records) == rest;
      } else {
        assert LiveRecords(records) == [records[0]] + rest;
        assert ([records[0]] + rest)[1..] == rest;
      }
    }
  }

  /** Appending a record adds its weight to the count and its size to the
      total. */
  lemma {:induction false} AggregatesAppend(records: seq<FileMetadata>, m: FileMetadata)
    ensures CountByIsDeletedFalse(records + [m]) == CountByIsDeletedFalse(records) + LiveWeight(m)
    ensures CalculateTotalStorageUsed(records + [m]) == CalculateTotalStorageUsed(records) + LiveSize(m)
    decreases |records|
  {
    if |records| > 0 {
      assert (records + [m])[1..] == records[1..] + [m];
      AggregatesAppend(records[1..], m);
    }
  }

  /** The records with the one whose id is m.id overwritten by m: the store
      after an update. */
  function Replaced(records: seq<FileMetadata>, m: FileMetadata): (r: seq<FileMetadata>)
    ensures |r| == |records|
    ensures forall i :: 0 <= i < |records| ==>
      r[i] == (if records[i].id == m.id then m else records[i])
    decreases |records|
  {
    if |records| == 0 then []
    else [if records[0].id == m.id then m else records[0]] + Replaced(records[1..], m)
  }

  /** The constraints hold of every suffix, and the head's id is not
      repeated in the tail. */
  lemma WellFormedTail(records: seq<FileMetadata>)
    requires WellFormed(records) && |records| > 0
    ensures WellFormed(records[1..])
    ensures forall k :: k in records[1..] ==> k.id != records[0].id
  {
    forall k | k in records[1..] ensures k.id != records[0].id {
      var j :| 0 <= j < |records[1..]| && records[1..][j] == k;
      assert records[j + 1] == k;
    }
    forall i | 0 <= i < |records[1..]| ensures records[1..][i] == records[i + 1] { }
  }

  /** Overwriting the record with m's id swaps its weight and size for m's. */
  lemma {:induction false} AggregatesReplaced(records: seq<FileMetadata>, m: FileMetadata, o: FileMetadata)
    requires WellFormed(records)
    requires FindById(records, m.id) == Some(o)
    ensures CountByIsDeletedFalse(Replaced(records, m))
         == CountByIsDeletedFalse(records) - LiveWeight(o) + LiveWeight(m)
    ensures CalculateTotalStorageUsed(Replaced(records, m))
         == CalculateTotalStorageUsed(records) - LiveSize(o) + LiveSize(m)
    decreases |records|
  {
    var r := Replaced(records, m);
    var rest := records[1..];
    assert r[1..] == Replaced(rest, m);
    WellFormedTail(records);
    if records[0].id == m.id {
      assert o == records[0];
      assert r[0] == m;
      ReplacedAbsent(rest, m);
    } else {
      assert r[0] == records[0];
      assert FindById(rest, m.id) == Some(o);
      AggregatesReplaced(rest, m, o);
    }
  }

  /** Overwriting an id that is not stored changes nothing. */
  lemma {:induction false} ReplacedAbsent(records: seq<FileMetadata>, m: FileMetadata)
    requires forall k :: k in records ==> k.id != m.id
    ensures Replaced(records, m) == records
    decreases |records|
  {
    if |records| > 0 {
      ReplacedAbsent(records[1..], m);
    }
  }

  /** A new record may be inserted when its not-null columns are filled, its
      String columns fit their lengths, and no stored record has its id or
      either of its tokens. */
  predicate InsertAllowed(records: seq<FileMetadata>, m: FileMetadata)
  {
    NotNullColumns(m) && ColumnsFit(m) &&
    forall k :: k in records ==>
      k.id != m.id && k.shareToken != m.shareToken && k.deleteToken != m.deleteToken
  }

  /** An update may overwrite the stored record with the same id when it
      keeps that record's tokens and fills the not-null columns. */
  predicate UpdateAllowed(records: seq<FileMetadata>, m: FileMetadata)
  {
    NotNullColumns(m) &&
    FindById(records, m.id).Some? &&
    FindById(records, m.id).value.shareToken == m.shareToken &&
    FindById(records, m.id).value.deleteToken == m.deleteToken
  }

  /** Inserting an admissible record keeps the store's constraints. */
  lemma InsertKeepsWellFormed(records: seq<FileMetadata>, m: FileMetadata)
    requires WellFormed(records) && InsertAllowed(records, m)
    ensures WellFormed(records + [m])
  {
    var r := records + [m];
    forall i, j | 0 <= i < |r| && 0 <= j < |r| && i != j
      ensures r[i].id != r[j].id && r[i].shareToken != r[j].shareToken && r[i].deleteToken != r[j].deleteToken
    {
      if i == |records| {
        assert r[j] in records;
      } else if j == |records| {
        assert r[i] in records;
      }
    }
  }

  /** Two records at different positions of a well-formed store differ in
      id and in both tokens. */
  lemma DistinctAt(records: seq<FileMetadata>, i: int, j: int)
    requires WellFormed(records)
    requires 0 <= i < |records| && 0 <= j < |records| && i != j
    ensures records[i].id != records[j].id
    ensures records[i].shareToken != records[j].shareToken
    ensures records[i].deleteToken != records[j].deleteToken
  {
  }

  /** After overwriting the record at position k (the one with m's id),
      position k holds m and every other position is unchanged. */
  lemma ReplacedAt(records: seq<FileMetadata>, m: FileMetadata, k: int, i: int)
    requires WellFormed(records)
    requires 0 <= k < |records| && records[k].id == m.id && 0 <= i < |records|
    ensures Replaced(records, m)[i] == if i == k then m else records[i]
  {
    if i != k {
      DistinctAt(records, i, k);
    }
  }

  /** Overwriting the record at position k with one that keeps its id and
      tokens and fills the not-null columns keeps the store's constraints. */
  lemma ReplacedAtKeepsWellFormed(records: seq<FileMetadata>, m: FileMetadata, k: int)
    requires WellFormed(records) && NotNullColumns(m) && 0 <= k < |records|
    requires records[k].id == m.id && records[k].shareToken == m.shareToken
    requires records[k].deleteToken == m.deleteToken
    ensures WellFormed(Replaced(records, m))
  {
    var r := Replaced(records, m);
    forall i, j | 0 <= i < |r| && 0 <= j < |r| && i != j
      ensures r[i].id != r[j].id && r[i].shareToken != r[j].shareToken && r[i].deleteToken != r[j].deleteToken
    {
      ReplacedAt(records, m, k, i);
      ReplacedAt(records, m, k, j);
      if i == k {
        DistinctAt(records, k, j);
      } else if j == k {
        DistinctAt(records, i, k);
      } else {
        DistinctAt(records, i, j);
      }
    }
    forall i | 0 <= i < |r| ensures NotNullColumns(r[i]) {
      ReplacedAt(records, m, k, i);
    }
  }

  /** An admissible update keeps the store's constraints. */
  lemma UpdateKeepsWellFormed(records: seq<FileMetadata>, m: FileMetadata)
    requires WellFormed(records) && UpdateAllowed(records, m)
    ensures WellFormed(Replaced(records, m))
  {
    var o := FindById(records, m.id).value;
    var k :| 0 <= k < |records| && records[k] == o;
    ReplacedAtKeepsWellFormed(records, m, k);
  }

  /** The metadata store: the records held, in insertion order. */
  class FileMetadataRepository {
    var records: seq<FileMetadata>

    ghost predicate Valid()
      reads this
    {
      WellFormed(records)
    }

    constructor()
      ensures Valid() && records == []
    {
      records := [];
    }

    /** save() of a new entity: the insert is refused, and nothing is
        stored, when a constraint would be violated. */
    method Insert(m: FileMetadata) returns (ok: bool)
      requires Valid()
      modifies this
      ensures Valid()
      ensures ok == InsertAllowed(old(records), m)
      ensures records == if ok then old(records) + [m] else old(records)
    {
      ok := NotNullColumns(m) && ColumnsFit(m) && FindById(records, m.id).None? &&
            FindByShareToken(records, m.shareToken).None? &&
            FindByDeleteToken(records, m.deleteToken).None?;
      if ok {
        InsertKeepsWellFormed(records, m);
        records := records + [m];
      }
    }

    /** save() of a managed entity whose counter or deleted flag changed. */
    method Update(m: FileMetadata)
      requires Valid() && UpdateAllowed(records, m)
      modifies this
      ensures Valid()
      ensures records == Replaced(old(records), m)
    {
      UpdateKeepsWellFormed(records, m);
      records := Replaced(records, m);
    }

    /** The rollback of a transaction that saved and then threw: the store
        returns to the snapshot taken when the transaction began. */
    method Rollback(snapshot: seq<FileMetadata>)
      requires WellFormed(snapshot)
      modifies this
      ensures Valid() && records == snapshot
    {
      records := snapshot;
    }
  }
}
