/**
 * The resource identifier: a database, then a collection or a user, then one
 * child resource, then an attachment. Each level is a Java field whose zero value
 * means "absent". This module holds the record, the tag constants, the
 * well-formedness rules, and the accessors that derive an ancestor's identifier.
 */
module ResourceIds {
  import opened Bytes

  /** The ten fields of a resource identifier. */
  datatype ResourceId = ResourceId(
    database: Int32,
    documentCollection: Int32,
    storedProcedure: Int64,
    trigger: Int64,
    userDefinedFunction: Int64,
    conflict: Int64,
    document: Int64,
    user: Int32,
    permission: Int64,
    attachment: Int32)

  /** The identifier the private constructor builds: every field zero. */
  const Empty := ResourceId(0, 0, 0, 0, 0, 0, 0, 0, 0, 0)

  /** The largest buffer an identifier decodes from. */
  const Length := 20

  /** CollectionChildResourceType: the tag in the high nibble of byte 15 that says
      which kind of child a collection's child value is. */
  const DocumentTag := 0x0
  const StoredProcedureTag := 0x08
  const TriggerTag := 0x07
  const UserDefinedFunctionTag := 0x06
  const ConflictTag := 0x04

  /** Names for the fields, so that properties can quantify over them. */
  datatype Field =
    | Database | DocumentCollection | StoredProcedure | Trigger | UserDefinedFunction
    | Conflict | Document | User | Permission | Attachment

  /** The value of one field. */
  function Get(r: ResourceId, f: Field): int {
    match f
    case Database => r.database
    case DocumentCollection => r.documentCollection
    case StoredProcedure => r.storedProcedure
    case Trigger => r.trigger
    case UserDefinedFunction => r.userDefinedFunction
    case Conflict => r.conflict
    case Document => r.document
    case User => r.user
    case Permission => r.permission
    case Attachment => r.attachment
  }

  /** r' has the fields in kept copied from r, and zero everywhere else. */
  predicate Keeps(r': ResourceId, r: ResourceId, kept: set<Field>) {
    forall f: Field :: Get(r', f) == (if f in kept then Get(r, f) else 0)
  }

  /** Two identifiers with equal fields are equal. */
  lemma Extensionality(r: ResourceId, r': ResourceId)
    requires forall f: Field :: Get(r, f) == Get(r', f)
    ensures r == r'
  {
    assert Get(r, Database) == Get(r', Database);
    assert Get(r, DocumentCollection) == Get(r', DocumentCollection);
    assert Get(r, StoredProcedure) == Get(r', StoredProcedure);
    assert Get(r, Trigger) == Get(r', Trigger);
    assert Get(r, UserDefinedFunction) == Get(r', UserDefinedFunction);
    assert Get(r, Conflict) == Get(r', Conflict);
    assert Get(r, Document) == Get(r', Document);
    assert Get(r, User) == Get(r', User);
    assert Get(r, Permission) == Get(r', Permission);
    assert Get(r, Attachment) == Get(r', Attachment);
  }

  /** Keeping a set of fields twice is keeping it once. */
  lemma KeepsIdempotent(r'': ResourceId, r': ResourceId, r: ResourceId, kept: set<Field>)
    requires Keeps(r', r, kept) && Keeps(r'', r', kept)
    ensures r'' == r'
  {
    forall f: Field ensures Get(r'', f) == Get(r', f) {
    }
    Extensionality(r'', r');
  }

  // The derivation accessors: each builds a new identifier from this one's
  // fields at and above the named level.

  function DatabaseId(r: ResourceId): (d: ResourceId)
    ensures Keeps(d, r, {Database})
  {
    Empty.(database := r.database)
  }

  function DocumentCollectionId(r: ResourceId): (d: ResourceId)
    ensures Keeps(d, r, {Database, DocumentCollection})
  {
    Empty.(database := r.database, documentCollection := r.documentCollection)
  }

  function StoredProcedureId(r: ResourceId): (d: ResourceId)
    ensures Keeps(d, r, {Database, DocumentCollection, StoredProcedure})
  {
    Empty.(database := r.database, documentCollection := r.documentCollection,
           storedProcedure := r.storedProcedure)
  }

  function TriggerId(r: ResourceId): (d: ResourceId)
    ensures Keeps(d, r, {Database, DocumentCollection, Trigger})
  {
    Empty.(database := r.database, documentCollection := r.documentCollection, trigger := r.trigger)
  }

  function UserDefinedFunctionId(r: ResourceId): (d: ResourceId)
    ensures Keeps(d, r, {Database, DocumentCollection, UserDefinedFunction})
  {
    Empty.(database := r.database, documentCollection := r.documentCollection,
           userDefinedFunction := r.userDefinedFunction)
  }

  function ConflictId(r: ResourceId): (d: ResourceId)
    ensures Keeps(d, r, {Database, DocumentCollection, Conflict})
  {
    Empty.(database := r.database, documentCollection := r.documentCollection, conflict := r.conflict)
  }

  function DocumentId(r: ResourceId): (d: ResourceId)
    ensures Keeps(d, r, {Database, DocumentCollection, Document})
  {
    Empty.(database := r.database, documentCollection := r.documentCollection, document := r.document)
  }

  function UserId(r: ResourceId): (d: ResourceId)
    ensures Keeps(d, r, {Database, User})
  {
    Empty.(database := r.database, user := r.user)
  }

  function PermissionId(r: ResourceId): (d: ResourceId)
    ensures Keeps(d, r, {Database, User, Permission})
  {
    Empty.(database := r.database, user := r.user, permission := r.permission)
  }

  function AttachmentId(r: ResourceId): (d: ResourceId)
    ensures Keeps(d, r, {Database, DocumentCollection, Document, Attachment})
  {
    Empty.(database := r.database, documentCollection := r.documentCollection,
           document := r.document, attachment := r.attachment)
  }

  /** Every derivation accessor is idempotent: deriving again changes nothing. */
  lemma AccessorsIdempotent(r: ResourceId)
    ensures DatabaseId(DatabaseId(r)) == DatabaseId(r)
    ensures DocumentCollectionId(DocumentCollectionId(r)) == DocumentCollectionId(r)
    ensures StoredProcedureId(StoredProcedureId(r)) == StoredProcedureId(r)
    ensures TriggerId(TriggerId(r)) == TriggerId(r)
    ensures UserDefinedFunctionId(UserDefinedFunctionId(r)) == UserDefinedFunctionId(r)
    ensures ConflictId(ConflictId(r)) == ConflictId(r)
    ensures DocumentId(DocumentId(r)) == DocumentId(r)
    ensures UserId(UserId(r)) == UserId(r)
    ensures PermissionId(PermissionId(r)) == PermissionId(r)
    ensures AttachmentId(AttachmentId(r)) == AttachmentId(r)
  {
    KeepsIdempotent(DatabaseId(DatabaseId(r)), DatabaseId(r), r, {Database});
    KeepsIdempotent(DocumentCollectionId(DocumentCollectionId(r)), DocumentCollectionId(r), r,
                    {Database, DocumentCollection});
    KeepsIdempotent(StoredProcedureId(StoredProcedureId(r)), StoredProcedureId(r), r,
                    {Database, DocumentCollection, StoredProcedure});
    KeepsIdempotent(TriggerId(TriggerId(r)), TriggerId(r), r, {Database, DocumentCollection, Trigger});
    KeepsIdempotent(UserDefinedFunctionId(UserDefinedFunctionId(r)), UserDefinedFunctionId(r), r,
                    {Database, DocumentCollection, UserDefinedFunction});
    KeepsIdempotent(ConflictId(ConflictId(r)), ConflictId(r), r, {Database, DocumentCollection, Conflict});
    KeepsIdempotent(DocumentId(DocumentId(r)), DocumentId(r), r, {Database, DocumentCollection, Document});
    KeepsIdempotent(UserId(UserId(r)), UserId(r), r, {Database, User});
    KeepsIdempotent(PermissionId(PermissionId(r)), PermissionId(r), r, {Database, User, Permission});
    KeepsIdempotent(AttachmentId(AttachmentId(r)), AttachmentId(r), r,
                    {Database, DocumentCollection, Document, Attachment});
  }

  /** The tag a child value carries: the high nibble of its lowest-order byte
      (byte 15 of the encoded identifier), shifted as a signed Java byte. */
  function ChildTag(v: Int64): int {
    ShiftRight4(LongBytes(v)[7])
  }

  /** Whether the child group (bytes 8..16) has any member. */
  predicate HasChild(r: ResourceId) {
    r.storedProcedure != 0 || r.trigger != 0 || r.userDefinedFunction != 0
    || r.conflict != 0 || r.document != 0 || r.permission != 0
  }

  /** How many of the six child fields are non-zero. */
  function ChildCount(r: ResourceId): (n: nat)
    ensures n <= 6
    ensures n == 0 <==> !HasChild(r)
  {
    (if r.storedProcedure != 0 then 1 else 0) + (if r.trigger != 0 then 1 else 0)
    + (if r.userDefinedFunction != 0 then 1 else 0) + (if r.conflict != 0 then 1 else 0)
    + (if r.document != 0 then 1 else 0) + (if r.permission != 0 then 1 else 0)
  }

  /** The groups present form a prefix of database, collection-or-user, child,
      attachment: the byte layout has no gaps. */
  predicate NoGaps(r: ResourceId) {
    && (r.documentCollection != 0 || r.user != 0 ==> r.database != 0)
    && (HasChild(r) ==> r.documentCollection != 0 || r.user != 0)
    && (r.attachment != 0 ==> HasChild(r))
  }

  /** An identifier the service hands out: a database; at most one of collection
      (negative, that is, the high bit of its first byte set) and user (positive);
      at most one child, whose tag nibble matches its role, under a collection
      except a permission, which sits under a user; and an attachment only under
      a document. */
  predicate WellFormed(r: ResourceId) {
    && r.database != 0
    && (r.documentCollection != 0 ==> r.documentCollection < 0 && r.user == 0)
    && (r.user != 0 ==> r.user > 0)
    && ChildCount(r) <= 1
    && (r.document != 0 ==> r.documentCollection != 0 && ChildTag(r.document) == DocumentTag)
    // nibble 0x8 reads back as -8, which matches the stored-procedure tag through Math.abs
    && (r.storedProcedure != 0 ==>
          r.documentCollection != 0 && ChildTag(r.storedProcedure) == -StoredProcedureTag)
    && (r.trigger != 0 ==> r.documentCollection != 0 && ChildTag(r.trigger) == TriggerTag)
    && (r.userDefinedFunction != 0 ==>
          r.documentCollection != 0 && ChildTag(r.userDefinedFunction) == UserDefinedFunctionTag)
    && (r.conflict != 0 ==> r.documentCollection != 0 && ChildTag(r.conflict) == ConflictTag)
    && (r.permission != 0 ==> r.user != 0)
    && (r.attachment != 0 ==> r.document != 0)
  }

  lemma WellFormedNoGaps(r: ResourceId)
    requires WellFormed(r)
    ensures NoGaps(r)
  {
  }

  /** getUniqueDocumentCollectionId as written: `(long) database << 32 | documentCollection`,
      where the int documentCollection is sign-extended to a long before the OR. */
  function UniqueDocumentCollectionId(r: ResourceId): Int64 {
    Or64(ShiftLeft32(r.database), r.documentCollection)
  }

  /** The bytes of `(long) database << 32`: the database's four bytes, then four zeros. */
  lemma ShiftedDatabaseBytes(d: Int32)
    ensures LongBytes(ShiftLeft32(d)) == IntBytes(d) + Zeros(4)
  {
    LongBytesOfInt(d);
    assert LongBytes(d)[4..] == IntBytes(d);
  }

  /** The documented layout holds for a non-negative collection: read as Java ints,
      the first four bytes are the database and the next four the collection. */
  lemma UniqueIdLayout(r: ResourceId)
    requires r.documentCollection >= 0
    ensures GetInt(LongBytes(UniqueDocumentCollectionId(r)), 0) == r.database
    ensures GetInt(LongBytes(UniqueDocumentCollectionId(r)), 4) == r.documentCollection
  {
    ShiftedDatabaseBytes(r.database);
    LongBytesOfInt(r.documentCollection);
    var s := LongBytes(UniqueDocumentCollectionId(r));
    assert s == IntBytes(r.database) + IntBytes(r.documentCollection);
    assert s[0..4] == IntBytes(r.database) && s[4..8] == IntBytes(r.documentCollection);
    GetIntAt(s, 0, r.database);
    GetIntAt(s, 4, r.documentCollection);
  }

  /** For a negative collection, which is every collection a parse produces, the
      sign extension fills the upper half with ones and the result is the
      collection alone: the database is lost. */
  lemma UniqueIdOfNegativeCollection(r: ResourceId)
    requires r.documentCollection < 0
    ensures UniqueDocumentCollectionId(r) == r.documentCollection
  {
    ShiftedDatabaseBytes(r.database);
    LongBytesOfInt(r.documentCollection);
    var s := LongBytes(UniqueDocumentCollectionId(r));
    assert s == LongBytes(r.documentCollection);
    GetLongBytes(UniqueDocumentCollectionId(r));
    GetLongBytes(r.documentCollection);
  }

  /** Two collections that share a negative collection number get the same
      "unique" id, whatever their databases (databases 1 and 2 with collection -1,
      for instance). */
  lemma UniqueIdCollides(a: ResourceId, b: ResourceId)
    requires a.documentCollection == b.documentCollection < 0
    ensures UniqueDocumentCollectionId(a) == UniqueDocumentCollectionId(b)
  {
    UniqueIdOfNegativeCollection(a);
    UniqueIdOfNegativeCollection(b);
  }

  /** Integer.toUnsignedLong: an int's four bytes as a non-negative long. */
  function ToUnsignedLong(v: Int32): (w: Int64)
    ensures 0 <= w < Two32
    ensures LongBytes(w) == Zeros(4) + IntBytes(v)
  {
    Pow256Values();
    var w := Unsigned(v, 4);
    var s := Zeros(4) + IntBytes(v);
    FromBytesAppend(Zeros(4), IntBytes(v));
    FromBytesToBytes(0, 4);
    assert ToBytes(0, 4) == Zeros(4);
    FromBytesToBytes(w, 4);
    assert s[0..8] == s;
    LongBytesGet(s, 0);
    w
  }

  /** The unique collection id with the collection zero-extended instead of
      sign-extended: `(long) database << 32 | Integer.toUnsignedLong(documentCollection)`.
      Its first four bytes are the database and its next four the collection, for
      every collection. */
  function UniqueDocumentCollectionIdCorrected(r: ResourceId): (u: Int64)
    ensures LongBytes(u) == IntBytes(r.database) + IntBytes(r.documentCollection)
  {
    var v := Or64(ShiftLeft32(r.database), ToUnsignedLong(r.documentCollection));
    ShiftedDatabaseBytes(r.database);
    var s := OrBytes(LongBytes(ShiftLeft32(r.database)), LongBytes(ToUnsignedLong(r.documentCollection)));
    assert s == IntBytes(r.database) + IntBytes(r.documentCollection);
    assert s[0..8] == s;
    LongBytesGet(s, 0);
    v
  }

  /** The corrected id is unique: its high half (a floor division by 2^32) is the
      database and its low half the collection's 32-bit pattern, so it determines both. */
  lemma UniqueIdCorrectedHalves(r: ResourceId)
    ensures UniqueDocumentCollectionIdCorrected(r) / Two32 == r.database
    ensures UniqueDocumentCollectionIdCorrected(r) % Two32 == Unsigned(r.documentCollection, 4)
  {
    Pow256Values();
    var u := UniqueDocumentCollectionIdCorrected(r);
    var s := LongBytes(u);
    GetLongBytes(u);
    assert s[0..8] == s;
    FromBytesAppend(IntBytes(r.database), IntBytes(r.documentCollection));
    FromBytesToBytes(Unsigned(r.database, 4), 4);
    FromBytesToBytes(Unsigned(r.documentCollection, 4), 4);
    var c := Unsigned(r.documentCollection, 4);
    assert FromBytes(s) == Unsigned(r.database, 4) * Two32 + c;
    assert u == r.database * Two32 + c;
  }
}
