/**
 * The text-level operations of ResourceId: toString, verify, tryParse and parse,
 * and the factories that build a child identifier from a parent's text.
 */
module TextCodec {
  import opened Wrappers
  import opened Bytes
  import opened Base64Text
  import opened ResourceIds
  import opened Encoding
  import opened Parsing
  import opened RoundTrip

  /** The IllegalArgumentException parse throws, naming the offending text. */
  datatype ParseError = InvalidResourceId(id: string)

  /** toString: the text form of getValue's buffer. getValue's exception
      (an identifier with a gap) is None. */
  function ToString(codec: Base64Codec, r: ResourceId): (s: Option<string>)
    ensures s.Some? <==> GetValue(r).Some?
    ensures s.Some? ==> '/' !in s.value
  {
    match GetValue(r)
    case Some(buffer) => Some(ToBase64String(codec, buffer))
    case None => None
  }

  /** verify(id) on non-empty text (the empty string is rejected with an
      IllegalArgumentException, a precondition here): the decoded buffer, or None
      when decoding fails or yields more than Length bytes. */
  function Verify(codec: Base64Codec, id: string): (buffer: Option<seq<Byte>>)
    requires |id| > 0
    ensures buffer.Some? ==> |buffer.value| <= Length
    ensures buffer.Some? ==> buffer == FromBase64String(codec, id)
    ensures buffer.None? ==> FromBase64String(codec, id).None? || |FromBase64String(codec, id).value| > Length
  {
    var decoded := FromBase64String(codec, id);
    if decoded.None? || |decoded.value| > Length then None else decoded
  }

  /** tryParse(id). It fails with no identifier exactly when the text is empty or
      does not verify; every other outcome is that of the byte-level parse, and
      a failure there still carries the partial identifier. */
  function TryParse(codec: Base64Codec, id: string): (res: ParseResult)
    ensures res == Invalid(None) <==> |id| == 0 || Verify(codec, id).None?
    ensures res != Invalid(None) ==> res == ParseBytes(Verify(codec, id).value)
  {
    if |id| == 0 then Invalid(None)
    else
      match Verify(codec, id)
      case None => Invalid(None)
      case Some(buffer) => ParseBytes(buffer)
  }

  /** parse(id): the identifier tryParse accepts, or InvalidResourceId(id) for
      every text it does not. */
  function Parse(codec: Base64Codec, id: string): (r: Result<ResourceId, ParseError>)
    ensures r.Success? <==> TryParse(codec, id).Valid?
    ensures r.Success? ==> TryParse(codec, id) == Valid(r.value)
    ensures r.Failure? ==> r.error == InvalidResourceId(id)
  {
    match TryParse(codec, id)
    case Valid(rid) => Success(rid)
    case Invalid(_) => Failure(InvalidResourceId(id))
  }

  /** The round trip through text: a well-formed identifier's text parses back to it. */
  lemma {:induction false} ParseToString(codec: Base64Codec, r: ResourceId)
    requires Sound(codec)
    requires WellFormed(r)
    ensures ToString(codec, r).Some?
    ensures Parse(codec, ToString(codec, r).value) == Success(r)
  {
    ParseGetValue(r);
    var buffer := GetValue(r).value;
    assert |buffer| >= 4;
    TextRoundTrip(codec, buffer);
  }

  /** Rendering a parsed rendering gives the same text. */
  lemma ToStringIdempotent(codec: Base64Codec, r: ResourceId)
    requires Sound(codec)
    requires WellFormed(r)
    ensures ToString(codec, r).Some? && Parse(codec, ToString(codec, r).value).Success?
    ensures ToString(codec, Parse(codec, ToString(codec, r).value).value) == ToString(codec, r)
  {
    ParseToString(codec, r);
  }

  /** The empty text fails with no identifier, and parse rejects it. */
  lemma EmptyText(codec: Base64Codec)
    ensures TryParse(codec, "") == Invalid(None)
    ensures Parse(codec, "") == Failure(InvalidResourceId(""))
  {
  }

  /** newDatabaseId: a database-level identifier for dbid. */
  function NewDatabaseId(dbid: Int32): (r: ResourceId)
    ensures r.database == dbid && DatabaseId(r) == r
  {
    Empty.(database := dbid)
  }

  /** A new database id encodes to the database's four bytes alone; database 5,
      for one, is the buffer 0, 0, 0, 5. */
  lemma NewDatabaseIdBytes(dbid: Int32)
    requires dbid != 0
    ensures WellFormed(NewDatabaseId(dbid))
    ensures GetValue(NewDatabaseId(dbid)) == Some(IntBytes(dbid))
    ensures IntBytes(5) == [0, 0, 0, 5]
  {
    var r := NewDatabaseId(dbid);
    GetValueLayout(r);
    assert GetValue(r).value == GetValue(r).value[..4];
  }

  /** newDocumentCollectionId: parse the database's text, keep its database, set the collection. */
  function NewDocumentCollectionId(codec: Base64Codec, databaseId: string, collectionId: Int32)
    : (res: Result<ResourceId, ParseError>)
    ensures res.Success? <==> Parse(codec, databaseId).Success?
    ensures res.Failure? ==> res.error == InvalidResourceId(databaseId)
    ensures res.Success? ==>
              Keeps(res.value, Parse(codec, databaseId).value.(documentCollection := collectionId),
                    {Database, DocumentCollection})
  {
    match Parse(codec, databaseId)
    case Failure(e) => Failure(e)
    case Success(dbId) => Success(Empty.(database := dbId.database, documentCollection := collectionId))
  }

  /** newUserId: parse the database's text, keep its database, set the user. */
  function NewUserId(codec: Base64Codec, databaseId: string, userId: Int32): (res: Result<ResourceId, ParseError>)
    ensures res.Success? <==> Parse(codec, databaseId).Success?
    ensures res.Failure? ==> res.error == InvalidResourceId(databaseId)
    ensures res.Success? ==> Keeps(res.value, Parse(codec, databaseId).value.(user := userId), {Database, User})
  {
    match Parse(codec, databaseId)
    case Failure(e) => Failure(e)
    case Success(dbId) => Success(Empty.(database := dbId.database, user := userId))
  }

  /** newPermissionId: parse the user's text, keep its database and user, set the permission. */
  function NewPermissionId(codec: Base64Codec, userId: string, permissionId: Int64)
    : (res: Result<ResourceId, ParseError>)
    ensures res.Success? <==> Parse(codec, userId).Success?
    ensures res.Failure? ==> res.error == InvalidResourceId(userId)
    ensures res.Success? ==>
              Keeps(res.value, Parse(codec, userId).value.(permission := permissionId), {Database, User, Permission})
  {
    match Parse(codec, userId)
    case Failure(e) => Failure(e)
    case Success(usrId) => Success(Empty.(database := usrId.database, user := usrId.user, permission := permissionId))
  }

  /** newAttachmentId: parse the document's text, keep its database, collection
      and document, set the attachment. */
  function NewAttachmentId(codec: Base64Codec, documentId: string, attachmentId: Int32)
    : (res: Result<ResourceId, ParseError>)
    ensures res.Success? <==> Parse(codec, documentId).Success?
    ensures res.Failure? ==> res.error == InvalidResourceId(documentId)
    ensures res.Success? ==>
              Keeps(res.value, Parse(codec, documentId).value.(attachment := attachmentId),
                    {Database, DocumentCollection, Document, Attachment})
  {
    match Parse(codec, documentId)
    case Failure(e) => Failure(e)
    case Success(docId) =>
      Success(Empty.(database := docId.database, documentCollection := docId.documentCollection,
                     document := docId.document, attachment := attachmentId))
  }

  /** Factories compose with the text round trip: a collection built under a
      database's text, with a collection number whose high bit is set, is the
      well-formed pair of the two, and its own text parses back to it. */
  lemma CollectionUnderDatabase(codec: Base64Codec, d: Int32, c: Int32)
    requires Sound(codec)
    requires d != 0 && c < 0
    ensures ToString(codec, NewDatabaseId(d)).Some?
    ensures var res := NewDocumentCollectionId(codec, ToString(codec, NewDatabaseId(d)).value, c);
            && res == Success(Empty.(database := d, documentCollection := c))
            && WellFormed(res.value)
            && Parse(codec, ToString(codec, res.value).value) == res
  {
    ParseToString(codec, NewDatabaseId(d));
    var r := Empty.(database := d, documentCollection := c);
    var res := NewDocumentCollectionId(codec, ToString(codec, NewDatabaseId(d)).value, c);
    Extensionality(res.value, r);
    ParseToString(codec, r);
  }

  /** A user with a positive number, built under a database's text, is the
      well-formed pair of the two, and its own text parses back to it. */
  lemma UserUnderDatabase(codec: Base64Codec, d: Int32, u: Int32)
    requires Sound(codec)
    requires d != 0 && u > 0
    ensures ToString(codec, NewDatabaseId(d)).Some?
    ensures var res := NewUserId(codec, ToString(codec, NewDatabaseId(d)).value, u);
            && res == Success(Empty.(database := d, user := u))
            && WellFormed(res.value)
            && Parse(codec, ToString(codec, res.value).value) == res
  {
    ParseToString(codec, NewDatabaseId(d));
    var r := Empty.(database := d, user := u);
    var res := NewUserId(codec, ToString(codec, NewDatabaseId(d)).value, u);
    Extensionality(res.value, r);
    ParseToString(codec, r);
  }

  /** newUserId accepts a negative user number, but the identifier it builds
      does not survive its own text: the user is never written, and the text
      parses back to the database alone. */
  lemma NegativeUserUnderDatabase(codec: Base64Codec, d: Int32, u: Int32)
    requires Sound(codec)
    requires d != 0 && u < 0
    ensures ToString(codec, NewDatabaseId(d)).Some?
    ensures var res := NewUserId(codec, ToString(codec, NewDatabaseId(d)).value, u);
            && res == Success(Empty.(database := d, user := u))
            && ToString(codec, res.value).Some?
            && Parse(codec, ToString(codec, res.value).value) == Success(NewDatabaseId(d))
  {
    ParseToString(codec, NewDatabaseId(d));
    var r := Empty.(database := d, user := u);
    var res := NewUserId(codec, ToString(codec, NewDatabaseId(d)).value, u);
    Extensionality(res.value, r);
    NegativeUserIsDropped(d, u);
    var buffer := GetValue(r).value;
    TextRoundTrip(codec, buffer);
  }

  /** A permission built under a user's text is the well-formed triple of
      database, user and permission, and its own text parses back to it. */
  lemma PermissionUnderUser(codec: Base64Codec, d: Int32, u: Int32, p: Int64)
    requires Sound(codec)
    requires d != 0 && u > 0 && p != 0
    ensures ToString(codec, Empty.(database := d, user := u)).Some?
    ensures var res := NewPermissionId(codec, ToString(codec, Empty.(database := d, user := u)).value, p);
            && res == Success(Empty.(database := d, user := u, permission := p))
            && WellFormed(res.value)
            && Parse(codec, ToString(codec, res.value).value) == res
  {
    var parent := Empty.(database := d, user := u);
    ParseToString(codec, parent);
    var r := Empty.(database := d, user := u, permission := p);
    var res := NewPermissionId(codec, ToString(codec, parent).value, p);
    Extensionality(res.value, r);
    ParseToString(codec, r);
  }

  /** newPermissionId does not check what its parent is: under a collection's
      text it keeps the database, finds no user, and builds an identifier with a
      gap before the permission, which toString cannot render. */
  lemma PermissionUnderCollectionHasGap(codec: Base64Codec, d: Int32, c: Int32, p: Int64)
    requires Sound(codec)
    requires d != 0 && c < 0 && p != 0
    ensures ToString(codec, Empty.(database := d, documentCollection := c)).Some?
    ensures var res := NewPermissionId(codec, ToString(codec, Empty.(database := d, documentCollection := c)).value, p);
            && res == Success(Empty.(database := d, permission := p))
            && ToString(codec, res.value).None?
  {
    var parent := Empty.(database := d, documentCollection := c);
    ParseToString(codec, parent);
    var r := Empty.(database := d, permission := p);
    var res := NewPermissionId(codec, ToString(codec, parent).value, p);
    Extensionality(res.value, r);
  }

  /** An attachment built under a document's text extends the document by the
      attachment, stays well-formed, and its own text parses back to it. */
  lemma AttachmentUnderDocument(codec: Base64Codec, doc: ResourceId, a: Int32)
    requires Sound(codec)
    requires WellFormed(doc) && doc.document != 0 && doc.attachment == 0 && a != 0
    ensures ToString(codec, doc).Some?
    ensures var res := NewAttachmentId(codec, ToString(codec, doc).value, a);
            && res == Success(doc.(attachment := a))
            && WellFormed(res.value)
            && Parse(codec, ToString(codec, res.value).value) == res
  {
    ParseToString(codec, doc);
    var r := doc.(attachment := a);
    var res := NewAttachmentId(codec, ToString(codec, doc).value, a);
    Extensionality(res.value, r);
    ParseToString(codec, r);
  }
}
