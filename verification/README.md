# ResourceId codec in Dafny

This project models the compact resource identifier of the Azure DocumentDB Java client, `ResourceId`. An identifier names a path in the resource tree:

- a database;
- then a document collection or a user;
- then one child: a document, stored procedure, trigger, user-defined function or conflict under a collection, or a permission under a user;
- then an attachment under a document.

`getValue` packs the path into a big-endian buffer of up to 20 bytes. `toString` renders that buffer as base64 with `'/'` replaced by `'-'`. `tryParse` and `parse` reverse this. Two bits of the buffer decide how it is read:

- The high bit of byte 4 says whether bytes 4..8 hold a collection or a user.
- Under a collection, the high nibble of byte 15 is shifted as a signed Java byte. The result says which kind of child bytes 8..16 hold.

The factories `newX` build a child identifier from the parent's text.

Files and modules:

- `wrappers.dfy` (`Wrappers`): `Option` and `Result`. They stand in for Java's `null` and exceptions.
- `bytes.dfy` (`Bytes`): Java `int`/`long` ranges and the byte helpers:
  - big-endian two's-complement conversion (`convertToBytesUsingByteBuffer`, `ByteBuffer.getInt`/`getLong`);
  - sign extension and `>> 4` on a byte;
  - `Math.abs`;
  - `|` and `<< 32` on longs;
  - `blockCopy`, both as a value and as the copy loop.
- `base64_text.dfy` (`Base64Text`): the `'/'`↔`'-'` substitution. The base64 codec is a parameter, with the assumptions the model makes of it (`Sound`).
- `resource_ids.dfy` (`ResourceIds`):
  - the ten-field record;
  - the `CollectionChildResourceType` tag constants and `Length`;
  - `WellFormed`;
  - the derivation accessors `getXId`;
  - `getUniqueDocumentCollectionId`, as written and corrected.
- `encoding.dfy` (`Encoding`): `getValue`.
- `parsing.dfy` (`Parsing`): the byte-level part of `tryParse`.
- `round_trip.dfy` (`RoundTrip`): encode-then-parse and parse-then-encode, and the identifiers for which they fail.
- `text_codec.dfy` (`TextCodec`): `toString`, `verify`, `tryParse`, `parse` and the `newX` factories.

Conventions:

- A byte is the unsigned bit pattern of a Java byte (`0..255`). `SignedByte` gives Java's value where the code depends on it.
- `tryParse`'s `Pair<Boolean, ResourceId>` is `ParseResult`:
  - `Valid(rid)` is `(true, rid)`;
  - `Invalid(Some(rid))` is `(false, rid)`;
  - `Invalid(None)` is `(false, null)`.
- An exception is `None` (in `getValue` and the decoder) or `Failure(InvalidResourceId(id))` (in `parse` and the factories).

Where the code differs from how the codec is usually described, the model follows the code:

- The child copies in `getValue` are three independent `if`s followed by one `if`/`else` chain. So when two child fields are non-zero, the later copy wins. The effective order is conflict, document, permission, user-defined function, trigger, stored procedure. It is not "stored procedure first".
- Not every other buffer length fails. Buffers of 1–3 bytes parse as the empty identifier. Buffers of 5–7 bytes parse as a database only. Under a collection, any length of 16 or more passes the length check, and the tag still decides; the attachment is read only at exactly 20 bytes. Only the user branch insists on 8 or 16.
- A child's role comes from the tag nibble in its own lowest-order byte. A stored procedure numbered 9 therefore comes back as a document; see `RoundTrip.UntaggedStoredProcedureReadsAsDocument`.
- The fields are Java's signed `int` and `long`. A collection read by the parser is always negative, because its high bit is set. A user read by the parser is never negative.

## Model

| member | source | states |
|---|---|---|
| `Bytes.FromBytes` | src/com/microsoft/azure/documentdb/ResourceId.java:300-301 | the number a big-endian read yields from n bytes is below 256^n |
| `Bytes.IntBytes` | src/com/microsoft/azure/documentdb/ResourceId.java:407-412 | `convertToBytesUsingByteBuffer(int)` gives four bytes; that they are the big-endian two's-complement bytes of the int is stated by `Bytes.GetIntBytes` and `Bytes.IntBytesGet`, which make it the inverse of `GetInt` |
| `Bytes.LongBytes` | src/com/microsoft/azure/documentdb/ResourceId.java:414-419 | `convertToBytesUsingByteBuffer(long)` gives eight bytes; `Bytes.GetLongBytes` and `Bytes.LongBytesGet` make it the inverse of `GetLong` |
| `Bytes.GetInt` | src/com/microsoft/azure/documentdb/ResourceId.java:300-301 | no contract of its own: `ByteBuffer.getInt` at an offset; `Bytes.GetIntBytes`, `Bytes.IntBytesGet` and `Bytes.GetIntSign` state what it reads |
| `Bytes.GetLong` | src/com/microsoft/azure/documentdb/ResourceId.java:316-317 | no contract of its own: `ByteBuffer.getLong` at an offset; `Bytes.GetLongBytes` and `Bytes.LongBytesGet` state what it reads |
| `Bytes.FromBytesToBytes` | src/com/microsoft/azure/documentdb/ResourceId.java:407-419 | reading back the n big-endian bytes written for u gives u when u fits in n bytes |
| `Bytes.ToBytesFromBytes` | src/com/microsoft/azure/documentdb/ResourceId.java:407-419 | writing back the number read from a byte string gives that byte string |
| `Bytes.FromBytesAppend` | src/com/microsoft/azure/documentdb/ResourceId.java:316-317 | in a big-endian read of a concatenation, the first part supplies the high-order bytes |
| `Bytes.GetIntBytes` | src/com/microsoft/azure/documentdb/ResourceId.java:407-412 | `getInt` on the four bytes `putInt` wrote for v returns v, negative values included |
| `Bytes.IntBytesGet` | src/com/microsoft/azure/documentdb/ResourceId.java:300-301 | `putInt` of the int `getInt` read at an offset rewrites exactly the four bytes at that offset |
| `Bytes.GetLongBytes` | src/com/microsoft/azure/documentdb/ResourceId.java:414-419 | `getLong` on the eight bytes `putLong` wrote for v returns v |
| `Bytes.LongBytesGet` | src/com/microsoft/azure/documentdb/ResourceId.java:316-317 | `putLong` of the long `getLong` read at an offset rewrites exactly the eight bytes at that offset |
| `Bytes.SignBit` | src/com/microsoft/azure/documentdb/ResourceId.java:307-310 | a two's-complement pattern is negative exactly when its leading byte has the high bit set |
| `Bytes.GetIntSign` | src/com/microsoft/azure/documentdb/ResourceId.java:307-310 | the int read at an offset is negative exactly when the byte at that offset is at least 0x80, so `isCollection` means "the value read is negative" |
| `Bytes.IntSignBit` | src/com/microsoft/azure/documentdb/ResourceId.java:183-189 | the first byte written for an int has its high bit set exactly when the int is negative |
| `Bytes.ShiftRight4` | src/com/microsoft/azure/documentdb/ResourceId.java:318 | `b >> 4` on a Java byte lies in -8..7 and is the high nibble read as a signed four-bit number, so nibble 0x8..0xF gives -8..-1 |
| `Bytes.OrByte` | src/com/microsoft/azure/documentdb/ResourceId.java:65 | OR with a zero byte keeps the other byte; OR with 0xFF gives 0xFF |
| `Bytes.Or64` | src/com/microsoft/azure/documentdb/ResourceId.java:65 | the bytes of the long OR of x and y are the byte-wise OR of the bytes of x and y |
| `Bytes.ShiftLeft32` | src/com/microsoft/azure/documentdb/ResourceId.java:65 | the bytes of `x << 32` on a long are the low four bytes of x followed by four zero bytes |
| `Bytes.LongBytesOfInt` | src/com/microsoft/azure/documentdb/ResourceId.java:65 | widening an int to a long keeps its four bytes and puts four 0xFF bytes (negative) or four zero bytes (otherwise) in front |
| `Bytes.BlockCopy` | src/com/microsoft/azure/documentdb/ResourceId.java:400-405 | `dst[dstOffset+k] = src[srcOffset+k]` for k < count; every other byte of dst is unchanged; the length is unchanged |
| `Bytes.BlockCopyLoop` | src/com/microsoft/azure/documentdb/ResourceId.java:400-405 | the one-byte-per-iteration copy loop computes exactly `BlockCopy` |
| `Base64Text.Replace` | src/com/microsoft/azure/documentdb/ResourceId.java:395 | `String.replace(from, to)` keeps the length and swaps each occurrence of `from`, and only those |
| `Base64Text.SubstitutionUndone` | src/com/microsoft/azure/documentdb/ResourceId.java:384-396 | on text without `'-'`, turning `'-'` back into `'/'` undoes turning `'/'` into `'-'` |
| `Base64Text.ToBase64String` | src/com/microsoft/azure/documentdb/ResourceId.java:388-396 | the rendered text never contains `'/'` |
| `Base64Text.FromBase64String` | src/com/microsoft/azure/documentdb/ResourceId.java:384-386 | no contract of its own: `'-'` back to `'/'`, then the decoder; `Base64Text.TextRoundTrip` states that it undoes `ToBase64String` for a sound codec |
| `Base64Text.TextRoundTrip` | src/com/microsoft/azure/documentdb/ResourceId.java:384-396 | for a sound base64 codec, `fromBase64String(toBase64String(b))` is b, and the text is non-empty when b is |
| `ResourceIds.DatabaseId` | src/com/microsoft/azure/documentdb/ResourceId.java:42-46 | copies the database and zeroes every other field |
| `ResourceIds.DocumentCollectionId` | src/com/microsoft/azure/documentdb/ResourceId.java:52-57 | copies database and collection and zeroes the rest |
| `ResourceIds.StoredProcedureId` | src/com/microsoft/azure/documentdb/ResourceId.java:72-78 | copies database, collection and stored procedure and zeroes the rest |
| `ResourceIds.TriggerId` | src/com/microsoft/azure/documentdb/ResourceId.java:84-90 | copies database, collection and trigger and zeroes the rest |
| `ResourceIds.UserDefinedFunctionId` | src/com/microsoft/azure/documentdb/ResourceId.java:96-102 | copies database, collection and user-defined function and zeroes the rest |
| `ResourceIds.ConflictId` | src/com/microsoft/azure/documentdb/ResourceId.java:108-114 | copies database, collection and conflict and zeroes the rest |
| `ResourceIds.DocumentId` | src/com/microsoft/azure/documentdb/ResourceId.java:120-126 | copies database, collection and document and zeroes the rest |
| `ResourceIds.UserId` | src/com/microsoft/azure/documentdb/ResourceId.java:132-137 | copies database and user and zeroes the rest |
| `ResourceIds.PermissionId` | src/com/microsoft/azure/documentdb/ResourceId.java:143-149 | copies database, user and permission and zeroes the rest |
| `ResourceIds.AttachmentId` | src/com/microsoft/azure/documentdb/ResourceId.java:155-162 | copies database, collection, document and attachment and zeroes the rest |
| `ResourceIds.KeepsIdempotent` | src/com/microsoft/azure/documentdb/ResourceId.java:42-162 | keeping the same set of fields twice gives the same identifier as keeping it once |
| `ResourceIds.AccessorsIdempotent` | src/com/microsoft/azure/documentdb/ResourceId.java:42-162 | applying any `getXId` twice equals applying it once |
| `ResourceIds.ChildCount` | src/com/microsoft/azure/documentdb/ResourceId.java:170-172 | the number of non-zero child fields is zero exactly when none of the six is set |
| `ResourceIds.WellFormed` | src/com/microsoft/azure/documentdb/ResourceId.java:422-428 | no contract of its own: the identifiers the encoder and parser agree on; each collection child carries its `CollectionChildResourceType` tag (document 0, stored procedure 8 arriving as -8, trigger 7, user-defined function 6, conflict 4), which `Parsing.TagDispatch` and `RoundTrip.ParseGetValue` use |
| `ResourceIds.UniqueDocumentCollectionId` | src/com/microsoft/azure/documentdb/ResourceId.java:64-66 | no contract of its own: the expression as written; `ResourceIds.UniqueIdLayout` states the documented layout for a non-negative collection, and `ResourceIds.UniqueIdOfNegativeCollection` and `ResourceIds.UniqueIdCollides` state that a negative collection erases the database |
| `ResourceIds.ShiftedDatabaseBytes` | src/com/microsoft/azure/documentdb/ResourceId.java:65 | `(long) database << 32` is the database's four bytes followed by four zero bytes |
| `ResourceIds.UniqueIdLayout` | src/com/microsoft/azure/documentdb/ResourceId.java:59-66 | for a non-negative collection the first four bytes, read as an int, are the database and the next four the collection, as the doc comment says |
| `ResourceIds.UniqueIdOfNegativeCollection` | src/com/microsoft/azure/documentdb/ResourceId.java:64-66 | for a negative collection the result is the collection alone; the database is lost |
| `ResourceIds.UniqueIdCollides` | src/com/microsoft/azure/documentdb/ResourceId.java:59-66 | any two collections with the same negative collection number get the same "unique" id, whatever their databases (databases 1 and 2 with collection -1, say) |
| `ResourceIds.ToUnsignedLong` | src/com/microsoft/azure/documentdb/ResourceId.java:65 | zero-extending an int gives a long in 0..2^32 whose bytes are four zeros, then the int's four bytes |
| `ResourceIds.UniqueDocumentCollectionIdCorrected` | src/com/microsoft/azure/documentdb/ResourceId.java:59-66 | with the collection zero-extended, the first four bytes are the database and the next four the collection, for every collection |
| `ResourceIds.UniqueIdCorrectedHalves` | src/com/microsoft/azure/documentdb/ResourceId.java:59-62 | the corrected id's high half is the database and its low half the collection's 32-bit pattern, so it is unique across databases |
| `ResourceIds.WellFormedNoGaps` | src/com/microsoft/azure/documentdb/ResourceId.java:165-177 | a well-formed identifier has no gap between its groups |
| `Encoding.Put` | src/com/microsoft/azure/documentdb/ResourceId.java:179-216 | a copy into the buffer fails exactly when it runs past the end; otherwise it writes its bytes at the offset and changes nothing else |
| `Encoding.WriteDatabase` | src/com/microsoft/azure/documentdb/ResourceId.java:179-181 | the database copy fails only when there is a database and the buffer is shorter than 4; it writes the database's bytes at 0..4 and changes nothing else |
| `Encoding.WriteSlot` | src/com/microsoft/azure/documentdb/ResourceId.java:183-189 | the collection-or-user copy fails only when there is a collection or a positive user and the buffer is shorter than 8; it writes the collection, else the positive user, at 4..8, and a negative user not at all |
| `Encoding.WriteChild` | src/com/microsoft/azure/documentdb/ResourceId.java:191-211 | the six child copies fail only when there is a child and the buffer is shorter than 16; they leave bytes 8..16 holding the child that wins (conflict, document, permission, user-defined function, trigger, stored procedure in that order) and touch nothing else |
| `Encoding.WriteAttachment` | src/com/microsoft/azure/documentdb/ResourceId.java:213-216 | the attachment copy fails only when there is an attachment and the buffer is shorter than 20; it writes the attachment at 16..20 and changes nothing else |
| `Encoding.GetValue` | src/com/microsoft/azure/documentdb/ResourceId.java:164-219 | `getValue` throws exactly when a copy reaches past the allocated length; otherwise the buffer has length 4·[database≠0] + 4·[collection≠0 or user≠0] + 8·[a child≠0] + 4·[attachment≠0] |
| `Encoding.GetValueLayout` | src/com/microsoft/azure/documentdb/ResourceId.java:177-218 | the bytes are laid out group by group: database at 0..4; at 4..8 the collection, else a positive user, else zeros; the winning child at 8..16; the attachment at 16..20 |
| `Encoding.NoGapsEncodes` | src/com/microsoft/azure/documentdb/ResourceId.java:165-177 | an identifier without gaps encodes without throwing, to 0, 4, 8, 16 or 20 bytes |
| `Encoding.WellFormedLength` | src/com/microsoft/azure/documentdb/ResourceId.java:165-175 | a well-formed identifier encodes to 4, 8, 16 or 20 bytes exactly when its deepest level is database, collection or user, child, or attachment |
| `Parsing.ParseBytes` | src/com/microsoft/azure/documentdb/ResourceId.java:298-351 | the parse never reads out of bounds and always carries an identifier. Below 8 bytes it succeeds, reading the database only from 4 bytes on. With 8 or more bytes, the high bit of byte 4 decides: set gives a negative collection and no user; clear gives a non-negative user and no collection. A success has at most one child field set |
| `Parsing.TagDispatch` | src/com/microsoft/azure/documentdb/ResourceId.java:312-335 | under a collection, the shifted tag of byte 15 picks the child: 0 document (plus the attachment at exactly 20 bytes); -8 stored procedure; 7 trigger; 6 user-defined function; 4 conflict. Any other tag fails, carrying only database and collection |
| `Parsing.UserDispatch` | src/com/microsoft/azure/documentdb/ResourceId.java:339-347 | under a user, 8 bytes succeed with no child and 16 bytes succeed with the permission read without any tag check; every other length fails, carrying database and user |
| `Parsing.CollectionDispatch` | src/com/microsoft/azure/documentdb/ResourceId.java:309-338 | under a collection with fewer than 16 bytes, only length 8 succeeds |
| `Parsing.StoredProcedureNibble` | src/com/microsoft/azure/documentdb/ResourceId.java:325 | the absolute value of the shifted tag is 8 exactly when the nibble is 0x8, which arrives as -8 |
| `Parsing.LengthRules` | src/com/microsoft/azure/documentdb/ResourceId.java:300-347 | the user branch succeeds only at 8 or 16 bytes; lengths 9 to 15 always fail; a non-zero attachment comes only from a 20-byte buffer under a collection whose tag is document |
| `RoundTrip.ParseGetValue` | src/com/microsoft/azure/documentdb/ResourceId.java:164-351 | a well-formed identifier encodes without throwing, and parsing the buffer returns it field for field |
| `RoundTrip.GetValueParse` | src/com/microsoft/azure/documentdb/ResourceId.java:164-351 | a buffer that parses to a well-formed identifier whose encoded length equals the buffer's length is exactly that identifier's encoding |
| `RoundTrip.EqualByGroups` | src/com/microsoft/azure/documentdb/ResourceId.java:177-216 | two buffers of length 4, 8, 16 or 20 that agree in every group are equal |
| `RoundTrip.PositiveCollectionReadsAsUser` | src/com/microsoft/azure/documentdb/ResourceId.java:183-189 | a collection with its high bit clear is written, then read back as a user |
| `RoundTrip.NegativeUserIsDropped` | src/com/microsoft/azure/documentdb/ResourceId.java:168-189 | a negative user makes the buffer 8 bytes long but is never written; its bytes stay zero and read back as no user |
| `RoundTrip.UntaggedStoredProcedureReadsAsDocument` | src/com/microsoft/azure/documentdb/ResourceId.java:318-326 | a stored procedure whose low byte has high nibble 0 reads back as a document; 9 is such a number |
| `TextCodec.ToString` | src/com/microsoft/azure/documentdb/ResourceId.java:380-382 | `toString` fails exactly when `getValue` throws, and its text has no `'/'` |
| `TextCodec.Verify` | src/com/microsoft/azure/documentdb/ResourceId.java:357-374 | `verify` returns the decoded buffer when decoding succeeds with at most `Length` = 20 bytes, and `(false, null)` when decoding fails or yields more |
| `TextCodec.TryParse` | src/com/microsoft/azure/documentdb/ResourceId.java:283-355 | `tryParse` returns `(false, null)` exactly when the text is empty or `verify` fails; otherwise it returns the byte-level parse of the verified buffer |
| `TextCodec.Parse` | src/com/microsoft/azure/documentdb/ResourceId.java:221-229 | `parse` succeeds exactly when `tryParse` reports true, with the same identifier; otherwise it fails with `InvalidResourceId` naming the text |
| `TextCodec.ParseToString` | src/com/microsoft/azure/documentdb/ResourceId.java:283-396 | for a sound base64 codec, parsing the text of a well-formed identifier gives the identifier back |
| `TextCodec.ToStringIdempotent` | src/com/microsoft/azure/documentdb/ResourceId.java:380-382 | rendering the parse of a rendering gives the same text |
| `TextCodec.EmptyText` | src/com/microsoft/azure/documentdb/ResourceId.java:287-288 | empty text gives `(false, null)` from `tryParse`, and `parse` rejects it |
| `TextCodec.NewDatabaseId` | src/com/microsoft/azure/documentdb/ResourceId.java:231-235 | the new identifier is database-level, with the given database |
| `TextCodec.NewDatabaseIdBytes` | src/com/microsoft/azure/documentdb/ResourceId.java:164-181 | a new non-zero database id is well-formed and encodes to its four bytes alone; database 5 is the buffer 0, 0, 0, 5 |
| `TextCodec.NewDocumentCollectionId` | src/com/microsoft/azure/documentdb/ResourceId.java:237-246 | fails exactly when the parent's text does not parse, with that error; otherwise keeps only the parent's database and sets the collection |
| `TextCodec.NewUserId` | src/com/microsoft/azure/documentdb/ResourceId.java:248-257 | fails exactly when the parent's text does not parse; otherwise keeps only the parent's database and sets the user |
| `TextCodec.NewPermissionId` | src/com/microsoft/azure/documentdb/ResourceId.java:259-268 | fails exactly when the parent's text does not parse; otherwise keeps only the parent's database and user and sets the permission |
| `TextCodec.NewAttachmentId` | src/com/microsoft/azure/documentdb/ResourceId.java:270-281 | fails exactly when the parent's text does not parse; otherwise keeps only the parent's database, collection and document and sets the attachment |
| `TextCodec.CollectionUnderDatabase` | src/com/microsoft/azure/documentdb/ResourceId.java:237-246 | a collection with its high bit set, built under a database's text, is well-formed, and its own text parses back to it |
| `TextCodec.UserUnderDatabase` | src/com/microsoft/azure/documentdb/ResourceId.java:248-257 | a positive user built under a database's text is well-formed, and its own text parses back to it |
| `TextCodec.NegativeUserUnderDatabase` | src/com/microsoft/azure/documentdb/ResourceId.java:248-257 | a negative user is accepted by `newUserId`, but its text parses back to the database alone |
| `TextCodec.PermissionUnderUser` | src/com/microsoft/azure/documentdb/ResourceId.java:259-268 | a permission built under a user's text is well-formed, and its own text parses back to it |
| `TextCodec.PermissionUnderCollectionHasGap` | src/com/microsoft/azure/documentdb/ResourceId.java:259-268 | `newPermissionId` under a collection's text keeps the database, finds no user, and builds an identifier that `toString` cannot render |
| `TextCodec.AttachmentUnderDocument` | src/com/microsoft/azure/documentdb/ResourceId.java:270-281 | an attachment built under a document's text is that document plus the attachment, well-formed, and its own text parses back to it |

## Left out

- The base64 codec: commons-codec's `Base64.decodeBase64` and `Utils.encodeBase64String`. `Utils` is not part of this model. The codec is a parameter. The round-trip lemmas assume what `Sound` states:
  - decoding undoes encoding;
  - the encoder never emits `'-'`;
  - only the empty buffer encodes to empty text.

  The decoder's lenient handling of characters outside the alphabet is not modelled. The substitution swaps `'/'` only and keeps `'+'`; it is not the URL-safe alphabet of section 5 of RFC 4648.
- The overload `toBase64String(buffer, offset, length)`: it is only ever called with offset 0 and the full length, so `ToBase64String` takes the whole buffer.
- `null` strings: text is a `seq<char>`, and only the empty string is modelled.
- TextCodec.Verify: `verify` throws `IllegalArgumentException` on empty text; this is a precondition here. `tryParse`, its only caller in the model, rules empty text out first.
- `verifyBool`: it is `Verify(...).Some?` and has no model of its own.
- Exception messages, the `DocumentClientException` throws clauses, and `Pair` from commons-lang3. Failures are `Option`/`Result` values; `Pair<Boolean, ResourceId>` is `ParseResult`.
- The catch-all at line 352: the byte-level parse is total and reads in bounds for every buffer length. So the catch-all is unreachable in the model, and `ParseBytes` states it always carries an identifier.
- The plain getters `getDatabase`, `getDocumentCollection` and so on: they are the record's field selectors.
- Mutability: Java's private constructor and field assignments become the immutable record `Empty` and record updates.
- `blockCopy` is modelled on sequences that are returned, not on arrays changed in place. A partially completed copy before an exception is not modelled, because every caller discards the array when a copy throws.

## Findings

| source | as written | input that shows it | evidently intended | confidence | as-written member | corrected member |
|---|---|---|---|---|---|---|
| src/com/microsoft/azure/documentdb/ResourceId.java:59-66 | `(long) this.database << 32` is ORed with `this.documentCollection`, and the int collection is sign-extended before the OR. For a negative collection the upper 32 bits all become ones, so the result is the collection alone. Every collection `tryParse` produces is negative | database 1 and database 2, both with collection -1: both results are -1 | first four bytes the database, next four the collection, as the doc comment says: `(long) database << 32` ORed with `Integer.toUnsignedLong(documentCollection)` | high for the arithmetic; not executed | `ResourceIds.UniqueIdCollides` | `ResourceIds.UniqueDocumentCollectionIdCorrected` |
