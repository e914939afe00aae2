/**
 * getValue: the identifier as a big-endian byte buffer of 0 to 20 bytes.
 * The length is computed from which groups are present; then each present field
 * is copied in at its fixed offset. A copy that runs past the end of the buffer
 * (an identifier with a gap) throws ArrayIndexOutOfBoundsException, which is
 * modelled as None.
 */
module Encoding {
  import opened Wrappers
  import opened Bytes
  import opened ResourceIds

  /** The buffer length getValue allocates: four bytes for the database, four for
      the collection-or-user slot, eight for the child group, four for the attachment,
      each counted when its group has a non-zero field. */
  function EncodedLength(r: ResourceId): nat {
    (if r.database != 0 then 4 else 0)
    + (if r.documentCollection != 0 || r.user != 0 then 4 else 0)
    + (if HasChild(r) then 8 else 0)
    + (if r.attachment != 0 then 4 else 0)
  }

  /** One `blockCopy(bytes, 0, val, offset, |bytes|)` into the buffer being built;
      None once a copy has run past its end. */
  function Put(val: Option<seq<Byte>>, offset: nat, bytes: seq<Byte>): (w: Option<seq<Byte>>)
    ensures w.Some? <==> val.Some? && offset + |bytes| <= |val.value|
    ensures w.Some? ==> |w.value| == |val.value| && w.value[offset..offset + |bytes|] == bytes
    ensures w.Some? ==> forall i :: 0 <= i < |val.value| && !(offset <= i < offset + |bytes|) ==>
                         w.value[i] == val.value[i]
  {
    if val.Some? && offset + |bytes| <= |val.value|
    then
      var b := BlockCopy(bytes, 0, val.value, offset, |bytes|);
      assert b[offset..offset + |bytes|] == bytes;
      Some(b)
    else None
  }

  /** The end of the last byte getValue writes: past the attachment, the child
      group, the collection-or-user slot (written only for a collection or a
      positive user) or the database, whichever is present and furthest. */
  function LastWriteEnd(r: ResourceId): nat {
    if r.attachment != 0 then 20
    else if HasChild(r) then 16
    else if r.documentCollection != 0 || r.user > 0 then 8
    else if r.database != 0 then 4
    else 0
  }

  /** The value in the collection-or-user slot: the collection when there is one,
      else the user when it is positive, else nothing (zero bytes). */
  function SlotValue(r: ResourceId): Int32 {
    if r.documentCollection != 0 then r.documentCollection
    else if r.user > 0 then r.user
    else 0
  }

  /** The child value that ends up in bytes 8..16. The copies are not one
      if-else chain, so a later one overwrites an earlier one: conflict, then
      document, then permission, then user-defined function, then trigger, then
      stored procedure, is the order in which a non-zero field wins. */
  function EffectiveChild(r: ResourceId): Int64 {
    if r.conflict != 0 then r.conflict
    else if r.document != 0 then r.document
    else if r.permission != 0 then r.permission
    else if r.userDefinedFunction != 0 then r.userDefinedFunction
    else if r.trigger != 0 then r.trigger
    else r.storedProcedure
  }

  /** The byte layout of an encoded identifier, group by group, for as many
      groups as the buffer holds. */
  predicate Layout(r: ResourceId, v: seq<Byte>) {
    && |v| == EncodedLength(r)
    && (|v| >= 4 ==> v[..4] == IntBytes(r.database))
    && (|v| >= 8 ==> v[4..8] == IntBytes(SlotValue(r)))
    && (|v| >= 16 ==> v[8..16] == LongBytes(EffectiveChild(r)))
    && (|v| >= 20 ==> v[16..20] == IntBytes(r.attachment))
  }

  lemma ZeroBytes()
    ensures IntBytes(0) == Zeros(4)
    ensures LongBytes(0) == Zeros(8)
  {
    assert ToBytes(0, 4) == Zeros(4);
    assert ToBytes(0, 8) == Zeros(8);
  }

  // The phases of getValue, one per group of copies.

  /** The database copy: bytes 0..4, when there is a database. */
  function WriteDatabase(r: ResourceId, val: Option<seq<Byte>>): (w: Option<seq<Byte>>)
    ensures w.Some? <==> val.Some? && (r.database != 0 ==> 4 <= |val.value|)
    ensures w.Some? ==> |w.value| == |val.value|
    ensures w.Some? && r.database != 0 ==> w.value[0..4] == IntBytes(r.database)
    ensures w.Some? ==> forall i :: 0 <= i < |val.value| && !(r.database != 0 && i < 4) ==>
                         w.value[i] == val.value[i]
  {
    if r.database != 0 then Put(val, 0, IntBytes(r.database)) else val
  }

  /** The collection-or-user copy: bytes 4..8, holding the collection, or else a
      positive user; a negative user is never written. */
  function WriteSlot(r: ResourceId, val: Option<seq<Byte>>): (w: Option<seq<Byte>>)
    ensures var written := r.documentCollection != 0 || r.user > 0;
            w.Some? <==> val.Some? && (written ==> 8 <= |val.value|)
    ensures w.Some? ==> |w.value| == |val.value|
    ensures w.Some? && (r.documentCollection != 0 || r.user > 0) ==> w.value[4..8] == IntBytes(SlotValue(r))
    ensures w.Some? ==> forall i :: 0 <= i < |val.value| && !((r.documentCollection != 0 || r.user > 0) && 4 <= i < 8) ==>
                         w.value[i] == val.value[i]
  {
    if r.documentCollection != 0 then Put(val, 4, IntBytes(r.documentCollection))
    else if r.user > 0 then Put(val, 4, IntBytes(r.user))
    else val
  }

  /** The six child copies: three independent ifs, then one if-else chain. */
  function WriteChild(r: ResourceId, val: Option<seq<Byte>>): (w: Option<seq<Byte>>)
    ensures w.Some? <==> val.Some? && (HasChild(r) ==> 16 <= |val.value|)
    ensures w.Some? ==> |w.value| == |val.value|
    ensures w.Some? && HasChild(r) ==> w.value[8..16] == LongBytes(EffectiveChild(r))
    ensures w.Some? ==> forall i :: 0 <= i < |val.value| && !(HasChild(r) && 8 <= i < 16) ==>
                         w.value[i] == val.value[i]
  {
    var val3 := if r.storedProcedure != 0 then Put(val, 8, LongBytes(r.storedProcedure)) else val;
    var val4 := if r.trigger != 0 then Put(val3, 8, LongBytes(r.trigger)) else val3;
    var val5 := if r.userDefinedFunction != 0 then Put(val4, 8, LongBytes(r.userDefinedFunction)) else val4;
    if r.conflict != 0 then Put(val5, 8, LongBytes(r.conflict))
    else if r.document != 0 then Put(val5, 8, LongBytes(r.document))
    else if r.permission != 0 then Put(val5, 8, LongBytes(r.permission))
    else val5
  }

  /** The attachment copy: bytes 16..20, when there is an attachment. */
  function WriteAttachment(r: ResourceId, val: Option<seq<Byte>>): (w: Option<seq<Byte>>)
    ensures w.Some? <==> val.Some? && (r.attachment != 0 ==> 20 <= |val.value|)
    ensures w.Some? ==> |w.value| == |val.value|
    ensures w.Some? && r.attachment != 0 ==> w.value[16..20] == IntBytes(r.attachment)
    ensures w.Some? ==> forall i :: 0 <= i < |val.value| && !(r.attachment != 0 && 16 <= i < 20) ==>
                         w.value[i] == val.value[i]
  {
    if r.attachment != 0 then Put(val, 16, IntBytes(r.attachment)) else val
  }

  /** getValue. It throws (None) exactly when some copy would run past the
      allocated length; otherwise the buffer has the allocated length. */
  function GetValue(r: ResourceId): (v: Option<seq<Byte>>)
    ensures v.Some? <==> LastWriteEnd(r) <= EncodedLength(r)
    ensures v.Some? ==> |v.value| == EncodedLength(r)
  {
    WriteAttachment(r, WriteChild(r, WriteSlot(r, WriteDatabase(r, Some(Zeros(EncodedLength(r)))))))
  }

  /** A successful getValue has the byte layout of r. */
  lemma GetValueLayout(r: ResourceId)
    requires GetValue(r).Some?
    ensures Layout(r, GetValue(r).value)
  {
    ZeroBytes();
    var z := Zeros(EncodedLength(r));
    var v1 := WriteDatabase(r, Some(z)).value;
    var v2 := WriteSlot(r, Some(v1)).value;
    var v3 := WriteChild(r, Some(v2)).value;
    var v := GetValue(r).value;
    var n := |v|;
    if n >= 4 {
      assert v1[..4] == IntBytes(r.database);
      assert v[..4] == v1[..4];
    }
    if n >= 8 {
      assert v2[4..8] == IntBytes(SlotValue(r));
      assert v[4..8] == v2[4..8];
    }
    if n >= 16 {
      assert v3[8..16] == LongBytes(EffectiveChild(r));
      assert v[8..16] == v3[8..16];
    }
    if n >= 20 {
      assert v[16..20] == IntBytes(r.attachment);
    }
  }

  /** An identifier without gaps encodes without throwing, to 0, 4, 8, 16 or 20 bytes. */
  lemma NoGapsEncodes(r: ResourceId)
    requires NoGaps(r)
    ensures GetValue(r).Some?
    ensures EncodedLength(r) in {0, 4, 8, 16, 20}
  {
  }

  /** The length of a well-formed identifier's buffer says how deep it is. */
  lemma WellFormedLength(r: ResourceId)
    requires WellFormed(r)
    ensures EncodedLength(r) == 4 <==> r.documentCollection == 0 && r.user == 0
    ensures EncodedLength(r) == 8 <==> (r.documentCollection != 0 || r.user != 0) && !HasChild(r)
    ensures EncodedLength(r) == 16 <==> HasChild(r) && r.attachment == 0
    ensures EncodedLength(r) == 20 <==> r.attachment != 0
  {
  }
}
