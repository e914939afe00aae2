/**
 * The byte-level round trip between getValue and the parse of its buffer, both
 * ways, and the identifiers for which it breaks.
 */
module RoundTrip {
  import opened Wrappers
  import opened Bytes
  import opened ResourceIds
  import opened Encoding
  import opened Parsing

  /** The child value of a well-formed identifier is whichever child field is set. */
  lemma OnlyChild(r: ResourceId)
    requires WellFormed(r)
    ensures r.storedProcedure != 0 ==> EffectiveChild(r) == r.storedProcedure
    ensures r.trigger != 0 ==> EffectiveChild(r) == r.trigger
    ensures r.userDefinedFunction != 0 ==> EffectiveChild(r) == r.userDefinedFunction
    ensures r.conflict != 0 ==> EffectiveChild(r) == r.conflict
    ensures r.document != 0 ==> EffectiveChild(r) == r.document
    ensures r.permission != 0 ==> EffectiveChild(r) == r.permission
  {
  }

  /** Parsing under a collection: the child group of a well-formed collection-level
      identifier is read back into the field it came from. */
  lemma {:induction false} ParseCollectionChild(r: ResourceId, v: seq<Byte>)
    requires WellFormed(r) && r.documentCollection != 0 && HasChild(r)
    requires Layout(r, v)
    ensures ParseBytes(v) == Valid(r)
  {
    OnlyChild(r);
    var c := EffectiveChild(r);
    GetIntAt(v, 0, r.database);
    GetIntAt(v, 4, r.documentCollection);
    IntSignBit(r.documentCollection);
    assert v[4] == IntBytes(r.documentCollection)[0];
    GetLongAt(v, 8, c);
    assert v[15] == LongBytes(c)[7];
    var attachment := if |v| == 20 then GetInt(v, 16) else 0;
    if |v| == 20 {
      GetIntAt(v, 16, r.attachment);
    }
    assert attachment == r.attachment;
    TagDispatch(v);
    var rid := Empty.(database := r.database, documentCollection := r.documentCollection);
    if r.document != 0 {
      assert r == rid.(document := c, attachment := attachment);
    } else if r.storedProcedure != 0 {
      assert r == rid.(storedProcedure := c);
    } else if r.trigger != 0 {
      assert r == rid.(trigger := c);
    } else if r.userDefinedFunction != 0 {
      assert r == rid.(userDefinedFunction := c);
    } else {
      assert r == rid.(conflict := c);
    }
  }

  /** Parsing under a user: the permission, if any, is read back. */
  lemma {:induction false} ParseUser(r: ResourceId, v: seq<Byte>)
    requires WellFormed(r) && r.user != 0
    requires Layout(r, v)
    ensures ParseBytes(v) == Valid(r)
  {
    OnlyChild(r);
    GetIntAt(v, 0, r.database);
    GetIntAt(v, 4, r.user);
    IntSignBit(r.user);
    assert v[4] == IntBytes(r.user)[0];
    UserDispatch(v);
    var rid := Empty.(database := r.database, user := r.user);
    if |v| == 16 {
      GetLongAt(v, 8, r.permission);
      assert r == rid.(permission := r.permission);
    } else {
      assert r == rid;
    }
  }

  /** The round trip: a well-formed identifier encodes without throwing, and
      parsing its buffer gives back every one of its fields. */
  lemma {:induction false} ParseGetValue(r: ResourceId)
    requires WellFormed(r)
    ensures GetValue(r).Some?
    ensures ParseBytes(GetValue(r).value) == Valid(r)
  {
    NoGapsEncodes(r);
    var v := GetValue(r).value;
    GetValueLayout(r);
    if r.user != 0 {
      ParseUser(r, v);
    } else if r.documentCollection != 0 && HasChild(r) {
      ParseCollectionChild(r, v);
    } else if r.documentCollection != 0 {
      GetIntAt(v, 0, r.database);
      GetIntAt(v, 4, r.documentCollection);
      IntSignBit(r.documentCollection);
      assert v[4] == IntBytes(r.documentCollection)[0];
      CollectionDispatch(v);
    } else {
      GetIntAt(v, 0, r.database);
    }
  }

  /** Two buffers of a canonical length that agree group by group are equal. */
  lemma EqualByGroups(v: seq<Byte>, b: seq<Byte>)
    requires |v| == |b| && |b| in {4, 8, 16, 20}
    requires v[..4] == b[..4]
    requires |b| >= 8 ==> v[4..8] == b[4..8]
    requires |b| >= 16 ==> v[8..16] == b[8..16]
    requires |b| >= 20 ==> v[16..20] == b[16..20]
    ensures v == b
  {
    forall i | 0 <= i < |b| ensures v[i] == b[i] {
      if i < 4 {
        assert v[i] == v[..4][i];
        assert b[i] == b[..4][i];
      } else if i < 8 {
        assert v[i] == v[4..8][i - 4];
        assert b[i] == b[4..8][i - 4];
      } else if i < 16 {
        assert v[i] == v[8..16][i - 8];
        assert b[i] == b[8..16][i - 8];
      } else {
        assert v[i] == v[16..20][i - 16];
        assert b[i] == b[16..20][i - 16];
      }
    }
  }

  /** The groups of a buffer, written back from the fields parsed out of it. */
  lemma GroupsOfParsed(buffer: seq<Byte>)
    requires |buffer| >= 4
    ensures IntBytes(GetInt(buffer, 0)) == buffer[..4]
    ensures |buffer| >= 8 ==> IntBytes(GetInt(buffer, 4)) == buffer[4..8]
    ensures |buffer| >= 16 ==> LongBytes(GetLong(buffer, 8)) == buffer[8..16]
    ensures |buffer| >= 20 ==> IntBytes(GetInt(buffer, 16)) == buffer[16..20]
  {
    IntBytesGet(buffer, 0);
    if |buffer| >= 8 {
      IntBytesGet(buffer, 4);
    }
    if |buffer| >= 16 {
      LongBytesGet(buffer, 8);
    }
    if |buffer| >= 20 {
      IntBytesGet(buffer, 16);
    }
  }

  /** The other direction: a buffer that parses to a well-formed identifier whose
      encoded length is the buffer's own length is exactly that identifier's
      encoding, so no two such buffers parse alike. */
  lemma {:induction false} GetValueParse(buffer: seq<Byte>)
    requires ParseBytes(buffer).Valid?
    requires WellFormed(ParseBytes(buffer).id)
    requires |buffer| == EncodedLength(ParseBytes(buffer).id)
    ensures GetValue(ParseBytes(buffer).id) == Some(buffer)
  {
    var r := ParseBytes(buffer).id;
    NoGapsEncodes(r);
    GetValueLayout(r);
    var v := GetValue(r).value;
    GroupsOfParsed(buffer);
    if |buffer| >= 8 {
      if buffer[4] < 0x80 {
        UserDispatch(buffer);
        assert SlotValue(r) == GetInt(buffer, 4) by {
          if GetInt(buffer, 4) == 0 { ZeroBytes(); }
        }
        if |buffer| == 16 {
          assert EffectiveChild(r) == GetLong(buffer, 8);
        }
      } else if |buffer| < 16 {
        CollectionDispatch(buffer);
      } else {
        TagDispatch(buffer);
        assert EffectiveChild(r) == GetLong(buffer, 8) by {
          if GetLong(buffer, 8) == 0 { ZeroBytes(); }
        }
      }
    }
    EqualByGroups(v, buffer);
  }

  // Identifiers outside WellFormed for which the round trip breaks.

  /** A collection whose high bit is clear encodes fine but reads back as a user. */
  lemma PositiveCollectionReadsAsUser(d: Int32, c: Int32)
    requires d != 0 && c > 0
    ensures var r := Empty.(database := d, documentCollection := c);
            GetValue(r).Some? && ParseBytes(GetValue(r).value) == Valid(Empty.(database := d, user := c))
  {
    var r := Empty.(database := d, documentCollection := c);
    GetValueLayout(r);
    var v := GetValue(r).value;
    GetIntAt(v, 0, d);
    GetIntAt(v, 4, c);
    IntSignBit(c);
    assert v[4] == IntBytes(c)[0];
    UserDispatch(v);
  }

  /** A negative user counts toward the length but is never written: its four
      bytes stay zero and read back as no user at all. */
  lemma NegativeUserIsDropped(d: Int32, u: Int32)
    requires d != 0 && u < 0
    ensures var r := Empty.(database := d, user := u);
            && GetValue(r) == Some(IntBytes(d) + Zeros(4))
            && ParseBytes(GetValue(r).value) == Valid(Empty.(database := d))
  {
    var r := Empty.(database := d, user := u);
    GetValueLayout(r);
    ZeroBytes();
    var v := GetValue(r).value;
    EqualByGroups(v, IntBytes(d) + Zeros(4));
    GetIntAt(v, 0, d);
    GetIntAt(v, 4, 0);
    UserDispatch(v);
  }

  /** The role of a child comes from its tag nibble, not from the field it was in:
      a stored procedure whose low byte has high nibble 0 reads back as a document.
      The number 9 is one such stored procedure. */
  lemma UntaggedStoredProcedureReadsAsDocument(d: Int32, c: Int32, sp: Int64)
    requires d != 0 && c < 0 && sp != 0 && ChildTag(sp) == DocumentTag
    ensures var r := Empty.(database := d, documentCollection := c, storedProcedure := sp);
            && GetValue(r).Some?
            && ParseBytes(GetValue(r).value) == Valid(Empty.(database := d, documentCollection := c, document := sp))
    ensures ChildTag(9) == DocumentTag
  {
    assert LongBytes(9)[7] == 9 % 256;
    var r := Empty.(database := d, documentCollection := c, storedProcedure := sp);
    GetValueLayout(r);
    var v := GetValue(r).value;
    GetIntAt(v, 0, d);
    GetIntAt(v, 4, c);
    IntSignBit(c);
    assert v[4] == IntBytes(c)[0];
    GetLongAt(v, 8, sp);
    assert v[15] == LongBytes(sp)[7];
    TagDispatch(v);
  }
}
