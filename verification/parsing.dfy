/**
 * The byte-level half of tryParse: from a decoded buffer to an identifier. The
 * high bit of byte 4 chooses between a collection and a user; under a collection
 * the high nibble of byte 15, read as a signed byte shifted right by four, chooses
 * the kind of child.
 */
module Parsing {
  import opened Wrappers
  import opened Bytes
  import opened ResourceIds

  /** tryParse's Pair<Boolean, ResourceId>: Valid(rid) is (true, rid); Invalid(None)
      is (false, null); Invalid(Some(rid)) is (false, rid), a failure that still
      reports the fields read so far. */
  datatype ParseResult = Valid(id: ResourceId) | Invalid(partial: Option<ResourceId>) {
    /** The identifier carried, if any. */
    function Recovered(): Option<ResourceId> {
      match this
      case Valid(id) => Some(id)
      case Invalid(partial) => partial
    }
  }

  /** The identifier read from a decoded buffer. Every read is in bounds for every
      buffer length, so the catch-all of tryParse is never reached from here: a
      failure always carries the partial identifier. */
  function ParseBytes(buffer: seq<Byte>): (res: ParseResult)
    ensures res.Recovered().Some?
    ensures |buffer| < 8 ==>
              res == Valid(Empty.(database := if |buffer| >= 4 then GetInt(buffer, 0) else 0))
    ensures |buffer| >= 8 && buffer[4] >= 0x80 ==>
              res.Recovered().value.documentCollection < 0 && res.Recovered().value.user == 0
    ensures |buffer| >= 8 && buffer[4] < 0x80 ==>
              res.Recovered().value.user >= 0 && res.Recovered().value.documentCollection == 0
    ensures res.Valid? ==> ChildCount(res.id) <= 1
  {
    var rid := if |buffer| >= 4 then Empty.(database := GetInt(buffer, 0)) else Empty;
    if |buffer| < 8 then Valid(rid)
    else
      var temp := BlockCopy(buffer, 4, Zeros(4), 0, 4);
      assert temp == buffer[4..8];
      GetIntSign(temp, 0);
      var isCollection := temp[0] >= 0x80;  // (temp[0] & 128) > 0
      if isCollection then
        var rid := rid.(documentCollection := GetInt(temp, 0));
        if |buffer| >= 16 then
          var subCollRes := BlockCopy(buffer, 8, Zeros(8), 0, 8);
          var subCollectionResource := GetLong(buffer, 8);
          var tag := ShiftRight4(subCollRes[7]);
          if tag == DocumentTag then
            Valid(rid.(document := subCollectionResource,
                       attachment := if |buffer| == 20 then GetInt(buffer, 16) else 0))
          else if Abs(tag) == StoredProcedureTag then Valid(rid.(storedProcedure := subCollectionResource))
          else if tag == TriggerTag then Valid(rid.(trigger := subCollectionResource))
          else if tag == UserDefinedFunctionTag then Valid(rid.(userDefinedFunction := subCollectionResource))
          else if tag == ConflictTag then Valid(rid.(conflict := subCollectionResource))
          else Invalid(Some(rid))
        else if |buffer| != 8 then Invalid(Some(rid))
        else Valid(rid)
      else
        var rid := rid.(user := GetInt(temp, 0));
        if |buffer| == 16 then Valid(rid.(permission := GetLong(buffer, 8)))
        else if |buffer| != 8 then Invalid(Some(rid))
        else Valid(rid)
  }

  /** The tag dispatch under a collection, for each value of the shifted nibble:
      the CollectionChildResourceType constants, where the stored-procedure tag
      0x8 arrives as -8 from the arithmetic shift. */
  lemma TagDispatch(buffer: seq<Byte>)
    requires |buffer| >= 16 && buffer[4] >= 0x80
    ensures var rid := Empty.(database := GetInt(buffer, 0), documentCollection := GetInt(buffer, 4));
            var child := GetLong(buffer, 8);
            var tag := ShiftRight4(buffer[15]);
            var attachment := if |buffer| == 20 then GetInt(buffer, 16) else 0;
            && (tag == DocumentTag ==> ParseBytes(buffer) == Valid(rid.(document := child, attachment := attachment)))
            && (tag == -StoredProcedureTag ==> ParseBytes(buffer) == Valid(rid.(storedProcedure := child)))
            && (tag == TriggerTag ==> ParseBytes(buffer) == Valid(rid.(trigger := child)))
            && (tag == UserDefinedFunctionTag ==> ParseBytes(buffer) == Valid(rid.(userDefinedFunction := child)))
            && (tag == ConflictTag ==> ParseBytes(buffer) == Valid(rid.(conflict := child)))
            && (tag !in {DocumentTag, -StoredProcedureTag, TriggerTag, UserDefinedFunctionTag, ConflictTag} ==>
                  ParseBytes(buffer) == Invalid(Some(rid)))
  {
  }

  /** The user branch: a user with no child at length 8, a user and a permission
      (read without looking at any tag) at length 16, a failure at any other length. */
  lemma UserDispatch(buffer: seq<Byte>)
    requires |buffer| >= 8 && buffer[4] < 0x80
    ensures var rid := Empty.(database := GetInt(buffer, 0), user := GetInt(buffer, 4));
            && (|buffer| == 8 ==> ParseBytes(buffer) == Valid(rid))
            && (|buffer| == 16 ==> ParseBytes(buffer) == Valid(rid.(permission := GetLong(buffer, 8))))
            && (|buffer| !in {8, 16} ==> ParseBytes(buffer) == Invalid(Some(rid)))
  {
  }

  /** A collection with no child: accepted at length 8 only, below 16. */
  lemma CollectionDispatch(buffer: seq<Byte>)
    requires 8 <= |buffer| < 16 && buffer[4] >= 0x80
    ensures var rid := Empty.(database := GetInt(buffer, 0), documentCollection := GetInt(buffer, 4));
            && (|buffer| == 8 ==> ParseBytes(buffer) == Valid(rid))
            && (|buffer| != 8 ==> ParseBytes(buffer) == Invalid(Some(rid)))
  {
  }

  /** Only the nibble 0x8 gives a shifted tag whose absolute value is 8. */
  lemma StoredProcedureNibble(b: Byte)
    ensures Abs(ShiftRight4(b)) == StoredProcedureTag <==> b / 16 == 0x8
    ensures Abs(ShiftRight4(b)) == StoredProcedureTag <==> ShiftRight4(b) == -8
  {
  }

  /** Which buffer lengths each branch accepts. */
  lemma LengthRules(buffer: seq<Byte>)
    ensures |buffer| >= 8 && buffer[4] < 0x80 ==> (ParseBytes(buffer).Valid? <==> |buffer| in {8, 16})
    ensures |buffer| >= 8 && buffer[4] < 0x80 && |buffer| == 16 ==>
              ParseBytes(buffer).id.permission == GetLong(buffer, 8)
    ensures 9 <= |buffer| <= 15 ==> ParseBytes(buffer).Invalid?
    ensures ParseBytes(buffer).Valid? && ParseBytes(buffer).id.attachment != 0 ==>
              |buffer| == 20 && buffer[4] >= 0x80 && ShiftRight4(buffer[15]) == DocumentTag
  {
  }
}
