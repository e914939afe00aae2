/**
 * The text form of an identifier: standard base64 with every '/' turned into '-'
 * after encoding and every '-' turned back into '/' before decoding. The base64
 * codec itself belongs to a library outside this model, so it is a parameter.
 */
module Base64Text {
  import opened Wrappers
  import opened Bytes

  /** A base64 codec: the library's encoder, and its decoder, where None stands
      for a decoder that threw or returned null. */
  datatype Base64Codec = Base64Codec(encode: seq<Byte> -> string, decode: string -> Option<seq<Byte>>)

  /** What the model assumes of the base64 library: decoding undoes encoding, the
      standard alphabet never produces '-', and only the empty buffer encodes to
      the empty string. */
  ghost predicate Sound(codec: Base64Codec) {
    && (forall bytes :: codec.decode(codec.encode(bytes)) == Some(bytes))
    && (forall bytes :: '-' !in codec.encode(bytes))
    && (forall bytes :: codec.encode(bytes) == [] ==> bytes == [])
  }

  /** String.replace(from, to): every occurrence of one character swapped for another. */
  function Replace(s: string, from: char, to: char): (r: string)
    ensures |r| == |s|
    ensures forall i :: 0 <= i < |s| ==> r[i] == (if s[i] == from then to else s[i])
  {
    if |s| == 0 then []
    else Replace(s[..|s| - 1], from, to) + [if s[|s| - 1] == from then to else s[|s| - 1]]
  }

  /** Turning '-' back into '/' undoes turning '/' into '-' on text without '-'. */
  lemma SubstitutionUndone(s: string)
    requires '-' !in s
    ensures Replace(Replace(s, '/', '-'), '-', '/') == s
  {
    var r := Replace(Replace(s, '/', '-'), '-', '/');
    assert forall i :: 0 <= i < |s| ==> r[i] == s[i];
  }

  /** toBase64String(buffer): the library's base64 text with '/' replaced by '-'. */
  function ToBase64String(codec: Base64Codec, buffer: seq<Byte>): (s: string)
    ensures '/' !in s
  {
    Replace(codec.encode(buffer), '/', '-')
  }

  /** fromBase64String(s): '-' turned back into '/', then the library's decoder. */
  function FromBase64String(codec: Base64Codec, s: string): Option<seq<Byte>>
  {
    codec.decode(Replace(s, '-', '/'))
  }

  /** The text form of a buffer decodes back to the buffer, and is not empty
      unless the buffer is. */
  lemma {:induction false} TextRoundTrip(codec: Base64Codec, buffer: seq<Byte>)
    requires Sound(codec)
    ensures FromBase64String(codec, ToBase64String(codec, buffer)) == Some(buffer)
    ensures buffer != [] ==> ToBase64String(codec, buffer) != []
  {
    SubstitutionUndone(codec.encode(buffer));
  }
}
