/**
 * The whole envelope: serialization writes the Base64 text of the object's
 * bytes and escapes the reserved characters in it; deserialization unescapes
 * the tokens and decodes the Base64 text, failing (None) where the decoder
 * rejects its input. The object stream that produces and consumes the bytes
 * is not modelled: the model starts and ends at bytes.
 */
module SerialTransform {
  import opened Strings
  import opened Escaping
  import opened Base64

  function Serialize(b: seq<byte>): string {
    Escape(Encode(b))
  }

  function Deserialize(s: string): Option<seq<byte>> {
    Decode(Unescape(s))
  }

  /** A Base64 text holds no reserved character, so escaping leaves it as it is. */
  lemma SerializeIsEncode(b: seq<byte>)
    ensures Serialize(b) == Encode(b)
    ensures forall i :: 0 <= i < |Serialize(b)| ==> !Reserved(Serialize(b)[i])
  {
    var e := Encode(b);
    EncodeCharacters(b);
    assert forall i :: 0 <= i < |e| ==> !Reserved(e[i]);
    EscapeIdentity(e);
  }

  /** Bytes whose Base64 text holds no complete token survive the envelope. */
  lemma SerializeRoundTrip(b: seq<byte>)
    requires !Contains(Encode(b), Token(';'))
    requires !Contains(Encode(b), Token('"'))
    requires !Contains(Encode(b), Token('\n'))
    ensures Deserialize(Serialize(b)) == Some(b)
  {
    SerializeIsEncode(b);
    UnescapeWithoutTokens(Encode(b));
    DecodeEncode(b);
  }

  /** The Base64 text of 70 `"newline"` characters and `AA`: one newline token and a tail. */
  lemma TokenTextDecodes(s: string)
    requires s == Token('\n') + "AA"
    ensures Decode(s).Some? && Encode(Decode(s).value) == s
  {
    RepeatLength("newline", Repetitions);
    forall i | 0 <= i < |s| ensures IsDigit(s[i]) {
      if i < |Token('\n')| {
        assert s[i] in Token('\n');
        TokenChars('\n', s[i]);
      }
    }
    DecodeAcceptsDigits(s);
    EncodeDecode(s);
  }

  /** One newline token followed by `AA` unescapes to a newline followed by `AA`. */
  lemma UnescapeTokenText(s: string)
    requires s == Token('\n') + "AA"
    ensures Unescape(s) == "\n" + "AA"
  {
    NewlineTokenShape();
    UnescapeOneToken("AA");
  }

  /**
   * The token-freeness in `SerializeRoundTrip` is needed: there are bytes
   * whose Base64 text is a newline token followed by `AA`; that text
   * unescapes to `"\nAA"`, which does not decode.
   */
  lemma SerializeRoundTripNeedsTokenFree(b: seq<byte>)
    requires Encode(b) == Token('\n') + "AA"
    ensures Deserialize(Serialize(b)) == None
  {
    SerializeIsEncode(b);
    UnescapeTokenText(Encode(b));
  }

  /** Such bytes exist. */
  lemma TokenBytesExist()
    ensures exists b :: Encode(b) == Token('\n') + "AA" && Deserialize(Serialize(b)) == None
  {
    var s := Token('\n') + "AA";
    TokenTextDecodes(s);
    var b := Decode(s).value;
    SerializeRoundTripNeedsTokenFree(b);
  }
}
