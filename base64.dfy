/**
 * The basic Base64 encoding of section 4 of RFC 4648: the 64-character
 * alphabet `A-Z a-z 0-9 + /`, padding with `=`, and no line breaks.
 */
module Base64 {

  newtype byte = x: int | 0 <= x < 256

  datatype Option<T> = None | Some(value: T)

  /** A character of the 64-character alphabet (the pad `=` is not one). */
  predicate IsDigit(c: char) {
    ('A' <= c <= 'Z') || ('a' <= c <= 'z') || ('0' <= c <= '9') || c == '+' || c == '/'
  }

  const Pad: char := '='

  /** The alphabet character with the given 6-bit value (table 1 of the RFC). */
  function Digit(v: int): (c: char)
    requires 0 <= v < 64
    ensures IsDigit(c)
  {
    if v < 26 then (65 + v) as char
    else if v < 52 then (97 + v - 26) as char
    else if v < 62 then (48 + v - 52) as char
    else if v == 62 then '+'
    else '/'
  }

  /** The 6-bit value of an alphabet character. */
  function Value(c: char): (v: int)
    requires IsDigit(c)
    ensures 0 <= v < 64 && Digit(v) == c
  {
    if 'A' <= c <= 'Z' then c as int - 65
    else if 'a' <= c <= 'z' then c as int - 97 + 26
    else if '0' <= c <= '9' then c as int - 48 + 52
    else if c == '+' then 62
    else 63
  }

  lemma ValueOfDigit(v: int)
    requires 0 <= v < 64
    ensures Value(Digit(v)) == v
  {
  }

  function Sextets(v0: int, v1: int, v2: int, v3: int): string
    requires 0 <= v0 < 64 && 0 <= v1 < 64 && 0 <= v2 < 64 && 0 <= v3 < 64
  {
    [Digit(v0), Digit(v1), Digit(v2), Digit(v3)]
  }

  /** Three bytes, 24 bits, as four 6-bit digits, most significant first. */
  function EncodeQuantum(b0: byte, b1: byte, b2: byte): string {
    var x0, x1, x2 := b0 as int, b1 as int, b2 as int;
    Sextets(x0 / 4, x0 % 4 * 16 + x1 / 16, x1 % 16 * 4 + x2 / 64, x2 % 64)
  }

  /** A final quantum of 16 bits: three digits, the last one zero-filled, and one pad. */
  function EncodeFinal2(b0: byte, b1: byte): string {
    var x0, x1 := b0 as int, b1 as int;
    [Digit(x0 / 4), Digit(x0 % 4 * 16 + x1 / 16), Digit(x1 % 16 * 4), Pad]
  }

  /** A final quantum of 8 bits: two digits, the last one zero-filled, and two pads. */
  function EncodeFinal1(b0: byte): string {
    var x0 := b0 as int;
    [Digit(x0 / 4), Digit(x0 % 4 * 16), Pad, Pad]
  }

  /** Number of pad characters for an input of n bytes. */
  function PadLength(n: nat): nat {
    if n % 3 == 0 then 0 else 3 - n % 3
  }

  /** The Base64 text of `b`: four characters per started group of three bytes. */
  function Encode(b: seq<byte>): (r: string)
    ensures |r| == 4 * ((|b| + 2) / 3)
    decreases |b|
  {
    if |b| == 0 then []
    else if |b| == 1 then EncodeFinal1(b[0])
    else if |b| == 2 then EncodeFinal2(b[0], b[1])
    else EncodeQuantum(b[0], b[1], b[2]) + Encode(b[3..])
  }

  /** The test vectors of section 10 of RFC 4648 (the bytes of "f", "fo", "foo" and "foobar"). */
  lemma EncodeTestVectors()
    ensures Encode([102]) == "Zg=="
    ensures Encode([102, 111]) == "Zm8="
    ensures Encode([102, 111, 111]) == "Zm9v"
    ensures Encode([102, 111, 111, 98, 97, 114]) == "Zm9vYmFy"
  {
    var foobar: seq<byte> := [102, 111, 111, 98, 97, 114];
    assert foobar[3..] == [98, 97, 114];
    assert Encode([98, 97, 114]) == "YmFy";
  }

  lemma PadLengthStep(n: nat)
    requires n >= 3
    ensures PadLength(n) == PadLength(n - 3)
  {
  }

  /** `r` is alphabet characters followed by exactly `pads` pad characters. */
  predicate Padded(r: string, pads: nat) {
    pads <= |r| &&
    forall i :: 0 <= i < |r| ==> if i < |r| - pads then IsDigit(r[i]) else r[i] == Pad
  }

  /**
   * The encoding is made of alphabet characters, except for the one or two
   * pads an incomplete last group needs; a pad occurs nowhere else.
   */
  lemma {:induction false} EncodeCharacters(b: seq<byte>)
    ensures Padded(Encode(b), PadLength(|b|))
    decreases |b|
  {
    var r := Encode(b);
    if |b| > 3 {
      var q := EncodeQuantum(b[0], b[1], b[2]);
      var t := Encode(b[3..]);
      EncodeCharacters(b[3..]);
      PadLengthStep(|b|);
      assert r == q + t && |t| >= 4;
      forall i | 0 <= i < |r|
        ensures if i < |r| - PadLength(|b|) then IsDigit(r[i]) else r[i] == Pad
      {
        if i >= 4 {
          assert r[i] == t[i - 4];
        } else {
          assert r[i] == q[i];
          assert IsDigit(q[0]) && IsDigit(q[1]) && IsDigit(q[2]) && IsDigit(q[3]);
        }
      }
    }
  }

  function DecodeQuantum(c0: char, c1: char, c2: char, c3: char): Option<seq<byte>> {
    if IsDigit(c0) && IsDigit(c1) && IsDigit(c2) && IsDigit(c3) then
      var v0, v1, v2, v3 := Value(c0), Value(c1), Value(c2), Value(c3);
      Some([(v0 * 4 + v1 / 16) as byte, (v1 % 16 * 16 + v2 / 4) as byte, (v2 % 4 * 64 + v3) as byte])
    else None
  }

  /**
   * The last group of four characters: a full quantum, or two digits and two
   * pads, or three digits and one pad; the bits a pad leaves over must be zero.
   */
  function DecodeFinal(c0: char, c1: char, c2: char, c3: char): Option<seq<byte>> {
    if IsDigit(c3) then DecodeQuantum(c0, c1, c2, c3)
    else if c3 == Pad && c2 == Pad && IsDigit(c0) && IsDigit(c1) && Value(c1) % 16 == 0 then
      Some([(Value(c0) * 4 + Value(c1) / 16) as byte])
    else if c3 == Pad && IsDigit(c0) && IsDigit(c1) && IsDigit(c2) && Value(c2) % 4 == 0 then
      var v0, v1, v2 := Value(c0), Value(c1), Value(c2);
      Some([(v0 * 4 + v1 / 16) as byte, (v1 % 16 * 16 + v2 / 4) as byte])
    else None
  }

  /**
   * The bytes a Base64 text stands for, or None when the text is not one:
   * a length that is not a multiple of four, a character outside the
   * alphabet, a pad anywhere but at the end, or non-zero leftover bits.
   */
  function Decode(s: string): Option<seq<byte>>
    decreases |s|
  {
    if |s| == 0 then Some([])
    else if |s| < 4 then None
    else if |s| == 4 then DecodeFinal(s[0], s[1], s[2], s[3])
    else match DecodeQuantum(s[0], s[1], s[2], s[3])
      case None => None
      case Some(q) =>
        match Decode(s[4..])
        case None => None
        case Some(rest) => Some(q + rest)
  }

  // ----- Group lemmas -----

  /** Three bytes cut into four sextets and joined again give the same bytes. */
  lemma SplitBytes(x0: int, x1: int, x2: int)
    requires 0 <= x0 < 256 && 0 <= x1 < 256 && 0 <= x2 < 256
    ensures var v0, v1, v2, v3 := x0 / 4, x0 % 4 * 16 + x1 / 16, x1 % 16 * 4 + x2 / 64, x2 % 64;
      0 <= v0 < 64 && 0 <= v1 < 64 && 0 <= v2 < 64 && 0 <= v3 < 64 &&
      v0 * 4 + v1 / 16 == x0 && v1 % 16 * 16 + v2 / 4 == x1 && v2 % 4 * 64 + v3 == x2
  {
  }

  /** Four sextets joined into three bytes and cut again give the same sextets. */
  lemma JoinSextets(v0: int, v1: int, v2: int, v3: int)
    requires 0 <= v0 < 64 && 0 <= v1 < 64 && 0 <= v2 < 64 && 0 <= v3 < 64
    ensures var x0, x1, x2 := v0 * 4 + v1 / 16, v1 % 16 * 16 + v2 / 4, v2 % 4 * 64 + v3;
      0 <= x0 < 256 && 0 <= x1 < 256 && 0 <= x2 < 256 &&
      x0 / 4 == v0 && x0 % 4 * 16 + x1 / 16 == v1 && x1 % 16 * 4 + x2 / 64 == v2 && x2 % 64 == v3
  {
  }

  lemma QuantumRoundTrip(b0: byte, b1: byte, b2: byte)
    ensures var q := EncodeQuantum(b0, b1, b2);
      DecodeQuantum(q[0], q[1], q[2], q[3]) == Some([b0, b1, b2])
  {
    var x0, x1, x2 := b0 as int, b1 as int, b2 as int;
    SplitBytes(x0, x1, x2);
    ValueOfDigit(x0 / 4);
    ValueOfDigit(x0 % 4 * 16 + x1 / 16);
    ValueOfDigit(x1 % 16 * 4 + x2 / 64);
    ValueOfDigit(x2 % 64);
  }

  lemma Final2RoundTrip(b0: byte, b1: byte)
    ensures var q := EncodeFinal2(b0, b1);
      DecodeFinal(q[0], q[1], q[2], q[3]) == Some([b0, b1])
  {
    var x0, x1 := b0 as int, b1 as int;
    SplitBytes(x0, x1, 0);
    ValueOfDigit(x0 / 4);
    ValueOfDigit(x0 % 4 * 16 + x1 / 16);
    ValueOfDigit(x1 % 16 * 4);
  }

  lemma Final1RoundTrip(b0: byte)
    ensures var q := EncodeFinal1(b0);
      DecodeFinal(q[0], q[1], q[2], q[3]) == Some([b0])
  {
    var x0 := b0 as int;
    SplitBytes(x0, 0, 0);
    ValueOfDigit(x0 / 4);
    ValueOfDigit(x0 % 4 * 16);
  }

  lemma QuantumUnique(c0: char, c1: char, c2: char, c3: char)
    requires DecodeQuantum(c0, c1, c2, c3).Some?
    ensures var b := DecodeQuantum(c0, c1, c2, c3).value;
      |b| == 3 && EncodeQuantum(b[0], b[1], b[2]) == [c0, c1, c2, c3]
  {
    var v0, v1, v2, v3 := Value(c0), Value(c1), Value(c2), Value(c3);
    JoinSextets(v0, v1, v2, v3);
    var x0, x1, x2 := v0 * 4 + v1 / 16, v1 % 16 * 16 + v2 / 4, v2 % 4 * 64 + v3;
    var b := DecodeQuantum(c0, c1, c2, c3).value;
    assert b == [x0 as byte, x1 as byte, x2 as byte];
    var y0, y1, y2 := b[0] as int, b[1] as int, b[2] as int;
    assert y0 == x0 && y1 == x1 && y2 == x2;
    assert y0 / 4 == v0 && y0 % 4 * 16 + y1 / 16 == v1 && y1 % 16 * 4 + y2 / 64 == v2 && y2 % 64 == v3;
    assert EncodeQuantum(b[0], b[1], b[2]) == Sextets(v0, v1, v2, v3);
  }

  lemma Final2Unique(c0: char, c1: char, c2: char)
    requires IsDigit(c0) && IsDigit(c1) && IsDigit(c2) && Value(c2) % 4 == 0
    ensures var v0, v1, v2 := Value(c0), Value(c1), Value(c2);
      EncodeFinal2((v0 * 4 + v1 / 16) as byte, (v1 % 16 * 16 + v2 / 4) as byte) == [c0, c1, c2, Pad]
  {
    var v0, v1, v2 := Value(c0), Value(c1), Value(c2);
    JoinSextets(v0, v1, v2, 0);
  }

  lemma Final1Unique(c0: char, c1: char)
    requires IsDigit(c0) && IsDigit(c1) && Value(c1) % 16 == 0
    ensures EncodeFinal1((Value(c0) * 4 + Value(c1) / 16) as byte) == [c0, c1, Pad, Pad]
  {
    JoinSextets(Value(c0), Value(c1), 0, 0);
  }

  lemma FinalUnique(c0: char, c1: char, c2: char, c3: char)
    requires DecodeFinal(c0, c1, c2, c3).Some?
    ensures var b := DecodeFinal(c0, c1, c2, c3).value;
      1 <= |b| <= 3 &&
      [c0, c1, c2, c3] == (if |b| == 3 then EncodeQuantum(b[0], b[1], b[2])
                           else if |b| == 2 then EncodeFinal2(b[0], b[1])
                           else EncodeFinal1(b[0]))
  {
    if IsDigit(c3) {
      QuantumUnique(c0, c1, c2, c3);
    } else if c2 == Pad {
      Final1Unique(c0, c1);
    } else {
      Final2Unique(c0, c1, c2);
    }
  }

  lemma SplitFront<T>(b: seq<T>)
    requires |b| >= 3
    ensures [b[0], b[1], b[2]] + b[3..] == b
  {
    assert b[..3] == [b[0], b[1], b[2]];
    assert b[..3] + b[3..] == b;
  }

  /** Decoding a text of more than one group: the first group, then the rest. */
  lemma DecodeGroups(q: string, t: string)
    requires |q| == 4 && |t| >= 4
    ensures Decode(q + t) ==
      match DecodeQuantum(q[0], q[1], q[2], q[3])
      case None => None
      case Some(g) => (match Decode(t) case None => None case Some(rest) => Some(g + rest))
  {
    var s := q + t;
    assert s[0] == q[0] && s[1] == q[1] && s[2] == q[2] && s[3] == q[3];
    assert s[4..] == t;
  }

  /** A group of three bytes in front of more bytes decodes in front of their decoding. */
  lemma DecodeGroupStep(b: seq<byte>)
    requires |b| > 3 && Decode(Encode(b[3..])) == Some(b[3..])
    ensures Decode(Encode(b)) == Some(b)
  {
    var q := EncodeQuantum(b[0], b[1], b[2]);
    var t := Encode(b[3..]);
    assert Encode(b) == q + t;
    QuantumRoundTrip(b[0], b[1], b[2]);
    DecodeGroups(q, t);
    SplitFront(b);
  }

  /** Decoding the encoding gives the bytes back. */
  lemma {:induction false} DecodeEncode(b: seq<byte>)
    ensures Decode(Encode(b)) == Some(b)
    decreases |b|
  {
    if |b| == 1 {
      Final1RoundTrip(b[0]);
      assert [b[0]] == b;
    } else if |b| == 2 {
      Final2RoundTrip(b[0], b[1]);
      assert [b[0], b[1]] == b;
    } else if |b| == 3 {
      var q := EncodeQuantum(b[0], b[1], b[2]);
      QuantumRoundTrip(b[0], b[1], b[2]);
      assert Encode(b[3..]) == [];
      assert Encode(b) == q + [] == q;
      assert IsDigit(q[3]);
      assert Decode(q) == DecodeQuantum(q[0], q[1], q[2], q[3]);
      SplitFront(b);
      assert [b[0], b[1], b[2]] + b[3..] == [b[0], b[1], b[2]];
    } else if |b| > 3 {
      DecodeEncode(b[3..]);
      DecodeGroupStep(b);
    }
  }

  /** A text of several groups that decodes is the first group's encoding before the rest's. */
  lemma EncodeGroupStep(s: string)
    requires |s| > 4 && Decode(s).Some?
    requires Decode(s[4..]).Some? ==> Encode(Decode(s[4..]).value) == s[4..]
    ensures Encode(Decode(s).value) == s
  {
    var q, t := s[..4], s[4..];
    assert s == q + t;
    DecodeGroups(q, t);
    QuantumUnique(q[0], q[1], q[2], q[3]);
    var g := DecodeQuantum(q[0], q[1], q[2], q[3]).value;
    var rest := Decode(t).value;
    var b := g + rest;
    assert |rest| > 0;
    assert b[..3] == g && b[3..] == rest;
    assert Encode(b) == EncodeQuantum(b[0], b[1], b[2]) + Encode(b[3..]);
    assert q == [q[0], q[1], q[2], q[3]];
  }

  /** Only the encoding of its own result decodes: Decode is injective on texts. */
  lemma {:induction false} EncodeDecode(s: string)
    requires Decode(s).Some?
    ensures Encode(Decode(s).value) == s
    decreases |s|
  {
    if |s| == 4 {
      FinalUnique(s[0], s[1], s[2], s[3]);
      assert s == [s[0], s[1], s[2], s[3]];
    } else if |s| > 4 {
      DecodeGroups(s[..4], s[4..]);
      assert s == s[..4] + s[4..];
      EncodeDecode(s[4..]);
      EncodeGroupStep(s);
    }
  }

  /** A text decodes to `b` exactly when it is the encoding of `b`. */
  lemma DecodeIsInverse(s: string, b: seq<byte>)
    ensures Decode(s) == Some(b) <==> s == Encode(b)
  {
    if Decode(s) == Some(b) {
      EncodeDecode(s);
    }
    if s == Encode(b) {
      DecodeEncode(b);
    }
  }

  /** Decode is partial: a character that is neither in the alphabet nor a pad is rejected. */
  lemma DecodeRejectsForeign(s: string, i: int)
    requires 0 <= i < |s| && !IsDigit(s[i]) && s[i] != Pad
    ensures Decode(s) == None
  {
    if Decode(s).Some? {
      EncodeDecode(s);
      EncodeCharacters(Decode(s).value);
    }
  }

  /** A pad is accepted only among the last two characters. */
  lemma DecodeRejectsInnerPad(s: string, i: int)
    requires 0 <= i < |s| - 2 && s[i] == Pad
    ensures Decode(s) == None
  {
    if Decode(s).Some? {
      EncodeDecode(s);
      EncodeCharacters(Decode(s).value);
    }
  }

  /** Every unpadded text over the alphabet whose length is a multiple of four decodes. */
  lemma {:induction false} DecodeAcceptsDigits(s: string)
    requires |s| % 4 == 0
    requires forall i :: 0 <= i < |s| ==> IsDigit(s[i])
    ensures Decode(s).Some?
    decreases |s|
  {
    if |s| > 4 {
      DecodeAcceptsDigits(s[4..]);
    }
  }
}
