# Text-safe serial envelope and warning log, in Dafny

This project models two parts of the xmlSerial flow library.

**The serial-string transform** is in `IXMLSerialTransform.java`. `serialize` writes an object's bytes as Base64 text. It then replaces every newline, double quote and semicolon by a sentinel token: the word `newline`, `quote` or `semicolon` written ten times. The `times` helper builds each token, which makes the text safe to embed in markup. `deserialize` turns each complete token back into its character, from semicolon to newline, and Base64-decodes the result.

The model is layered as follows.

- `Strings` holds word repetition, substring occurrence and the literal, leftmost, non-overlapping `ReplaceAll`.
- `Escaping` holds the two replace chains, `Times`, and the proofs about them.
- `Base64` is the basic encoding of section 4 of RFC 4648. It has the alphabet `A-Z a-z 0-9 + /` and `=` padding, with no line breaks.
- `SerialTransform` holds the composition `Serialize(b) = Escape(Encode(b))` and `Deserialize(s) = Decode(Unescape(s))`. The model starts and ends at bytes.

Deserialization fails when the decoder rejects its input, which Java reports as an `IllegalArgumentException`. The model returns `None` instead.

The main results are:
- Escaping leaves no reserved character.
- Escaping is the identity on text without reserved characters, so on every Base64 text.
- Unescaping undoes escaping whenever the text contains none of the three sentinel words.
- The model's strict Base64 decoder is the exact inverse of encoding. The JDK decoder is more lenient; see "Left out".
- The whole envelope gives the bytes back whenever their Base64 text contains no complete token.
- That condition cannot be dropped. Some bytes have the Base64 text "`newline` × 10 followed by `AA`", and for those bytes deserialization fails, because the text unescapes to `"\nAA"`.

**The warning log** is `Warning.java`. Each warning takes the next value of a static `int` counter as its id. It carries a description and an error flag, and can be appended to a static log.

The model gathers the two static fields in one `WarningLog` object, `Warnings.WarningLog`, which every constructor and operation receives. A ghost count of created warnings, `issued`, ties the counter to a closed form: the k-th warning's id is k wrapped to a Java `int`.

Equality and hash codes are by id, as in the source. The getters `getId`, `getDescription` and `isError` are the functions `GetId`, `GetDescription` and `IsError`, which return the field.

One might expect ids to be unique and increasing. The code increments a Java `int`, which wraps after 2^31 warnings. The model follows the code: ids count up from 0 until the overflow (`IdsCountUp`, `IdOverflow`). They are distinct among fewer than 2^32 consecutive creations (`IdsDistinct`) and repeat after that (`IdsRepeat`). So two warnings 2^32 creations apart are equal (`WrappedWarningsEqual`).

## Model

| member | source | states |
|---|---|---|
| `Strings.ReplaceAll` | src/main/java/org/jojo/flow/model/api/IXMLSerialTransform.java:93-95 | Literal `replaceAll`: scanning left to right, each occurrence of the pattern at the current position is replaced and scanning resumes after it, otherwise one character is copied. Its properties are `Strings.ReplaceSingleChar`, `Strings.ReplaceAbsent`, `Strings.ReplaceRuns` and `Strings.ReplaceChainOnRuns`. |
| `Escaping.Word` | src/main/java/org/jojo/flow/model/api/IXMLSerialTransform.java:93-95 | The sentinel word of each reserved character: `newline`, `quote` or `semicolon`, at least five characters long. |
| `Escaping.Token` | src/main/java/org/jojo/flow/model/api/IXMLSerialTransform.java:93-95 | The token of a reserved character is its word written ten times, `times(word, 10)`, so it is ten times the word's length. `Escaping.Times` shows the builder produces it. |
| `Escaping.Escape` | src/main/java/org/jojo/flow/model/api/IXMLSerialTransform.java:93-95 | The serialization replace chain: newline, then quote, then semicolon, each by its token. Its properties are `Escaping.EscapeIsExpand`, `Escaping.EscapeRemovesReserved`, `Escaping.EscapeIdentity` and `Escaping.EscapeRoundTrip`. |
| `Escaping.Unescape` | src/main/java/org/jojo/flow/model/api/IXMLSerialTransform.java:118-120 | The deserialization replace chain: semicolon, then quote, then newline tokens, each back to its character. Its properties are `Escaping.UnescapeExpansion`, `Escaping.UnescapeWithoutTokens`, `Escaping.UnescapeNewlineWords` and `Escaping.EscapeRoundTrip`. |
| `Escaping.Times` | src/main/java/org/jojo/flow/model/api/IXMLSerialTransform.java:98-104 | The builder loop yields the word repeated `n` times (nothing for `n <= 0`); its length is `n * |w|`. |
| `Escaping.EscapeIsExpand` | src/main/java/org/jojo/flow/model/api/IXMLSerialTransform.java:93-95 | The three literal replacements amount to replacing each reserved character by its own token, character by character. |
| `Escaping.EscapeRemovesReserved` | src/main/java/org/jojo/flow/model/api/IXMLSerialTransform.java:93-95 | No newline, double quote or semicolon is left after escaping. |
| `Escaping.EscapeIdentity` | src/main/java/org/jojo/flow/model/api/IXMLSerialTransform.java:93-95 | Escaping leaves a string unchanged exactly when it holds no reserved character. |
| `Escaping.UnescapeStep` | src/main/java/org/jojo/flow/model/api/IXMLSerialTransform.java:118-120 | Each unescape pass, applied to the partially expanded string, turns exactly the tokens of its own character back into that character. |
| `Escaping.UnescapeExpansion` | src/main/java/org/jojo/flow/model/api/IXMLSerialTransform.java:118-120 | The three unescape passes, in source order, take the full expansion of a word-free string back to the string. |
| `Escaping.EscapeRoundTrip` | src/main/java/org/jojo/flow/model/api/IXMLSerialTransform.java:93-95 | Unescaping undoes escaping for every string in which `newline`, `quote` and `semicolon` do not occur. |
| `Escaping.UnescapeWithoutTokens` | src/main/java/org/jojo/flow/model/api/IXMLSerialTransform.java:118-120 | A string without a complete token is left unchanged by unescaping. |
| `Escaping.UnescapeNewlineRun` | src/main/java/org/jojo/flow/model/api/IXMLSerialTransform.java:118-120 | j newline tokens and a short tail none of whose characters starts a token unescape to j newlines and the same tail. |
| `Escaping.UnescapeOneToken` | src/main/java/org/jojo/flow/model/api/IXMLSerialTransform.java:120 | One newline token and such a tail unescape to a newline and the tail. |
| `Escaping.NewlineTokens` | src/main/java/org/jojo/flow/model/api/IXMLSerialTransform.java:93 | k newline tokens are 10·k `newline` words. |
| `Escaping.UnescapeNewlineWords` | src/main/java/org/jojo/flow/model/api/IXMLSerialTransform.java:118-120 | n `newline` words unescape to n / 10 newlines followed by the n % 10 words left over: ×9 unchanged, ×11 a newline and one word, ×20 two newlines. |
| `Escaping.EscapeWordsAndNewline` | src/main/java/org/jojo/flow/model/api/IXMLSerialTransform.java:93-95 | m `newline` words and a newline escape to m + 10 words. |
| `Escaping.EscapeRoundTripNeedsWordFree` | src/main/java/org/jojo/flow/model/api/IXMLSerialTransform.java:93-95 | For 0 < m < 10, m words and a newline come back as a newline and m words, not as the original: the word-free condition is needed. |
| `Strings.ReplaceSingleChar` | src/main/java/org/jojo/flow/model/api/IXMLSerialTransform.java:93-95 | Replacing a quoted one-character pattern is the per-character substitution. |
| `Strings.ReplaceAbsent` | src/main/java/org/jojo/flow/model/api/IXMLSerialTransform.java:118-120 | A replacement whose pattern does not occur changes nothing. |
| `Strings.ReplaceRuns` | src/main/java/org/jojo/flow/model/api/IXMLSerialTransform.java:118-120 | j copies of the pattern and a tail shorter than it become j replacements and the tail. |
| `Strings.ReplaceChainOnRuns` | src/main/java/org/jojo/flow/model/api/IXMLSerialTransform.java:118-120 | Of three passes over such a run, the two whose patterns cannot start in it change nothing. |
| `Base64.Value` | src/main/java/org/jojo/flow/model/api/IXMLSerialTransform.java:117 | The 6-bit value of an alphabet character, in 0..63, is the value the alphabet maps back to that character. |
| `Base64.ValueOfDigit` | src/main/java/org/jojo/flow/model/api/IXMLSerialTransform.java:92 | The alphabet character of a 6-bit value has that value. |
| `Base64.Encode` | src/main/java/org/jojo/flow/model/api/IXMLSerialTransform.java:92 | The encoding of n bytes is 4·⌈n / 3⌉ characters long. |
| `Base64.EncodeTestVectors` | src/main/java/org/jojo/flow/model/api/IXMLSerialTransform.java:92 | The encoder gives the test vectors of section 10 of RFC 4648: `f` is `Zg==`, `fo` is `Zm8=`, `foo` is `Zm9v` and `foobar` is `Zm9vYmFy`. This ties it to the RFC's alphabet and bit order. |
| `Base64.EncodeCharacters` | src/main/java/org/jojo/flow/model/api/IXMLSerialTransform.java:92 | The encoding is alphabet characters followed by exactly the 0, 1 or 2 pads an incomplete last group needs; `=` occurs nowhere else. |
| `Base64.Decode` | src/main/java/org/jojo/flow/model/api/IXMLSerialTransform.java:117 | Strict Base64 decoding group by group, `None` for a text that is not one. Its properties are `Base64.DecodeIsInverse`, `Base64.DecodeRejectsForeign`, `Base64.DecodeRejectsInnerPad` and `Base64.DecodeAcceptsDigits`. |
| `Base64.QuantumRoundTrip` | src/main/java/org/jojo/flow/model/api/IXMLSerialTransform.java:117 | A full group of four digits decodes to the three bytes it encodes. |
| `Base64.FinalUnique` | src/main/java/org/jojo/flow/model/api/IXMLSerialTransform.java:117 | A last group that decodes is the encoding of the 1, 2 or 3 bytes it decodes to. |
| `Base64.DecodeEncode` | src/main/java/org/jojo/flow/model/api/IXMLSerialTransform.java:92 | Decoding the encoding of any bytes gives the bytes back. |
| `Base64.EncodeDecode` | src/main/java/org/jojo/flow/model/api/IXMLSerialTransform.java:117 | A text that decodes is the encoding of what it decodes to. |
| `Base64.DecodeIsInverse` | src/main/java/org/jojo/flow/model/api/IXMLSerialTransform.java:117 | A text decodes to `b` exactly when it is the encoding of `b`. |
| `Base64.DecodeRejectsForeign` | src/main/java/org/jojo/flow/model/api/IXMLSerialTransform.java:117 | A character outside the alphabet that is not `=` makes decoding fail. |
| `Base64.DecodeRejectsInnerPad` | src/main/java/org/jojo/flow/model/api/IXMLSerialTransform.java:117 | A pad before the last two characters makes decoding fail. |
| `Base64.DecodeAcceptsDigits` | src/main/java/org/jojo/flow/model/api/IXMLSerialTransform.java:117 | Every alphabet-only text whose length is a multiple of four decodes. |
| `SerialTransform.Serialize` | src/main/java/org/jojo/flow/model/api/IXMLSerialTransform.java:86-96 | The serial string is the escaped Base64 text of the object's bytes. `SerialTransform.SerializeIsEncode` shows it is the plain Base64 text. |
| `SerialTransform.Deserialize` | src/main/java/org/jojo/flow/model/api/IXMLSerialTransform.java:114-125 | The bytes are the decoding of the unescaped serial string, or `None` where the strict decoder rejects its input. Its properties are `SerialTransform.SerializeRoundTrip` and `SerialTransform.TokenBytesExist`. |
| `SerialTransform.SerializeIsEncode` | src/main/java/org/jojo/flow/model/api/IXMLSerialTransform.java:92-95 | The serial string is the plain Base64 text and holds no reserved character. |
| `SerialTransform.SerializeRoundTrip` | src/main/java/org/jojo/flow/model/api/IXMLSerialTransform.java:114-120 | Bytes whose Base64 text contains no complete token come back unchanged from deserialization. |
| `SerialTransform.TokenTextDecodes` | src/main/java/org/jojo/flow/model/api/IXMLSerialTransform.java:117 | A newline token followed by `AA` is a valid Base64 text: it decodes, and re-encodes to itself. |
| `SerialTransform.UnescapeTokenText` | src/main/java/org/jojo/flow/model/api/IXMLSerialTransform.java:118-120 | That text unescapes to a newline followed by `AA`. |
| `SerialTransform.SerializeRoundTripNeedsTokenFree` | src/main/java/org/jojo/flow/model/api/IXMLSerialTransform.java:86-120 | Bytes whose Base64 text is that token text do not survive serialization and deserialization: decoding fails. |
| `SerialTransform.TokenBytesExist` | src/main/java/org/jojo/flow/model/api/IXMLSerialTransform.java:86-120 | Such bytes exist, so the round trip of the envelope is not total. |
| `Warnings.Wrap` | src/main/java/org/jojo/flow/exc/Warning.java:17 | An integer as a Java `int`: congruent modulo 2^32, and unchanged when already in range. |
| `Warnings.NextId` | src/main/java/org/jojo/flow/exc/Warning.java:30 | `idCounter++` is the successor wrapped to a Java `int`. |
| `Warnings.IdOfWraps` | src/main/java/org/jojo/flow/exc/Warning.java:17 | The id of the k-th warning is k wrapped to a Java `int`. |
| `Warnings.WrapStep` | src/main/java/org/jojo/flow/exc/Warning.java:30 | Incrementing a wrapped value wraps the successor. |
| `Warnings.IdsCountUp` | src/main/java/org/jojo/flow/exc/Warning.java:17 | Until the counter overflows, the k-th warning has id k: ids increase from 0. |
| `Warnings.IdsDistinct` | src/main/java/org/jojo/flow/exc/Warning.java:30 | Fewer than 2^32 consecutive creations never give the same id twice. |
| `Warnings.IdOverflow` | src/main/java/org/jojo/flow/exc/Warning.java:30 | The 2^31-th warning gets the smallest Java `int`. |
| `Warnings.IdsRepeat` | src/main/java/org/jojo/flow/exc/Warning.java:30 | Ids repeat with period 2^32. |
| `Warnings.WarningLog.constructor` | src/main/java/org/jojo/flow/exc/Warning.java:15-17 | The static state starts as an empty log and a counter at 0. |
| `Warnings.WarningLog.GetWarningLog` | src/main/java/org/jojo/flow/exc/Warning.java:63-65 | Returns the logged warnings in order as a separate value; later changes to the log do not reach it. |
| `Warnings.WarningLog.GetLastWarningOfWarningLog` | src/main/java/org/jojo/flow/exc/Warning.java:71-73 | Null exactly when the log is empty, otherwise the most recently logged warning. |
| `Warnings.WarningLog.ClearWarningLog` | src/main/java/org/jojo/flow/exc/Warning.java:78-80 | Empties the log and keeps the counter. |
| `Warnings.WarningLog.ConstructWithNullDescription` | src/main/java/org/jojo/flow/exc/Warning.java:30-32 | A null description uses up one id before the null check throws; the log is unchanged. |
| `Warnings.Warning.constructor` | src/main/java/org/jojo/flow/exc/Warning.java:29-34 | The warning takes the counter's id and the description, is not an error, and advances the counter; the log is unchanged. |
| `Warnings.Warning.WithLevel` | src/main/java/org/jojo/flow/exc/Warning.java:44-47 | As the two-argument constructor, with the given error flag. |
| `Warnings.Warning.Copy` | src/main/java/org/jojo/flow/exc/Warning.java:54-56 | Copies description and flag under a fresh id, so the copy is not equal to the original within 2^32 creations. |
| `Warnings.Warning.SetToError` | src/main/java/org/jojo/flow/exc/Warning.java:87-90 | Sets the error flag and returns the same warning; only the flag can change, so a second call changes nothing. |
| `Warnings.Warning.ReportWarning` | src/main/java/org/jojo/flow/exc/Warning.java:153-154 | Appends this warning itself (not a copy) to the log; the counter is unchanged. |
| `Warnings.Warning.GetId` | src/main/java/org/jojo/flow/exc/Warning.java:107-109 | Returns the id. |
| `Warnings.Warning.GetDescription` | src/main/java/org/jojo/flow/exc/Warning.java:115-117 | Returns the description. |
| `Warnings.Warning.IsError` | src/main/java/org/jojo/flow/exc/Warning.java:141-143 | Returns the error flag. |
| `Warnings.Warning.HashCode` | src/main/java/org/jojo/flow/exc/Warning.java:168-170 | The hash code is the id. `Warnings.EqualsIsEquivalence` shows equal warnings hash alike. |
| `Warnings.Warning.Equals` | src/main/java/org/jojo/flow/exc/Warning.java:173-178 | Any object, `null` included: true when it is a warning with the same hash code, false otherwise. Its properties are `Warnings.EqualsIsSameId` and `Warnings.EqualsIsEquivalence`. |
| `Warnings.EqualsIsSameId` | src/main/java/org/jojo/flow/exc/Warning.java:168-178 | Two warnings are equal exactly when their ids are equal; null and any object that is not a warning equal no warning. |
| `Warnings.EqualsIsEquivalence` | src/main/java/org/jojo/flow/exc/Warning.java:168-178 | Equality is reflexive, symmetric and transitive, and equal warnings have equal hash codes. |
| `Warnings.DistinctWarningsUnequal` | src/main/java/org/jojo/flow/exc/Warning.java:168-178 | Warnings created fewer than 2^32 creations apart are not equal. |
| `Warnings.WrappedWarningsEqual` | src/main/java/org/jojo/flow/exc/Warning.java:168-178 | Warnings created exactly 2^32 creations apart are equal. |

## Left out

- Java object streams (`ObjectOutputStream`, `ObjectInputStream`) are opaque. The model starts serialization from the bytes and ends deserialization at the bytes, and leaves out I/O and class-loading failures.
- Base64.Decode: the model is the strict decoder of section 4 of RFC 4648. It requires the padding and rejects non-zero leftover bits. The JDK basic decoder also accepts unpadded input and ignores non-zero leftover bits. The model does not capture that leniency, so for such inputs it rejects what the JDK may accept.
- Regular expressions in general are left out. The three patterns `(word){10}` and the quoted one-character patterns match only their literal text, and the model is the literal left-to-right replace for exactly those.
- The default implementation accessor of the interface and its implementation class (an XStream and `commons-text` wrapper) are not part of this model, and neither is the API facade.
- `synchronized` on `reportWarning` and every other concurrency aspect are left out; each operation runs atomically.
- `toString` is left out (text formatting only).
- The affected element is commented out in the source. The model drops the constructor argument.
- Warnings.Warning.Copy: a null `toCopy` throws before any state changes, which the model leaves out because Dafny references passed here are non-null.
- Warnings.WarningLog.GetWarningLog: the list copy is a Dafny sequence value. The live log can only be changed through the `WarningLog` methods, so the property that mutating a snapshot leaves the log unchanged holds by construction and is not a separate lemma.
