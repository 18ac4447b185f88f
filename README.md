# BSON-subset codec (go-bug, snapshots 50214 and new)

This project models the small BSON codec that the go-bug repository carries in two
snapshots, `50214/` and `new/`, together with the value model it validates against.

**Wire layout.** A document on the wire is:
- an int32 little-endian total length between 5 and 16777216;
- the element list;
- a final 0x00.

Each element is a tag byte, a zero-terminated key, then the value. Arrays use the
document layout with keys `"0"`, `"1"`, ….

**The model.**
- **Specification functions.** `Codec` holds the decoder and encoder as functions
  over byte sequences. Each decoder returns the value and the number of bytes
  consumed.
- **Classes.** `Bson.Document` and `Bson.Array` are classes whose `ReadFrom`,
  `MarshalBinary` and `WriteTo` methods loop and update their fields as the Go code
  does. Each method is proved equal to its specification function.
- **Snapshots.** One `Snapshot` parameter selects between the two snapshots.
- **`Types`.** This module holds the `types` package:
  - the value gate `validateValue`;
  - `isValidKey` and `Document.validate`;
  - `ConvertDocument`, `add` and `MakeDocument`.
- **`TypesArray`.** This module holds `types.Array.Get` and `Set` over a Dafny `array`.
- **Scalar codecs.** `CString`, `Int64` and the string value codec.
- **`Hex`.** This module models `hex.ParseDump`, the dump parser the fixtures use.

**Proved properties.**
- The length and terminator checks of `ReadFrom`, including its error cases.
- Decode then encode: whatever `ReadFrom` accepts, `MarshalBinary` and `WriteTo`
  reproduce byte for byte. The fuzz harnesses check this.
- Encode then decode: a canonical document reads back from its own encoding,
  whatever bytes follow it. A canonical document is valid, its keys contain no 0x00,
  and its values pass the gate all the way down.
- Validity means that `keys` is a duplicate-free enumeration of the map's domain.
- The positional-key check of `Array.ReadFrom`.
- The bounds-checked in-place update of `types.Array.Set`.
- Round trips of the scalar codecs and of hex decoding.

**How the snapshots differ, modelled as written.**

| | 50214 | new |
|---|---|---|
| value gate accepts | nested Documents only | Documents and Arrays |
| tags decoded | String, Document, Array | Document, Array |
| `bson.ConvertDocument` | validates | never fails |

In the 50214 snapshot a document holding a String or an Array always fails the
final validation of `ReadFrom`. The array test's value `[[], {}, "foo"]` is therefore
written by `MarshalBinary` but never read back (`Fixtures.MixedNeverReadBack`).

## Model

| member | source | states |
|---|---|---|
| Bytes.Int32RoundTrip | 50214/bson/document.go:245-247 | reading back the int32 prefix MarshalBinary writes gives the same length |
| Bytes.Int32BytesRoundTrip | 50214/bson/document.go:92-103 | rewriting the int32 that ReadFrom read reproduces the four prefix bytes it consumed |
| Bytes.FromToLE | 50214/bson/int64.go:55-61 | decoding n little-endian bytes of a number below 256^n gives the number back |
| Bytes.ToFromLE | 50214/bson/int64.go:31-37 | re-encoding the little-endian value of any byte string gives the same bytes |
| Tags.TagsDistinctNonZero | 50214/bson/tag.go:21-28 | the six tag values are pairwise distinct and none is the 0x00 end-of-list byte; the new table's two tags are among them, distinct and non-zero |
| CString.ReadFrom | 50214/bson/cstring.go:14-21 | succeeds iff a 0x00 occurs; then consumes through the first 0x00 and yields the zero-free bytes before it; otherwise a short read |
| CString.RoundTrip | 50214/bson/cstring.go:39-44 | a zero-free string is read back from its encoding, whatever follows, consuming length+1 bytes |
| CString.ReencodeConsumed | new/bson/cstring.go:16-46 | re-encoding a decoded CString reproduces exactly the bytes consumed |
| CString.EmbeddedZeroTruncates | 50214/bson/cstring.go:40-44 | MarshalBinary does not reject an embedded 0x00, and such a string reads back truncated |
| CString.Fixtures | new/bson/cstring_test.go:9-19 | "foo" encodes to 66 6f 6f 00 and "" to 00, and both read back |
| CString.WriteTo | 50214/bson/cstring.go:25-37 | appends exactly the MarshalBinary bytes to the writer |
| Int64.MarshalBinary | 50214/bson/int64.go:55-61 | always 8 bytes |
| Int64.ReadFrom | 50214/bson/int64.go:31-37 | succeeds iff at least 8 bytes remain, consuming exactly 8; otherwise a short read |
| Int64.RoundTrip | 50214/bson/int64.go:31-61 | every int64 is read back from its 8 bytes, whatever follows |
| Int64.BytesRoundTrip | 50214/bson/int64.go:31-61 | every 8-byte string re-encodes to itself after decoding (two's complement) |
| Int64.MarshalJSONCarriesDecimal | 50214/bson/int64.go:90-94 | the JSON form is {"$l":"…"} with the value's decimal text, which parses back to the value |
| Int64.WriteTo | 50214/bson/int64.go:40-52 | appends exactly the MarshalBinary bytes |
| BsonString.MarshalBinary | 50214/bson/document.go:205-212 | the string value takes its length plus 5 bytes |
| BsonString.ReadFrom | 50214/bson/document.go:137-142 | on success consumes at least 5 bytes, exactly the value's length plus 5 |
| BsonString.RoundTrip | 50214/bson/document.go:137-142 | a string value is read back from its encoding, whatever follows |
| BsonString.ReencodeConsumed | 50214/bson/document.go:205-212 | re-encoding a decoded string reproduces the bytes consumed |
| BsonString.WriteTo | 50214/bson/document.go:210-212 | appends exactly the MarshalBinary bytes |
| Decimal.AtoiItoa | 50214/bson/array.go:40-44 | the decimal key of i parses back to i |
| Decimal.ItoaInjective | 50214/bson/array.go:72-78 | distinct indexes get distinct decimal keys |
| Decimal.ParseFormatInt | 50214/bson/int64.go:63-65 | the signed decimal text of an integer parses back to it |
| Utf8.AsciiValid | new/types/document.go:21-27 | every ASCII key is valid UTF-8 |
| Utf8.Rejections | new/types/document.go:21-27 | a stray continuation byte, an encoded surrogate and an overlong form are rejected; the euro sign is accepted |
| Stream.Writer.Write | 50214/bson/document.go:184-187 | the writer's bytes grow by exactly the bytes written |
| Types.ValueGate | new/types/types.go:8-17 | the 50214 gate passes exactly valid Documents; the new gate passes valid Documents and every Array; any other kind fails as unsupported |
| Types.ValidateFromMeaning | new/types/document.go:114-133 | the key loop passes iff from position i on every key is valid, present, fresh and maps to a value the gate accepts |
| Types.ValidateMeaning | new/types/document.go:109-136 | validate passes iff the map and key list have the same size, keys are distinct, and every entry is valid |
| Types.ValidKeysEnumerateMap | new/types/document.go:109-136 | a valid document's keys are a duplicate-free enumeration of its map's domain |
| Types.ConvertDocument | new/types/document.go:45-67 | succeeds iff the document is valid, returning it unchanged; otherwise returns validate's error |
| Types.AddFailsWhen | new/types/document.go:148-159 | add fails iff the key is present, the key is invalid, or the gate refuses the value; on success it appends the key and adds that one entry |
| Types.AddPreservesValid | new/types/document.go:148-165 | add keeps a valid document valid, puts the key last, grows the map by one and changes no earlier entry |
| Types.AddStep | new/types/document.go:80-90 | one loop step of MakeDocument succeeds iff the pair is acceptable, and keeps the built document in step with the arguments |
| Types.MakeDocument | new/types/document.go:70-97 | an odd count fails as such; succeeds iff every pair is acceptable; the result is valid, keys in argument order, each mapped to its value |
| TypesArray.Get | 50214/types/array.go:9-15 | fails iff the index is outside [0, len), reporting index and length; otherwise returns that element |
| TypesArray.Set | 50214/types/array.go:18-29 | bounds are checked first, then the gate; on either failure the array is unchanged; on success only that index changes |
| TypesArray.SetThenGet | 50214/types/types.go:8-15 | in the 50214 snapshot a successful Set stored a valid Document, and Get returns it |
| Codec.DecodeDocument | 50214/bson/document.go:91-175 | a length prefix outside [5, 16777216] is InvalidLength; on success exactly the declared length is consumed, the last of it is 0x00, and the document is valid |
| Codec.ParseElist | 50214/bson/document.go:115-127 | a successful element list ends with its 0x00 as the last byte |
| Codec.ParseElement | 50214/bson/document.go:129-136 | an element consumes its tag, key and value, at least two bytes |
| Codec.ReadValue | 50214/bson/document.go:136-167 | only Document, Array and (50214) String tags decode, anything else is UnhandledTag; the value's kind follows the tag and a nested Document is valid |
| Codec.DecodeArray | 50214/bson/array.go:31-54 | never consumes more than the input |
| Codec.ElementAt | 50214/bson/document.go:129-167 | proof step of ReadFrom (unfolds the definition): a key that reads as a CString followed by a value its tag reads make one element of their combined length |
| Codec.Positional | 50214/bson/array.go:37-49 | succeeds iff every key i is the decimal form of i and present; element i is the value under key i |
| Codec.ConvertDocument | 50214/bson/document.go:48-67 | 50214 succeeds iff the document is valid; the new snapshot never fails; the document is unchanged |
| Codec.ValidMarshalable50214 | 50214/bson/document.go:197-202 | a valid document never reaches the missing-key panic |
| Codec.ConvertedMarshalable | 50214/bson/document.go:214-225 | a nested Document that ConvertDocument accepted can be marshalled |
| Codec.EncodeValue | 50214/bson/document.go:204-238 | values other than Document, Array and (50214) String are UnhandledType; the tag matches the value's kind |
| Codec.ArrayKeys | 50214/bson/array.go:72-78 | Array.MarshalBinary builds one key per element |
| Bson.Document.constructor | 50214/bson/document.go:40-44 | a new Document has no keys and an empty map |
| Bson.Document.FromParts | 50214/bson/document.go:48-59 | builds a Document holding the given keys and map |
| Bson.Document.MarshalBinary | 50214/bson/document.go:193-256 | produces exactly the document encoding (int32 length, elements, 0x00), or the first element's error |
| Bson.Document.WriteElements | 50214/bson/document.go:194-243 | the loop writes every element in key order, exactly the element list's encoding, or stops at the first element's error |
| Bson.Document.WriteTo | 50214/bson/document.go:178-190 | writes exactly the MarshalBinary bytes, or nothing and the error |
| Bson.Document.ReadFrom | 50214/bson/document.go:91-175 | on success the receiver holds the decoded document and the result is the bytes consumed; otherwise the decoder's error |
| Bson.Document.ReadElements | 50214/bson/document.go:115-168 | the loop builds keys in wire order and the map of the element list, or fails with the element list's error |
| Bson.ReadElement | 50214/bson/document.go:129-167 | one element read: key then the tag's value; fails with the element list's error or advances the loop invariant past that element |
| Bson.CollectedSnoc | 50214/bson/document.go:134-163 | appending a read key and storing its value keeps the key list and map equal to those of the elements read |
| Bson.ElistShort | 50214/bson/document.go:116-119 | running out of bytes before a 0x00 tag is a short read |
| Bson.ElistTrailing | 50214/bson/document.go:121-125 | a byte after the 0x00 tag is an error |
| Bson.ElistEnd | 50214/bson/document.go:121-127 | a 0x00 tag as the last byte ends the list with the elements read so far |
| Bson.ElistKeyFails | 50214/bson/document.go:129-132 | a key without a terminating 0x00 fails the list |
| Bson.ElistValueFails | 50214/bson/document.go:136-167 | a value that fails to decode fails the list with its error |
| Bson.ReadStep | 50214/bson/document.go:129-163 | one element read moves the loop forward by tag, key and value bytes and appends the element |
| Bson.DecodeOfElist | 50214/bson/document.go:170-172 | proof step of ReadFrom (unfolds the definition): a parsed list becomes the result iff it validates, otherwise validate's error |
| Bson.MarshalStep | 50214/bson/document.go:197-235 | one loop step appends that element's bytes |
| Bson.MarshalFails | 50214/bson/document.go:236-238 | an element that cannot be encoded makes MarshalBinary fail with its error |
| Bson.WriteElement | 50214/bson/document.go:204-238 | writes the tag, key and value bytes of one element, or reports its error |
| Bson.ElementByKind | 50214/bson/document.go:204-238 | proof step of MarshalBinary (unfolds the definition): a String, a refused Document, an Array and any other kind each give the bytes or error of their branch |
| Bson.ElementOfDocument | 50214/bson/document.go:214-225 | proof step of MarshalBinary (unfolds the definition): a nested Document element is the tag, the key and the nested document's own encoding |
| Bson.ConvertDocument | 50214/bson/document.go:48-67 | returns a fresh Document viewing the same keys and map, or the validation error |
| Bson.ReadElementValue | 50214/bson/document.go:136-167 | the tag dispatch reads exactly what ReadValue specifies |
| Bson.Array.constructor | 50214/bson/array.go:26 | a new Array is empty |
| Bson.Array.FromElems | 50214/bson/array.go:26 | builds an Array holding the given elements |
| Bson.Array.MarshalBinary | 50214/bson/array.go:71-89 | produces exactly the array encoding |
| Bson.PrefixPartsStep | 50214/bson/array.go:74-78 | one loop step adds key "i" to the key list and maps it to element i |
| Bson.Array.WriteTo | 50214/bson/array.go:57-68 | writes exactly the MarshalBinary bytes, or nothing and the error |
| Bson.Array.ReadFrom | 50214/bson/array.go:31-54 | on success the receiver holds the decoded elements and the result is the bytes consumed; on error the receiver is unchanged |
| Bson.ArrayOfDocument | 50214/bson/array.go:31-53 | proof step of Array.ReadFrom (unfolds the definition): the key check's result decides the array read |
| Bson.ReadPositions | 50214/bson/array.go:38-49 | the key check loop yields the values in index order exactly when every key i is the decimal form of i and present, otherwise the first failing index's error |
| Bson.PositionalStep | 50214/bson/array.go:39-49 | one key check step appends the value stored under key i |
| Bson.ValueBelowDocument | 50214/bson/document.go:219-223 | a nested value is strictly shallower than its document, so MarshalBinary's recursion ends |
| Bson.ArrayDocHeight | 50214/bson/array.go:80-84 | the positional document of an array nests as deep as the array |
| Layout.MapOfDistinct | 50214/bson/document.go:134-163 | with distinct keys every element's key maps to its value and the map's domain is the key set |
| Layout.MapOfKeys | 50214/bson/document.go:134-163 | the map's domain is exactly the set of keys read, duplicates or not |
| Layout.MapOfSnoc | 50214/bson/document.go:134-142 | reading one more element appends its key and sets its map entry |
| Layout.ElemsOfDocOf | 50214/bson/document.go:197-199 | listing a decoded document's entries in key order gives back the elements read |
| Layout.DocOfElemsOf | 50214/bson/document.go:109-136 | a valid document is rebuilt exactly from its entries in key order |
| Layout.EncodeElemsAsList | 50214/bson/document.go:197-239 | the MarshalBinary loop encodes the entries in key order |
| Layout.ArrayDocFacts | 50214/bson/array.go:72-83 | the positional document has keys "0".."n-1" in order, distinct, each mapped to its element |
| Layout.EncodeArrayIsDocument | 50214/bson/array.go:71-89 | Array.MarshalBinary equals Document.MarshalBinary of the positional document |
| Layout.DecimalKeyValid | new/types/document.go:21-27 | decimal keys are valid keys and contain no 0x00 |
| Layout.ArrayDocValid | 50214/bson/array.go:72-83 | the positional document of gate-accepted elements is valid |
| Layout.PositionalOfArrayDoc | 50214/bson/array.go:37-49 | the key check accepts the positional document and yields the array |
| Layout.PositionalIsArrayDoc | 50214/bson/array.go:37-49 | a valid document the key check accepts is exactly the positional document of its result |
| Layout.LengthPrefixIsTotal | 50214/bson/document.go:245-255 | the int32 prefix equals the total output length, at least 5, and the output ends in 0x00 |
| RoundTrip.DocumentReencodes | 50214/bson/bson_test.go:140-182 | whatever Document.ReadFrom accepts, MarshalBinary reproduces byte for byte |
| RoundTrip.DecodeDocumentParts | 50214/bson/document.go:91-175 | proof step of DocumentReencodes (unfolds the definition): a successful read is length prefix, element list and 0x00, and the document is the list's |
| RoundTrip.ElistReencodes | 50214/bson/document.go:115-168 | a parsed element list re-encodes to its bytes before the final 0x00 |
| RoundTrip.ElementReencodes | 50214/bson/document.go:129-167 | a parsed element re-encodes to the bytes it consumed |
| RoundTrip.ValueReencodes | 50214/bson/document.go:136-167 | a decoded value re-encodes, with the same tag, to the bytes it consumed |
| RoundTrip.ArrayReencodes | 50214/bson/array.go:31-89 | whatever Array.ReadFrom accepts, Array.MarshalBinary reproduces |
| RoundTrip.CanonicalMarshalable | 50214/bson/document.go:197-202 | a canonical value never reaches the missing-key panic |
| RoundTrip.ElistRoundTrip | 50214/bson/document.go:115-168 | elements whose values round-trip are read back from their encoding plus 0x00 |
| RoundTrip.ElementParses | 50214/bson/document.go:129-167 | a tag, an encoded key and value bytes that read back parse as that element |
| RoundTrip.ElementRoundTrip | 50214/bson/document.go:129-167 | one element is read back from its encoding, whatever follows |
| RoundTrip.DocumentRoundTripCore | 50214/bson/document.go:91-256 | a valid document whose values round-trip is read back from its encoding, whatever follows |
| RoundTrip.ValueRoundTrip | 50214/bson/document.go:136-238 | every canonical value is read back from its encoding |
| RoundTrip.DocDecodes | 50214/bson/document.go:144-154 | a nested Document whose values round-trip reads back as itself |
| RoundTrip.ArrDecodes | 50214/bson/array.go:31-89 | an Array of gate-accepted, round-tripping elements reads back as itself |
| RoundTrip.ArrayReadBack | 50214/bson/array.go:31-54 | bytes that read as the positional document read as the array |
| RoundTrip.DocumentRoundTrip | 50214/bson/document.go:91-256 | a canonical document survives MarshalBinary then ReadFrom, consuming exactly its encoding |
| Hex.TrimLeft | 50214/util/hex/hex.go:12-14 | removes exactly the leading white space |
| Hex.TrimRight | 50214/util/hex/hex.go:12-14 | removes exactly the trailing white space |
| Hex.RemoveSpaces | 50214/util/hex/hex.go:22 | the result contains no space, a string without spaces is left as it is, and a string with a space gets strictly shorter; with RemoveSpacesAppend this means every space is dropped and every other character kept, in order |
| Hex.RemoveSpacesAppend | 50214/util/hex/hex.go:22 | removing spaces works piecewise over a concatenation, so every other character is kept, in order |
| Hex.Lines | 50214/util/hex/hex.go:12-13 | no line holds a newline; for inputs without '\r', LinesJoin states that the lines carry the whole input, in order; dropping a '\r' before a line end, as `bufio.ScanLines` does, rests on the body alone |
| Hex.LinesJoin | 50214/util/hex/hex.go:12-14 | for a trimmed input without carriage returns, the lines joined by newlines give back the input |
| Hex.LinesSplit | 50214/util/hex/hex.go:13-14 | proof step of LinesJoin: without carriage returns, the first line is the text before the first newline, followed by the lines of the rest |
| Hex.HexDigit | 50214/util/hex/hex.go:29 | each nibble has a digit whose value it is |
| Hex.DecodeHex | 50214/util/hex/hex.go:29 | a successful decode takes two digits per byte |
| Hex.DecodeEncodeHex | 50214/util/hex/hex.go:29 | decoding the hex form of any bytes gives them back |
| Hex.DecodeHexSucceedsWhen | 50214/util/hex/hex.go:29-32 | decoding succeeds iff the digit count is even and every character is a hex digit |
| Hex.HexColumns | 50214/util/hex/hex.go:19-26 | the selected columns, with spaces removed, contain no space |
| Hex.BlankLineIgnored | 50214/util/hex/hex.go:14-17 | a line blank after trimming contributes nothing |
| Hex.ParseLinesAppend | 50214/util/hex/hex.go:33 | the bytes of two runs of lines are concatenated in order, and an error in the first run wins |
| Hex.ParseLinesFailsWhen | 50214/util/hex/hex.go:29-32 | the parse fails iff some non-blank line's digits do not decode |
| Hex.ParseLinesHead | 50214/util/hex/hex.go:29-33 | proof step of ParseLinesFailsWhen (unfolds the definition): the parse fails iff the first line fails to decode or the rest fails |
| Hex.ParseLinesAt | 50214/util/hex/hex.go:13-33 | one loop step skips a blank line, fails on a bad line, or appends the line's bytes |
| Hex.ParseDump | 50214/util/hex/hex.go:9-41 | the loop returns the line-by-line decode of the trimmed input |
| Fixtures.EmptyDocumentBytes | 50214/bson/bson_test.go:184-189 | the empty document encodes to 05 00 00 00 00 and reads back from it, consuming all five bytes |
| Fixtures.EmptyArrayBytes | 50214/bson/array.go:71-89 | the empty array is written as those same five bytes |
| Fixtures.TwoEmptiesRoundTrip | new/bson/array_test.go:10-18 | in the new snapshot [[], {}] is written and read back exactly |
| Fixtures.TwoEmptiesCanonical | new/bson/array_test.go:10-18 | [[], {}] is a value the new snapshot writes and reads back unchanged |
| Fixtures.TwoEmptiesLength | new/bson/array_test.go:10-18 | [[], {}] is written as 21 bytes |
| Fixtures.Decoded50214HoldsDocuments | 50214/bson/document.go:170-172 | in the 50214 snapshot every value of a document ReadFrom accepts is a Document |
| Fixtures.DecodedArray50214HoldsDocuments | 50214/bson/array.go:31-49 | in the 50214 snapshot every element of an array ReadFrom accepts is a Document |
| Fixtures.MixedMarshals | 50214/bson/array_test.go:24-33 | MarshalBinary writes [[], {}, "foo"] in the 50214 snapshot |
| Fixtures.MixedNeverReadBack | 50214/bson/array_test.go:24-33 | no input reads back as [[], {}, "foo"] in the 50214 snapshot |
| Fixtures.SkippedIndexRejected | 50214/bson/array.go:39-42 | a document with keys "0", "2" fails the array key check at index 1 with key "2" |

## Left out

- Readers and writers: `bufio`, `bytes.Reader` and `binary.Read`/`binary.Write` are
  modelled as byte sequences with a consumed count. Buffering, `Flush` and write
  errors of the underlying writer are not modelled.
- The String value codec (`String.ReadFrom` and `WriteTo`) is not part of this
  model's sources. It follows the BSON 1.1 production `string ::= int32 (byte*) "\x00"`.
- new/bson/array.go is not part of this model. The new snapshot's Array uses the
  50214 Array code with the new gate and tags.
- The 50214 `types.Document.validate`, `MakeDocument` and `add` are not part of this
  model. The versions in new/types/document.go are used with the 50214 gate.
- JSON: `UnmarshalJSON`, `unmarshalJSONValue` and `checkConsumed` are not modelled.
  Their behaviour lives in `encoding/json`.
- Document and Array `MarshalJSON`: only the int64 form `{"$l":"…"}` is modelled.
  The document and array shapes depend on `json.Marshal`'s string quoting.
- Aliasing: `ConvertDocument` in both packages shares the map and key slice. The
  model copies values instead, so a later mutation through one view is not seen
  through the other.
- Nil arguments: the nil-argument panic of `types.ConvertDocument` is not modelled,
  nor the normalisation of a nil map or key list. Values in the model are never nil.
- Bson.Document.ReadFrom: on error the receiver's partially filled keys and map are
  left unspecified, while Go leaves the elements read so far in place.
- Bson.Document.MarshalBinary: a listed key missing from the map panics in Go. It is
  a precondition (`Codec.Marshalable`) here, and that precondition asks for more than
  Go does. Go panics only when its loop reaches the missing key, so an unhandled kind
  earlier in the key order returns its error first. With keys [a, b] and a map
  holding only a Bool under a, Go returns the unhandled-type error, while the model
  excludes that input.
- Bson.Array.MarshalBinary, Bson.Array.WriteTo: the same admitted precondition, per
  element (`Codec.ValueMarshalable`). An array [Bool, a Document with a listed key
  missing from its map] gets Go's unhandled-type error at index 0, but the model
  excludes that input.
- Bson.Document.WriteTo, Bson.Document.WriteElements: the same admitted
  `Codec.Marshalable` precondition as Bson.Document.MarshalBinary.
- Bson.WriteElement, Codec.EncodeValue: the same admitted precondition
  (`Codec.ValueMarshalable`) on the value being written, including the values nested
  inside it.
- Codec.EncodeDocument: like Go, the model writes the length prefix wrapped to 32
  bits and never enforces the 16777216-byte cap when writing. So the prefix equals
  the total length only below 2^31 bytes (`Layout.LengthPrefixIsTotal` requires
  that). The round trip holds only for encodings of at most 16777216 bytes
  (`RoundTrip.DocumentRoundTrip`).
- Types.Add: modelled as a function returning the updated document, not as an update
  of the receiver.
- Hex.ParseDump:
  - A line too short for its column range panics in Go. It is a precondition
    (`WellFormedDump`) here.
  - White space is ASCII only, where Go's `TrimSpace` also trims Unicode spaces.
  - Columns are counted in characters, where Go counts bytes.
  - The scanner's 64 KiB line limit is not modelled.
- Int64 and CString `UnmarshalJSON` are not modelled.
- The 50214/bson/bson_test.go:187 dump line is not parsed through `Hex.ParseDump` in
  the model. `Fixtures.EmptyDocumentBytes` states its five bytes directly.
- Bool, Int64 (as a document value), Null and other Go kinds appear only as values
  the gate and the encoder refuse. Double and Binary have tags but no codec in the
  sources.
