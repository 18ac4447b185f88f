/** The byte fixtures of the test files, worked through the model. */
module Fixtures {
  import opened Bytes
  import opened Wrappers
  import opened Errors
  import opened Types
  import Codec
  import Decimal
  import RoundTrip
  import opened Tags

  /** The empty document in both snapshots: five bytes, length prefix 5 then 0x00. */
  const EmptyBytes: Bytes := [0x05, 0x00, 0x00, 0x00, 0x00]

  /** MarshalBinary of the empty document writes exactly those bytes, and ReadFrom
      reads them back, consuming all five. */
  lemma EmptyDocumentBytes(snap: Snapshot)
    ensures Codec.Marshalable(snap, EmptyDocument)
    ensures Codec.EncodeDocument(snap, EmptyDocument) == Ok(EmptyBytes)
    ensures Codec.DecodeDocument(snap, EmptyBytes) == Ok((EmptyDocument, 5))
  {
    PutInt32Five();
    Int32RoundTrip(5);
    assert EmptyBytes[..4] == PutInt32LE(5);
    assert EmptyBytes[4..5] == [0];
    assert Codec.ParseElist(snap, [0]) == Ok([]);
    assert Codec.DocOf([]) == EmptyDocument;
    assert Codec.EncodeElems(snap, EmptyDocument, 0) == Ok([]);
    assert EmptyBytes == PutInt32LE(0 + 5) + [] + [0];
  }

  /** The array [[], {}] of the later snapshot's array test. */
  const TwoEmpties: seq<Value> := [Arr([]), Doc(EmptyDocument)]

  /** The array [[], {}, "foo"] of the 50214 snapshot's array test. */
  const Mixed: seq<Value> := [Arr([]), Doc(EmptyDocument), Str([0x66, 0x6f, 0x6f])]

  /** In the later snapshot MarshalBinary of [[], {}] succeeds and ReadFrom reads the
      same array back from those bytes, consuming all of them. */
  lemma TwoEmptiesRoundTrip()
    ensures Codec.ValueMarshalable(SnapNew, Arr(TwoEmpties))
    ensures Codec.EncodeArray(SnapNew, TwoEmpties).Ok?
    ensures var b := Codec.EncodeArray(SnapNew, TwoEmpties).value;
      Codec.DecodeArray(SnapNew, b) == Ok((TwoEmpties, |b|))
  {
    TwoEmptiesCanonical();
    RoundTrip.ValueRoundTrip(SnapNew, Arr(TwoEmpties));
    TwoEmptiesLength();
    var b := Codec.EncodeArray(SnapNew, TwoEmpties).value;
    assert Codec.ReadValue(SnapNew, TagArray, b + []) == Ok((Arr(TwoEmpties), |b|));
    assert b + [] == b;
  }

  /** [[], {}] is a value the later snapshot writes and reads back unchanged. */
  lemma TwoEmptiesCanonical()
    ensures RoundTrip.Canonical(SnapNew, Arr(TwoEmpties))
  {
    EmptyDocumentBytes(SnapNew);
    assert Types.IsValid(SnapNew, EmptyDocument);
    assert RoundTrip.Canonical(SnapNew, Arr([]));
    assert RoundTrip.Canonical(SnapNew, Doc(EmptyDocument));
  }

  /** [[], {}] is written as 21 bytes: the prefix, two 8-byte elements and 0x00. */
  lemma TwoEmptiesLength()
    ensures Codec.EncodeArray(SnapNew, TwoEmpties).Ok?
    ensures |Codec.EncodeArray(SnapNew, TwoEmpties).value| == 21
  {
    EmptyDocumentBytes(SnapNew);
    EmptyArrayBytes(SnapNew);
    assert Codec.EncodeValue(SnapNew, Doc(EmptyDocument)) == Ok((TagDocument, EmptyBytes));
    assert Codec.EncodeValue(SnapNew, Arr([])) == Ok((TagArray, EmptyBytes));
    assert Codec.EncodeArrayElems(SnapNew, TwoEmpties, 2) == Ok([]);
    assert |Codec.EncodeArrayElems(SnapNew, TwoEmpties, 1).value| == 8;
    assert |Codec.EncodeArrayElems(SnapNew, TwoEmpties, 0).value| == 16;
  }

  /** Every value of a document that ReadFrom accepts in the 50214 snapshot is itself
      a Document: the gate refuses Strings and Arrays, even though ReadFrom parses them. */
  lemma Decoded50214HoldsDocuments(s: Bytes)
    requires Codec.DecodeDocument(Snap50214, s).Ok?
    ensures var d := Codec.DecodeDocument(Snap50214, s).value.0;
      forall k :: k in d.keys ==> k in d.m && d.m[k].Doc?
  {
    var d := Codec.DecodeDocument(Snap50214, s).value.0;
    ValidateMeaning(Snap50214, d);
    forall k | k in d.keys ensures k in d.m && d.m[k].Doc? {
      var i :| 0 <= i < |d.keys| && d.keys[i] == k;
      ValueGate(Snap50214, d.m[k]);
    }
  }

  /** Hence every element of an array ReadFrom accepts in the 50214 snapshot is a
      Document. */
  lemma DecodedArray50214HoldsDocuments(s: Bytes)
    requires Codec.DecodeArray(Snap50214, s).Ok?
    ensures var a := Codec.DecodeArray(Snap50214, s).value.0;
      forall i :: 0 <= i < |a| ==> a[i].Doc?
  {
    Decoded50214HoldsDocuments(s);
    var d := Codec.DecodeDocument(Snap50214, s).value.0;
    var a := Codec.DecodeArray(Snap50214, s).value.0;
    forall i | 0 <= i < |a| ensures a[i].Doc? {
      assert d.keys[i] == Decimal.Itoa(i);
    }
  }

  /** The empty array is written as the five bytes of the empty document. */
  lemma EmptyArrayBytes(snap: Snapshot)
    ensures Codec.EncodeArray(snap, []) == Ok(EmptyBytes)
  {
    PutInt32Five();
    assert Codec.EncodeArrayElems(snap, [], 0) == Ok([]);
    assert EmptyBytes == PutInt32LE(0 + 5) + [] + [0];
  }

  /** In the 50214 snapshot MarshalBinary writes [[], {}, "foo"]. */
  lemma MixedMarshals()
    ensures Codec.ValueMarshalable(Snap50214, Arr(Mixed))
    ensures Codec.EncodeArray(Snap50214, Mixed).Ok?
  {
    EmptyDocumentBytes(Snap50214);
    EmptyArrayBytes(Snap50214);
    assert Types.ConvertDocument(Snap50214, EmptyDocument) == Ok(EmptyDocument);
    assert Codec.EncodeValue(Snap50214, Doc(EmptyDocument)).Ok?;
    assert Codec.EncodeValue(Snap50214, Arr([])).Ok?;
    assert Codec.EncodeValue(Snap50214, Mixed[2]).Ok?;
    assert Codec.EncodeArrayElems(Snap50214, Mixed, 3) == Ok([]);
    assert Codec.EncodeArrayElems(Snap50214, Mixed, 2).Ok?;
    assert Codec.EncodeArrayElems(Snap50214, Mixed, 1).Ok?;
  }

  /** Yet no input at all reads back as that array in the 50214 snapshot: its first
      element is an Array, which the gate refuses. */
  lemma MixedNeverReadBack(s: Bytes)
    requires Codec.DecodeArray(Snap50214, s).Ok?
    ensures Codec.DecodeArray(Snap50214, s).value.0 != Mixed
  {
    DecodedArray50214HoldsDocuments(s);
  }

  /** Array.ReadFrom rejects a document whose second key is "2": the key check fails at
      index 1, whatever the values are. */
  lemma SkippedIndexRejected(snap: Snapshot, s: Bytes)
    requires Codec.DecodeDocument(snap, s).Ok?
    requires Codec.DecodeDocument(snap, s).value.0.keys == [[0x30], [0x32]]
    ensures Codec.DecodeArray(snap, s) == Err(ArrayKey(1, [0x32]))
  {
    var d := Codec.DecodeDocument(snap, s).value.0;
    ValidateMeaning(snap, d);
    assert Decimal.Itoa(0) == [0x30];
    assert Decimal.Itoa(1) == [0x31];
    assert Codec.Positional(d, 1) == Err(ArrayKey(1, [0x32]));
  }
}
