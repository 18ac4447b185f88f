/** The codec's two round trips.

    Decode then encode: whatever Document.ReadFrom accepts, MarshalBinary writes back
    byte for byte (the property the fuzz harnesses check).

    Encode then decode: a canonical document (valid, keys free of 0x00, every value
    a Document or an Array the gate accepts, all the way down) is read back exactly
    from its own encoding, whatever bytes follow it, as long as the encoding fits the
    16777216-byte limit. */
module RoundTrip {
  import opened Bytes
  import opened Wrappers
  import opened Types
  import opened Tags
  import opened Codec
  import opened Layout
  import CString
  import BsonString
  import Decimal

  // ------------------------------------------------- decode, then encode

  /** Whatever ReadFrom accepts, MarshalBinary reproduces exactly the bytes it consumed. */
  lemma {:induction false} DocumentReencodes(snap: Snapshot, s: Bytes)
    requires DecodeDocument(snap, s).Ok?
    ensures Marshalable(snap, DecodeDocument(snap, s).value.0)
    ensures EncodeDocument(snap, DecodeDocument(snap, s).value.0) == Ok(s[..DecodeDocument(snap, s).value.1])
    decreases |s|, 1
  {
    var (d, l) := DecodeDocument(snap, s).value;
    DecodeDocumentParts(snap, s);
    var body := s[4..l];
    var es := ParseElist(snap, body).value;
    ElistReencodes(snap, body, es);
    DecodedMarshalable(snap, d, es);
    EncodeElemsAsList(snap, d, 0);
    assert ElemsOf(d)[0..] == es;
    var elist := body[..|body| - 1];
    assert EncodeElems(snap, d, 0) == Ok(elist);
    Int32BytesRoundTrip(s[..4]);
    assert PutInt32LE(|elist| + 5) == s[..4];
    SplitFrame(s, l);
  }

  /** Cutting a document into length prefix, element list and terminator. */
  lemma SplitFrame(s: Bytes, l: nat)
    requires 5 <= l <= |s| && s[l - 1] == 0
    ensures s[..l] == s[..4] + s[4..l][..l - 5] + [0]
  {
    assert s[..l] == s[..4] + s[4..l - 1] + [s[l - 1]];
  }

  /** What a successful Document decode is made of. */
  lemma DecodeDocumentParts(snap: Snapshot, s: Bytes)
    requires DecodeDocument(snap, s).Ok?
    ensures var (d, l) := DecodeDocument(snap, s).value;
      && 5 <= l <= |s| && l == Int32LE(s[..4])
      && ParseElist(snap, s[4..l]).Ok?
      && d == DocOf(ParseElist(snap, s[4..l]).value)
      && IsValid(snap, d)
  {
  }

  /** A valid document built from elements whose values can be marshalled can be
      marshalled, and its element list is those elements. */
  lemma DecodedMarshalable(snap: Snapshot, d: Document, es: seq<Element>)
    requires d == DocOf(es) && IsValid(snap, d)
    requires ElemsMarshalable(snap, es)
    ensures Marshalable(snap, d) && ElemsOf(d) == es
  {
    ValidKeysEnumerateMap(snap, d);
    ElemsOfDocOf(es);
    MapOfDistinct(es);
    forall k | k in d.keys ensures k in d.m && ValueMarshalable(snap, d.m[k]) {
      var j :| 0 <= j < |es| && KeysOf(es)[j] == k;
    }
  }

  /** One step of the element loop: an element, then the rest of the list. */
  lemma ParseElistCons(snap: Snapshot, s: Bytes, e: Element, n: nat, tl: seq<Element>)
    requires s != [] && s[0] != 0
    requires ParseElement(snap, s) == Ok((e, n))
    requires ParseElist(snap, s[n..]) == Ok(tl)
    ensures ParseElist(snap, s) == Ok([e] + tl)
  {
  }

  lemma {:induction false} ElistReencodes(snap: Snapshot, s: Bytes, es: seq<Element>)
    requires ParseElist(snap, s) == Ok(es)
    ensures ElemsMarshalable(snap, es)
    ensures EncodeElemList(snap, es) == Ok(s[..|s| - 1])
    decreases |s|, 1
  {
    if s[0] != 0 {
      var (e, n) := ParseElement(snap, s).value;
      ElementReencodes(snap, s, e, n);
      ElistReencodes(snap, s[n..], ParseElist(snap, s[n..]).value);
      ElistReencodesStep(snap, s, es, e, n, ParseElist(snap, s[n..]).value);
    }
  }

  /** One step of ElistReencodes: the first element, then the rest of the list. */
  lemma ElistReencodesStep(snap: Snapshot, s: Bytes, es: seq<Element>, e: Element, n: nat, tes: seq<Element>)
    requires s != [] && s[0] != 0 && ParseElist(snap, s) == Ok(es)
    requires ParseElement(snap, s) == Ok((e, n))
    requires ValueMarshalable(snap, e.value) && EncodeElement(snap, e) == Ok(s[..n])
    requires ParseElist(snap, s[n..]) == Ok(tes)
    requires ElemsMarshalable(snap, tes) && EncodeElemList(snap, tes) == Ok(s[n..][..|s[n..]| - 1])
    ensures ElemsMarshalable(snap, es)
    ensures EncodeElemList(snap, es) == Ok(s[..|s| - 1])
  {
    ParseElistCons(snap, s, e, n, tes);
    assert es[0] == e && es[1..] == tes;
    SplitAt(s, n);
    EncodeElemListCons(snap, es, s[..n], s[n..][..|s[n..]| - 1]);
  }

  /** Cutting an element list after its first element. */
  lemma SplitAt(s: Bytes, n: nat)
    requires n < |s|
    ensures s[..|s| - 1] == s[..n] + s[n..][..|s[n..]| - 1]
  {
  }

  /** Whatever one element step accepts, EncodeElement reproduces. */
  lemma {:induction false} ElementReencodes(snap: Snapshot, s: Bytes, e: Element, n: nat)
    requires s != [] && ParseElement(snap, s) == Ok((e, n))
    ensures ValueMarshalable(snap, e.value)
    ensures EncodeElement(snap, e) == Ok(s[..n])
    decreases |s|, 0
  {
    var (key, p) := CString.ReadFrom(s[1..]).value;
    var (v, q) := ReadValue(snap, s[0], s[1 + p..]).value;
    assert e == Element(key, v) && n == 1 + p + q;
    ValueReencodes(snap, s[0], s[1 + p..]);
    CString.ReencodeConsumed(s[1..]);
    SplitElement(s, p, q);
    assert EncodeElement(snap, e) == Ok([s[0]] + s[1..][..p] + s[1 + p..][..q]) == Ok(s[..n]);
  }

  /** Cutting one element into tag, key and value. */
  lemma SplitElement(s: Bytes, p: nat, q: nat)
    requires 1 + p + q <= |s|
    ensures s[..1 + p + q] == [s[0]] + s[1..][..p] + s[1 + p..][..q]
  {
  }

  lemma {:induction false} ValueReencodes(snap: Snapshot, t: byte, s: Bytes)
    requires ReadValue(snap, t, s).Ok?
    ensures ValueMarshalable(snap, ReadValue(snap, t, s).value.0)
    ensures EncodeValue(snap, ReadValue(snap, t, s).value.0) == Ok((t, s[..ReadValue(snap, t, s).value.1]))
    decreases |s|, 3
  {
    if t == TagString && snap == Snap50214 {
      BsonString.ReencodeConsumed(s);
    } else if t == TagDocument {
      DocumentReencodes(snap, s);
    } else {
      ArrayReencodes(snap, s);
    }
  }

  /** Whatever Array.ReadFrom accepts, Array.MarshalBinary reproduces. */
  lemma {:induction false} ArrayReencodes(snap: Snapshot, s: Bytes)
    requires DecodeArray(snap, s).Ok?
    ensures forall i :: 0 <= i < |DecodeArray(snap, s).value.0| ==>
      ValueMarshalable(snap, DecodeArray(snap, s).value.0[i])
    ensures EncodeArray(snap, DecodeArray(snap, s).value.0) == Ok(s[..DecodeArray(snap, s).value.1])
    decreases |s|, 2
  {
    var (d, n) := DecodeDocument(snap, s).value;
    DocumentReencodes(snap, s);
    var a := Positional(d, 0).value;
    PositionalIsArrayDoc(snap, d);
    forall i | 0 <= i < |a| ensures ValueMarshalable(snap, a[i]) {
      assert d.keys[i] in d.keys;
    }
    EncodeArrayIsDocument(snap, a);
  }

  // ------------------------------------------------- encode, then decode

  /** Values the codec carries both ways: Documents that are valid with keys free of
      0x00, and Arrays of values the gate accepts, all the way down. */
  predicate Canonical(snap: Snapshot, v: Value)
    decreases v, 0
  {
    match v
    case Doc(d) => CanonicalDoc(snap, d)
    case Arr(a) => forall i :: 0 <= i < |a| ==> ValidateValue(snap, a[i]).Pass? && Canonical(snap, a[i])
    case _ => false
  }

  predicate CanonicalDoc(snap: Snapshot, d: Document)
    decreases d, 1
  {
    && IsValid(snap, d)
    && forall k :: k in d.keys ==> CString.ZeroFree(k) && k in d.m && Canonical(snap, d.m[k])
  }

  lemma {:induction false} CanonicalMarshalable(snap: Snapshot, v: Value)
    requires Canonical(snap, v)
    ensures ValueMarshalable(snap, v)
    decreases v
  {
    match v
    case Doc(d) =>
      forall k | k in d.keys ensures ValueMarshalable(snap, d.m[k]) {
        CanonicalMarshalable(snap, d.m[k]);
      }
    case Arr(a) =>
      forall i | 0 <= i < |a| ensures ValueMarshalable(snap, a[i]) {
        CanonicalMarshalable(snap, a[i]);
      }
  }

  /** `v` encodes, and when its encoding fits the length limit it reads back as `v`
      from that encoding, whatever follows, consuming exactly the encoding. */
  ghost predicate Decodes(snap: Snapshot, v: Value)
  {
    && ValueMarshalable(snap, v)
    && EncodeValue(snap, v).Ok?
    && (|EncodeValue(snap, v).value.1| <= MaxDocumentLen ==>
         forall rest :: ReadValue(snap, EncodeValue(snap, v).value.0, EncodeValue(snap, v).value.1 + rest)
           == Ok((v, |EncodeValue(snap, v).value.1|)))
  }

  ghost predicate ElementsDecode(snap: Snapshot, es: seq<Element>)
  {
    forall j :: 0 <= j < |es| ==> CString.ZeroFree(es[j].key) && Decodes(snap, es[j].value)
  }

  lemma {:induction false} ElistRoundTrip(snap: Snapshot, es: seq<Element>)
    requires ElementsDecode(snap, es)
    ensures ElemsMarshalable(snap, es) && EncodeElemList(snap, es).Ok?
    ensures |EncodeElemList(snap, es).value| < MaxDocumentLen ==>
      ParseElist(snap, EncodeElemList(snap, es).value + [0]) == Ok(es)
  {
    if es != [] {
      ElistRoundTrip(snap, es[1..]);
      ElementRoundTrip(snap, es[0], EncodeElemList(snap, es[1..]).value + [0]);
      ElistRoundTripStep(snap, es, EncodeElement(snap, es[0]).value, EncodeElemList(snap, es[1..]).value);
    }
  }

  /** One step of ElistRoundTrip: the first element, then the rest of the list. */
  lemma ElistRoundTripStep(snap: Snapshot, es: seq<Element>, x: Bytes, rest: Bytes)
    requires es != [] && ElementsDecode(snap, es) && ElemsMarshalable(snap, es)
    requires EncodeElement(snap, es[0]) == Ok(x) && EncodeElemList(snap, es[1..]) == Ok(rest)
    requires |x| <= MaxDocumentLen ==> x[0] != 0 && ParseElement(snap, x + (rest + [0])) == Ok((es[0], |x|))
    requires |rest| < MaxDocumentLen ==> ParseElist(snap, rest + [0]) == Ok(es[1..])
    ensures EncodeElemList(snap, es) == Ok(x + rest)
    ensures |x + rest| < MaxDocumentLen ==> ParseElist(snap, x + rest + [0]) == Ok(es)
  {
    EncodeElemListCons(snap, es, x, rest);
    if |x + rest| < MaxDocumentLen {
      var s := x + rest + [0];
      assert s == x + (rest + [0]);
      assert s[|x|..] == rest + [0];
      ParseElistCons(snap, s, es[0], |x|, es[1..]);
      assert es == [es[0]] + es[1..];
    }
  }

  /** One element, encoded, is read back by one element step, whatever follows. */
  lemma ElementRoundTrip(snap: Snapshot, e: Element, rest: Bytes)
    requires CString.ZeroFree(e.key) && Decodes(snap, e.value)
    ensures EncodeElement(snap, e).Ok?
    ensures |EncodeElement(snap, e).value| <= MaxDocumentLen ==>
      && EncodeElement(snap, e).value[0] != 0
      && ParseElement(snap, EncodeElement(snap, e).value + rest) == Ok((e, |EncodeElement(snap, e).value|))
  {
    var (t, b) := EncodeValue(snap, e.value).value;
    var x := [t] + CString.MarshalBinary(e.key) + b;
    assert EncodeElement(snap, e) == Ok(x);
    if |x| <= MaxDocumentLen {
      assert ReadValue(snap, t, b + rest) == Ok((e.value, |b|));
      ElementParses(snap, e, t, b, rest);
      assert x + rest == [t] + CString.MarshalBinary(e.key) + b + rest;
    }
  }

  /** An element whose value bytes read back, behind its tag and key. */
  lemma ElementParses(snap: Snapshot, e: Element, t: byte, b: Bytes, rest: Bytes)
    requires CString.ZeroFree(e.key)
    requires ReadValue(snap, t, b + rest) == Ok((e.value, |b|))
    ensures ParseElement(snap, [t] + CString.MarshalBinary(e.key) + b + rest) == Ok((e, 1 + (|e.key| + 1) + |b|))
  {
    ElementBytes(e.key, t, b, rest);
    var s := [t] + CString.MarshalBinary(e.key) + b + rest;
    ElementAt(snap, s, e.key, |e.key| + 1, e.value, |b|);
  }

  /** An encoded element followed by anything: the key reads back, then the value's
      bytes follow. */
  lemma ElementBytes(key: Bytes, t: byte, b: Bytes, rest: Bytes)
    requires CString.ZeroFree(key)
    ensures var s := [t] + CString.MarshalBinary(key) + b + rest;
      && CString.ReadFrom(s[1..]) == Ok((key, |key| + 1))
      && s[1 + |key| + 1..] == b + rest
  {
    var k := CString.MarshalBinary(key);
    var s := [t] + k + b + rest;
    assert s[1..] == k + (b + rest);
    CString.RoundTrip(key, b + rest);
    assert s[1 + |k|..] == b + rest;
  }

  /** The document step of the round trip, given that every value round-trips. */
  lemma DocumentRoundTripCore(snap: Snapshot, d: Document, tail: Bytes)
    requires IsValid(snap, d)
    requires forall k :: k in d.keys ==> CString.ZeroFree(k) && k in d.m && Decodes(snap, d.m[k])
    ensures Marshalable(snap, d) && EncodeDocument(snap, d).Ok?
    ensures |EncodeDocument(snap, d).value| <= MaxDocumentLen ==>
      DecodeDocument(snap, EncodeDocument(snap, d).value + tail) == Ok((d, |EncodeDocument(snap, d).value|))
  {
    var es := ElemsOf(d);
    DocumentElements(snap, d);
    ElistRoundTrip(snap, es);
    DocumentFrameRoundTrip(snap, d, es, EncodeElemList(snap, es).value, tail);
  }

  /** The elements of a document whose values round-trip. */
  lemma DocumentElements(snap: Snapshot, d: Document)
    requires IsValid(snap, d)
    requires forall k :: k in d.keys ==> CString.ZeroFree(k) && k in d.m && Decodes(snap, d.m[k])
    ensures Marshalable(snap, d)
    ensures ElementsDecode(snap, ElemsOf(d)) && ElemsMarshalable(snap, ElemsOf(d))
    ensures EncodeElems(snap, d, 0) == EncodeElemList(snap, ElemsOf(d))
    ensures DocOf(ElemsOf(d)) == d
  {
    var es := ElemsOf(d);
    forall j | 0 <= j < |es| ensures CString.ZeroFree(es[j].key) && Decodes(snap, es[j].value) {
      assert d.keys[j] in d.keys;
    }
    EncodeElemsAsList(snap, d, 0);
    assert ElemsOf(d)[0..] == es;
    DocOfElemsOf(snap, d);
  }

  /** The length prefix and terminator around an element list that reads back. */
  lemma DocumentFrameRoundTrip(snap: Snapshot, d: Document, es: seq<Element>, elist: Bytes, tail: Bytes)
    requires IsValid(snap, d) && Marshalable(snap, d) && DocOf(es) == d
    requires EncodeElems(snap, d, 0) == Ok(elist)
    requires |elist| < MaxDocumentLen ==> ParseElist(snap, elist + [0]) == Ok(es)
    ensures EncodeDocument(snap, d) == Ok(PutInt32LE(|elist| + 5) + elist + [0])
    ensures |EncodeDocument(snap, d).value| <= MaxDocumentLen ==>
      DecodeDocument(snap, EncodeDocument(snap, d).value + tail) == Ok((d, |EncodeDocument(snap, d).value|))
  {
    var enc := PutInt32LE(|elist| + 5) + elist + [0];
    assert EncodeDocument(snap, d) == Ok(enc);
    if |enc| <= MaxDocumentLen {
      FrameBytes(elist, tail);
      DecodeDocumentFrame(snap, enc + tail, |enc|, es);
    }
  }

  /** The bytes of a framed element list, read back: its length, then the list. */
  lemma FrameBytes(elist: Bytes, tail: Bytes)
    requires |elist| + 5 <= MaxDocumentLen
    ensures var s := PutInt32LE(|elist| + 5) + elist + [0] + tail;
      && Int32LE(s[..4]) == |elist| + 5
      && s[4..|elist| + 5] == elist + [0]
  {
    var s := PutInt32LE(|elist| + 5) + elist + [0] + tail;
    assert s[..4] == PutInt32LE(|elist| + 5);
    Int32RoundTrip(|elist| + 5);
    assert s[4..|elist| + 5] == elist + [0];
  }

  /** ReadFrom from its parts: a length in range, an element list, a valid result. */
  lemma DecodeDocumentFrame(snap: Snapshot, s: Bytes, l: nat, es: seq<Element>)
    requires 4 <= l <= |s| && MinDocumentLen <= l <= MaxDocumentLen
    requires Int32LE(s[..4]) == l
    requires ParseElist(snap, s[4..l]) == Ok(es)
    requires IsValid(snap, DocOf(es))
    ensures DecodeDocument(snap, s) == Ok((DocOf(es), l))
  {
  }

  /** Encoding an element list one element at a time. */
  lemma EncodeElemListCons(snap: Snapshot, es: seq<Element>, x: Bytes, y: Bytes)
    requires es != []
    requires ElemsMarshalable(snap, es)
    requires EncodeElement(snap, es[0]) == Ok(x)
    requires EncodeElemList(snap, es[1..]) == Ok(y)
    ensures EncodeElemList(snap, es) == Ok(x + y)
  {
  }

  /** Every canonical value round-trips through its encoding. */
  lemma {:induction false} ValueRoundTrip(snap: Snapshot, v: Value)
    requires Canonical(snap, v)
    ensures Decodes(snap, v)
    decreases v
  {
    CanonicalMarshalable(snap, v);
    match v
    case Doc(d) =>
      forall k | k in d.keys ensures CString.ZeroFree(k) && k in d.m && Decodes(snap, d.m[k]) {
        ValueRoundTrip(snap, d.m[k]);
      }
      DocDecodes(snap, d);
    case Arr(a) =>
      forall i | 0 <= i < |a| ensures Decodes(snap, a[i]) {
        ValueRoundTrip(snap, a[i]);
      }
      ArrDecodes(snap, a);
  }

  /** The Document case of ValueRoundTrip, given that its values round-trip. */
  lemma DocDecodes(snap: Snapshot, d: Document)
    requires IsValid(snap, d) && ValueMarshalable(snap, Doc(d))
    requires forall k :: k in d.keys ==> CString.ZeroFree(k) && k in d.m && Decodes(snap, d.m[k])
    ensures Decodes(snap, Doc(d))
  {
    DocumentRoundTripCore(snap, d, []);
    var b := EncodeDocument(snap, d).value;
    assert EncodeValue(snap, Doc(d)) == Ok((TagDocument, b));
    if |b| <= MaxDocumentLen {
      forall rest ensures ReadValue(snap, TagDocument, b + rest) == Ok((Doc(d), |b|)) {
        DocumentRoundTripCore(snap, d, rest);
      }
    }
  }

  /** The Array case of ValueRoundTrip, given that its elements round-trip. */
  lemma ArrDecodes(snap: Snapshot, a: seq<Value>)
    requires forall i :: 0 <= i < |a| ==> ValidateValue(snap, a[i]).Pass? && Decodes(snap, a[i])
    ensures Decodes(snap, Arr(a))
  {
    var d := ArrayDoc(a);
    ArrayDocDecodes(snap, a);
    DocumentRoundTripCore(snap, d, []);
    EncodeArrayIsDocument(snap, a);
    var b := EncodeDocument(snap, d).value;
    assert EncodeValue(snap, Arr(a)) == Ok((TagArray, b));
    if |b| <= MaxDocumentLen {
      forall rest ensures ReadValue(snap, TagArray, b + rest) == Ok((Arr(a), |b|)) {
        DocumentRoundTripCore(snap, d, rest);
        ArrayReadBack(snap, a, b + rest, |b|);
      }
    }
  }

  /** Bytes that read as the positional document of `a` read as the array `a`. */
  lemma ArrayReadBack(snap: Snapshot, a: seq<Value>, s: Bytes, n: nat)
    requires DecodeDocument(snap, s) == Ok((ArrayDoc(a), n))
    ensures ReadValue(snap, TagArray, s) == Ok((Arr(a), n))
  {
    PositionalOfArrayDoc(a);
    assert DecodeArray(snap, s) == Ok((a, n));
  }

  /** The positional document of an array whose elements round-trip. */
  lemma ArrayDocDecodes(snap: Snapshot, a: seq<Value>)
    requires forall i :: 0 <= i < |a| ==> ValidateValue(snap, a[i]).Pass? && Decodes(snap, a[i])
    ensures IsValid(snap, ArrayDoc(a))
    ensures forall k :: k in ArrayDoc(a).keys ==>
      CString.ZeroFree(k) && k in ArrayDoc(a).m && Decodes(snap, ArrayDoc(a).m[k])
  {
    var d := ArrayDoc(a);
    ArrayDocValid(snap, a);
    ArrayDocFacts(a);
    forall k | k in d.keys ensures k in d.m && Decodes(snap, d.m[k]) {
      var j :| 0 <= j < |a| && d.keys[j] == k;
    }
  }

  /** A canonical document survives MarshalBinary then ReadFrom, whatever follows it. */
  lemma DocumentRoundTrip(snap: Snapshot, d: Document, tail: Bytes)
    requires CanonicalDoc(snap, d)
    ensures Marshalable(snap, d) && EncodeDocument(snap, d).Ok?
    ensures |EncodeDocument(snap, d).value| <= MaxDocumentLen ==>
      DecodeDocument(snap, EncodeDocument(snap, d).value + tail) == Ok((d, |EncodeDocument(snap, d).value|))
  {
    forall k | k in d.keys ensures CString.ZeroFree(k) && k in d.m && Decodes(snap, d.m[k]) {
      ValueRoundTrip(snap, d.m[k]);
    }
    DocumentRoundTripCore(snap, d, tail);
  }
}
