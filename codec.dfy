/** The BSON document codec as specification functions over byte sequences.

    A decoder takes the bytes still unread and returns the value and the number of
    bytes it consumed; an encoder returns the bytes `MarshalBinary` produces. One
    definition serves both snapshots: the `Snapshot` argument selects the value gate,
    whether the String tag is handled, and whether `bson.ConvertDocument` validates. */
module Codec {
  import opened Bytes
  import opened Wrappers
  import opened Errors
  import opened Types
  import opened Tags
  import CString
  import BsonString
  import Decimal

  const MinDocumentLen: int := 5
  const MaxDocumentLen: int := 16777216

  /** One element as read off the wire. */
  datatype Element = Element(key: Bytes, value: Value)

  function KeysOf(es: seq<Element>): (ks: seq<Bytes>)
    ensures |ks| == |es|
    ensures forall i :: 0 <= i < |es| ==> ks[i] == es[i].key
  {
    if es == [] then [] else [es[0].key] + KeysOf(es[1..])
  }

  /** The map ReadFrom fills: each element stores its value under its key, and a
      later element with the same key overwrites an earlier one. */
  function MapOf(es: seq<Element>): map<Bytes, Value>
  {
    if es == [] then map[] else map[es[0].key := es[0].value] + MapOf(es[1..])
  }

  /** The document ReadFrom builds from the elements it read. */
  function DocOf(es: seq<Element>): Document
  {
    Document(KeysOf(es), MapOf(es))
  }

  /** The elements of a document, in key order. */
  function ElemsOf(d: Document): (es: seq<Element>)
    requires forall k :: k in d.keys ==> k in d.m
    ensures |es| == |d.keys|
  {
    seq(|d.keys|, i requires 0 <= i < |d.keys| => Element(d.keys[i], d.m[d.keys[i]]))
  }

  // ---------------------------------------------------------------- decoding

  /** Document.ReadFrom: the int32 length prefix must lie in [5, 16777216], exactly
      that many bytes are taken, the element list inside them is parsed, and the
      result is validated. */
  function DecodeDocument(snap: Snapshot, s: Bytes): (r: Result<(Document, nat), Error>)
    ensures |s| >= 4 && !(MinDocumentLen <= Int32LE(s[..4]) <= MaxDocumentLen) ==>
      r == Err(InvalidLength(Int32LE(s[..4])))
    ensures r.Ok? ==>
      && |s| >= 4 && r.value.1 == Int32LE(s[..4])
      && MinDocumentLen <= r.value.1 <= MaxDocumentLen && r.value.1 <= |s|
      && s[r.value.1 - 1] == 0
    ensures r.Ok? ==> IsValid(snap, r.value.0) && |r.value.0.m| == |r.value.0.keys|
    decreases |s|, 1
  {
    if |s| < 4 then Err(ShortRead)
    else
      var l := Int32LE(s[..4]);
      if l < MinDocumentLen || l > MaxDocumentLen then Err(InvalidLength(l))
      else if |s| < l then Err(ShortRead)
      else match ParseElist(snap, s[4..l])
        case Err(e) => Err(e)
        case Ok(es) =>
          match Validate(snap, DocOf(es))
          case Fail(e) => Err(e)
          case Pass => Ok((DocOf(es), l))
  }

  /** The element loop of ReadFrom over the bytes after the length prefix: a 0x00 tag
      ends the list and must be the last byte; otherwise a key and a tagged value
      follow. Running out of bytes before the 0x00 is a short read. */
  function ParseElist(snap: Snapshot, s: Bytes): (r: Result<seq<Element>, Error>)
    ensures r.Ok? ==> |s| >= 1 && s[|s| - 1] == 0
    decreases |s|, 1
  {
    if s == [] then Err(ShortRead)
    else if s[0] == 0 then (if |s| > 1 then Err(TrailingBytes) else Ok([]))
    else match ParseElement(snap, s)
      case Err(e) => Err(e)
      case Ok((e, n)) =>
        match ParseElist(snap, s[n..])
        case Err(err) => Err(err)
        case Ok(es) => Ok([e] + es)
  }

  function ParseElement(snap: Snapshot, s: Bytes): (r: Result<(Element, nat), Error>)
    requires s != []
    ensures r.Ok? ==> 1 < r.value.1 <= |s|
    decreases |s|, 0
  {
    match CString.ReadFrom(s[1..])
    case Err(e) => Err(e)
    case Ok((key, p)) =>
      match ReadValue(snap, s[0], s[1 + p..])
      case Err(e) => Err(e)
      case Ok((v, q)) => Ok((Element(key, v), 1 + p + q))
  }

  /** An element is its key read as a CString, then the value its tag selects. */
  lemma ElementAt(snap: Snapshot, s: Bytes, key: Bytes, p: nat, v: Value, q: nat)
    requires s != [] && CString.ReadFrom(s[1..]) == Ok((key, p))
    requires ReadValue(snap, s[0], s[1 + p..]) == Ok((v, q))
    ensures ParseElement(snap, s) == Ok((Element(key, v), 1 + p + q))
  {
  }

  /** The tag switch of ReadFrom: String (50214 only), embedded Document (decoded,
      then converted with validation) and Array; any other tag is unhandled. */
  function ReadValue(snap: Snapshot, t: byte, s: Bytes): (r: Result<(Value, nat), Error>)
    ensures r.Ok? ==> r.value.1 <= |s|
    ensures !(t == TagDocument || t == TagArray || (t == TagString && snap == Snap50214)) ==>
      r == Err(UnhandledTag(t))
    ensures r.Ok? ==>
      && (t == TagString ==> r.value.0.Str?)
      && (t == TagDocument ==> r.value.0.Doc? && IsValid(snap, r.value.0.d))
      && (t == TagArray ==> r.value.0.Arr?)
    decreases |s|, 3
  {
    if t == TagString && snap == Snap50214 then
      match BsonString.ReadFrom(s)
      case Err(e) => Err(e)
      case Ok((b, n)) => Ok((Str(b), n))
    else if t == TagDocument then
      match DecodeDocument(snap, s)
      case Err(e) => Err(e)
      case Ok((d, n)) =>
        match Types.ConvertDocument(snap, d)
        case Err(e) => Err(e)
        case Ok(d') => Ok((Doc(d'), n))
    else if t == TagArray then
      match DecodeArray(snap, s)
      case Err(e) => Err(e)
      case Ok((a, n)) => Ok((Arr(a), n))
    else Err(UnhandledTag(t))
  }

  /** Array.ReadFrom: a document whose keys must be "0", "1", ... in order. */
  function DecodeArray(snap: Snapshot, s: Bytes): (r: Result<(seq<Value>, nat), Error>)
    ensures r.Ok? ==> r.value.1 <= |s|
    decreases |s|, 2
  {
    match DecodeDocument(snap, s)
    case Err(e) => Err(e)
    case Ok((d, n)) =>
      match Positional(d, 0)
      case Err(e) => Err(e)
      case Ok(a) => Ok((a, n))
  }

  /** The key check of Array.ReadFrom from index `i` on: for each index below len(m),
      key i must be the decimal form of i and must be in the map. The result holds
      the values in index order. */
  function Positional(d: Document, i: nat): (r: Result<seq<Value>, Error>)
    requires |d.m| == |d.keys| && i <= |d.m|
    ensures r.Ok? <==> forall j :: i <= j < |d.m| ==> d.keys[j] == Decimal.Itoa(j) && Decimal.Itoa(j) in d.m
    ensures r.Ok? ==>
      |r.value| == |d.m| - i && forall j :: i <= j < |d.m| ==> r.value[j - i] == d.m[Decimal.Itoa(j)]
    decreases |d.m| - i
  {
    if i == |d.m| then Ok([])
    else if d.keys[i] != Decimal.Itoa(i) then Err(ArrayKey(i, d.keys[i]))
    else if Decimal.Itoa(i) !in d.m then Err(NoElement(i))
    else match Positional(d, i + 1)
      case Err(e) =>
        assert exists j :: i + 1 <= j < |d.m| && !(d.keys[j] == Decimal.Itoa(j) && Decimal.Itoa(j) in d.m);
        Err(e)
      case Ok(rest) => Ok([d.m[Decimal.Itoa(i)]] + rest)
  }

  // ---------------------------------------------------------------- encoding

  /** MarshalBinary panics when a listed key has no map entry. In the 50214 snapshot a
      nested Document is validated first, so only the outermost keys matter; in the
      later one nothing validates, so the requirement reaches every nested Document. */
  predicate Marshalable(snap: Snapshot, d: Document)
    decreases d, 1
  {
    forall k :: k in d.keys ==> k in d.m && ValueMarshalable(snap, d.m[k])
  }

  predicate ValueMarshalable(snap: Snapshot, v: Value)
    decreases v, 0
  {
    match v
    case Doc(d) => snap == Snap50214 || Marshalable(snap, d)
    case Arr(a) => forall i :: 0 <= i < |a| ==> ValueMarshalable(snap, a[i])
    case _ => true
  }

  /** A document that passes validation can be marshalled in the 50214 snapshot. */
  lemma ValidMarshalable50214(d: Document)
    requires IsValid(Snap50214, d)
    ensures Marshalable(Snap50214, d)
  {
    ValidateMeaning(Snap50214, d);
    forall k | k in d.keys ensures k in d.m && ValueMarshalable(Snap50214, d.m[k]) {
      var i :| 0 <= i < |d.keys| && d.keys[i] == k;
    }
  }

  /** A nested Document that bson.ConvertDocument accepted can be marshalled. */
  lemma ConvertedMarshalable(snap: Snapshot, d: Document)
    requires ValueMarshalable(snap, Doc(d)) && ConvertDocument(snap, d).Ok?
    ensures Marshalable(snap, d)
  {
    if snap == Snap50214 {
      ValidMarshalable50214(d);
    }
  }

  /** bson.ConvertDocument: validates in the 50214 snapshot, never fails in the later
      one. Either way the result is the document itself. */
  function ConvertDocument(snap: Snapshot, d: Document): (r: Result<Document, Error>)
    ensures snap == SnapNew ==> r == Ok(d)
    ensures snap == Snap50214 ==> (r.Ok? <==> IsValid(snap, d))
    ensures r.Ok? ==> r.value == d
  {
    if snap == Snap50214 then Types.ConvertDocument(snap, d) else Ok(d)
  }

  /** The tag and bytes MarshalBinary writes for one value. */
  function EncodeValue(snap: Snapshot, v: Value): (r: Result<(byte, Bytes), Error>)
    requires ValueMarshalable(snap, v)
    ensures !(v.Doc? || v.Arr? || (v.Str? && snap == Snap50214)) ==> r == Err(UnhandledType)
    ensures r.Ok? ==>
      && (v.Str? ==> r.value.0 == TagString)
      && (v.Doc? ==> r.value.0 == TagDocument)
      && (v.Arr? ==> r.value.0 == TagArray)
    decreases v, 3
  {
    match v
    case Str(b) =>
      if snap == Snap50214 then Ok((TagString, BsonString.MarshalBinary(b))) else Err(UnhandledType)
    case Doc(d) =>
      (match ConvertDocument(snap, d)
       case Err(e) => Err(e)
       case Ok(_) =>
         ConvertedMarshalable(snap, d);
         match EncodeDocument(snap, d)
         case Err(e) => Err(e)
         case Ok(b) => Ok((TagDocument, b)))
    case Arr(a) =>
      (match EncodeArray(snap, a)
       case Err(e) => Err(e)
       case Ok(b) => Ok((TagArray, b)))
    case _ => Err(UnhandledType)
  }

  /** Document.MarshalBinary: the int32 total length (truncated to 32 bits), the
      element list, and a final 0x00. */
  function EncodeDocument(snap: Snapshot, d: Document): (r: Result<Bytes, Error>)
    requires Marshalable(snap, d)
    decreases d, 2
  {
    match EncodeElems(snap, d, 0)
    case Err(e) => Err(e)
    case Ok(elist) => Ok(PutInt32LE(|elist| + 5) + elist + [0])
  }

  /** The loop of MarshalBinary from key `i` on: tag, key, 0x00, value, per key. */
  function EncodeElems(snap: Snapshot, d: Document, i: nat): Result<Bytes, Error>
    requires Marshalable(snap, d) && i <= |d.keys|
    decreases d, 1, |d.keys| - i
  {
    if i == |d.keys| then Ok([])
    else
      assert d.keys[i] in d.keys;
      match EncodeValue(snap, d.m[d.keys[i]])
      case Err(e) => Err(e)
      case Ok((t, b)) =>
        match EncodeElems(snap, d, i + 1)
        case Err(e) => Err(e)
        case Ok(rest) => Ok([t] + CString.MarshalBinary(d.keys[i]) + b + rest)
  }

  /** Array.MarshalBinary, written out over the array: the document layout with key
      i the decimal form of i. `EncodeArrayIsDocument` shows it equals the encoding
      of the positional document that the source builds. */
  function EncodeArray(snap: Snapshot, a: seq<Value>): (r: Result<Bytes, Error>)
    requires forall i :: 0 <= i < |a| ==> ValueMarshalable(snap, a[i])
    decreases a, 2
  {
    match EncodeArrayElems(snap, a, 0)
    case Err(e) => Err(e)
    case Ok(elist) => Ok(PutInt32LE(|elist| + 5) + elist + [0])
  }

  function EncodeArrayElems(snap: Snapshot, a: seq<Value>, i: nat): Result<Bytes, Error>
    requires forall j :: 0 <= j < |a| ==> ValueMarshalable(snap, a[j])
    requires i <= |a|
    decreases a, 1, |a| - i
  {
    if i == |a| then Ok([])
    else
      match EncodeValue(snap, a[i])
      case Err(e) => Err(e)
      case Ok((t, b)) =>
        match EncodeArrayElems(snap, a, i + 1)
        case Err(e) => Err(e)
        case Ok(rest) => Ok([t] + CString.MarshalBinary(Decimal.Itoa(i)) + b + rest)
  }

  /** Every value of an element list can be marshalled. */
  predicate ElemsMarshalable(snap: Snapshot, es: seq<Element>)
  {
    forall j :: 0 <= j < |es| ==> ValueMarshalable(snap, es[j].value)
  }

  /** The element list as MarshalBinary writes it, for a list of elements. */
  function EncodeElemList(snap: Snapshot, es: seq<Element>): Result<Bytes, Error>
    requires ElemsMarshalable(snap, es)
  {
    if es == [] then Ok([])
    else
      match EncodeElement(snap, es[0])
      case Err(e) => Err(e)
      case Ok(x) =>
        match EncodeElemList(snap, es[1..])
        case Err(e) => Err(e)
        case Ok(rest) => Ok(x + rest)
  }

  /** One element as MarshalBinary writes it: tag, key as a CString, value. */
  function EncodeElement(snap: Snapshot, e: Element): Result<Bytes, Error>
    requires ValueMarshalable(snap, e.value)
  {
    match EncodeValue(snap, e.value)
    case Err(err) => Err(err)
    case Ok((t, b)) => Ok([t] + CString.MarshalBinary(e.key) + b)
  }

  // ------------------------------------------------ the positional document

  /** The keys Array.MarshalBinary builds: "0" .. "n-1". */
  function ArrayKeys(n: nat): (ks: seq<Bytes>)
    ensures |ks| == n
  {
    if n == 0 then [] else ArrayKeys(n - 1) + [Decimal.Itoa(n - 1)]
  }

  /** The map Array.MarshalBinary builds from the first `n` elements. */
  function ArrayMap(a: seq<Value>, n: nat): map<Bytes, Value>
    requires n <= |a|
  {
    if n == 0 then map[] else ArrayMap(a, n - 1)[Decimal.Itoa(n - 1) := a[n - 1]]
  }

  function ArrayDoc(a: seq<Value>): Document
  {
    Document(ArrayKeys(|a|), ArrayMap(a, |a|))
  }
}
