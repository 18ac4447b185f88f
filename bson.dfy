/** bson.Document and bson.Array: the objects whose ReadFrom fills the receiver from
    the wire and whose MarshalBinary and WriteTo write it back. Each method is proved
    equal to the corresponding function of module Codec, so the properties proved
    there (length bounds, exact consumption, the round trips) hold of the methods. */
module Bson {
  import opened Bytes
  import opened Wrappers
  import opened Errors
  import opened Tags
  import Types
  import Codec
  import Layout
  import CString
  import BsonString
  import Decimal
  import Stream

  // ------------------------------------------------- nesting height

  /** How deeply Documents and Arrays nest inside a value. MarshalBinary recurses
      on the values it holds and Array.MarshalBinary on a new Document of the same
      height, so this is what their recursion decreases. */
  ghost function Height(v: Types.Value): nat
    decreases v, 2
  {
    match v
    case Doc(d) => DocHeight(d)
    case Arr(a) => ArrHeight(a)
    case _ => 0
  }

  ghost function DocHeight(d: Types.Document): nat
    decreases d, 1
  {
    1 + KeysHeight(d, 0)
  }

  ghost function KeysHeight(d: Types.Document, i: nat): nat
    decreases d, 0, |d.keys| - i
  {
    if i >= |d.keys| then 0
    else
      var here := if d.keys[i] in d.m then Height(d.m[d.keys[i]]) else 0;
      var rest := KeysHeight(d, i + 1);
      if here < rest then rest else here
  }

  ghost function ArrHeight(a: seq<Types.Value>): nat
    decreases a, 1
  {
    1 + ElemsHeight(a, 0)
  }

  ghost function ElemsHeight(a: seq<Types.Value>, i: nat): nat
    decreases a, 0, |a| - i
  {
    if i >= |a| then 0
    else
      var here := Height(a[i]);
      var rest := ElemsHeight(a, i + 1);
      if here < rest then rest else here
  }

  lemma {:induction false} KeysHeightBound(d: Types.Document, i: nat, j: nat)
    requires i <= j < |d.keys| && d.keys[j] in d.m
    ensures Height(d.m[d.keys[j]]) <= KeysHeight(d, i)
    decreases j - i
  {
    if i < j {
      KeysHeightBound(d, i + 1, j);
    }
  }

  /** A value held by a document is lower than the document. */
  lemma ValueBelowDocument(d: Types.Document, k: Bytes)
    requires k in d.keys && k in d.m
    ensures Height(d.m[k]) < DocHeight(d)
  {
    var j :| 0 <= j < |d.keys| && d.keys[j] == k;
    KeysHeightBound(d, 0, j);
  }

  lemma {:induction false} ElemsHeightBound(a: seq<Types.Value>, i: nat, j: nat)
    requires i <= j < |a|
    ensures Height(a[j]) <= ElemsHeight(a, i)
    decreases j - i
  {
    if i < j {
      ElemsHeightBound(a, i + 1, j);
    }
  }

  /** An element of an array is lower than the array. */
  lemma ValueBelowArray(a: seq<Types.Value>, j: nat)
    requires j < |a|
    ensures Height(a[j]) < ArrHeight(a)
  {
    ElemsHeightBound(a, 0, j);
  }

  lemma {:induction false} ArrayDocKeysHeight(a: seq<Types.Value>, i: nat)
    requires i <= |a|
    requires |Codec.ArrayDoc(a).keys| == |a|
    requires forall j :: 0 <= j < |a| ==> Codec.ArrayDoc(a).keys[j] == Decimal.Itoa(j)
    requires forall k :: k in Codec.ArrayDoc(a).m <==> k in Codec.ArrayDoc(a).keys
    requires forall j :: 0 <= j < |a| ==> Codec.ArrayDoc(a).m[Decimal.Itoa(j)] == a[j]
    ensures KeysHeight(Codec.ArrayDoc(a), i) == ElemsHeight(a, i)
    decreases |a| - i
  {
    if i < |a| {
      var d := Codec.ArrayDoc(a);
      assert d.keys[i] in d.keys;
      ArrayDocKeysHeight(a, i + 1);
    }
  }

  /** The positional document Array.MarshalBinary builds is as high as the array. */
  lemma ArrayDocHeight(a: seq<Types.Value>)
    ensures DocHeight(Codec.ArrayDoc(a)) == ArrHeight(a)
  {
    Layout.ArrayDocFacts(a);
    ArrayDocKeysHeight(a, 0);
  }

  // ------------------------------------------------------------ Document

  /** bson.Document: the keys in wire order and the map from key to value. */
  class Document {
    var keys: seq<Bytes>
    var m: map<Bytes, Types.Value>

    /** The zero Document. */
    constructor()
      ensures keys == [] && m == map[]
    {
      keys := [];
      m := map[];
    }

    /** A Document over the given map and keys. */
    constructor FromParts(keys: seq<Bytes>, m: map<Bytes, Types.Value>)
      ensures this.keys == keys && this.m == m
    {
      this.keys := keys;
      this.m := m;
    }

    /** The value this object holds. */
    function View(): Types.Document
      reads this
    {
      Types.Document(keys, m)
    }

    /** MarshalBinary: the elements in key order written into a buffer, then the
        int32 length, the buffer and a final 0x00. */
    method MarshalBinary(snap: Types.Snapshot) returns (r: Result<Bytes, Error>)
      requires Codec.Marshalable(snap, View())
      ensures r == Codec.EncodeDocument(snap, View())
      decreases DocHeight(View()), 2
    {
      var er := WriteElements(snap);
      if er.Err? {
        return Err(er.error);
      }
      var body := er.value;
      var res := new Stream.Writer();
      res.Write(PutInt32LE(|body| + 5));
      res.Write(body);
      res.WriteByte(0);
      assert res.data == PutInt32LE(|body| + 5) + body + [0];
      r := Ok(res.data);
    }

    /** The MarshalBinary loop: each element in key order, written into one buffer. */
    method WriteElements(snap: Types.Snapshot) returns (r: Result<Bytes, Error>)
      requires Codec.Marshalable(snap, View())
      ensures r == Codec.EncodeElems(snap, View(), 0)
      decreases DocHeight(View()), 1
    {
      var elist := new Stream.Writer();
      var i := 0;
      ThenNil(Codec.EncodeElems(snap, View(), 0));
      while i < |keys|
        invariant 0 <= i <= |keys|
        invariant fresh(elist)
        invariant ElemsFrom(snap, View(), i, elist.data)
        decreases |keys| - i
      {
        var k := keys[i];
        assert k in View().keys;
        ValueBelowDocument(View(), k);
        ghost var before := elist.data;
        var e := WriteElement(snap, k, m[k], elist);
        if e.Fail? {
          MarshalFails(snap, View(), i, before);
          return Err(e.error);
        }
        MarshalStep(snap, View(), i, before, elist.data);
        i := i + 1;
      }
      assert elist.data + [] == elist.data;
      r := Ok(elist.data);
    }

    /** WriteTo: the MarshalBinary bytes, written to `w`; on error nothing is written. */
    method WriteTo(snap: Types.Snapshot, w: Stream.Writer) returns (e: Outcome<Error>)
      requires Codec.Marshalable(snap, View())
      modifies w
      ensures Codec.EncodeDocument(snap, View()).Ok? ==>
        e == Pass && w.data == old(w.data) + Codec.EncodeDocument(snap, View()).value
      ensures Codec.EncodeDocument(snap, View()).Err? ==>
        e == Fail(Codec.EncodeDocument(snap, View()).error) && w.data == old(w.data)
      decreases DocHeight(View()), 3
    {
      var v := MarshalBinary(snap);
      if v.Err? {
        return Fail(v.error);
      }
      w.Write(v.value);
      e := Pass;
    }

    /** ReadFrom: the int32 length, then the elements one by one (tag, key, value by
        tag) until the 0x00 that must be the last byte, then validation. The result
        is the number of bytes consumed. The contract says nothing about the receiver
        on error. */
    method ReadFrom(snap: Types.Snapshot, input: Bytes) returns (r: Result<nat, Error>)
      modifies this
      ensures Codec.DecodeDocument(snap, input).Ok? ==>
        r == Ok(Codec.DecodeDocument(snap, input).value.1) && View() == Codec.DecodeDocument(snap, input).value.0
      ensures Codec.DecodeDocument(snap, input).Err? ==> r == Err(Codec.DecodeDocument(snap, input).error)
      decreases |input|, 1
    {
      if |input| < 4 {
        return Err(ShortRead);
      }
      var l := Int32LE(input[..4]);
      if l < Codec.MinDocumentLen || l > Codec.MaxDocumentLen {
        return Err(InvalidLength(l));
      }
      if |input| < l {
        return Err(ShortRead);
      }
      var b := input[4..l];
      var e := ReadElements(snap, b);
      if e.Fail? {
        return Err(e.error);
      }
      DecodeOfElist(snap, input, l, Codec.ParseElist(snap, b).value);
      var c := Types.ConvertDocument(snap, View());
      if c.Err? {
        return Err(c.error);
      }
      r := Ok(l);
    }

    /** The element loop of ReadFrom over the bytes after the length prefix: the keys
        and the map start empty, and each element appends its key and stores its value. */
    method ReadElements(snap: Types.Snapshot, b: Bytes) returns (e: Outcome<Error>)
      modifies this
      ensures Codec.ParseElist(snap, b).Ok? ==> e == Pass && View() == Codec.DocOf(Codec.ParseElist(snap, b).value)
      ensures Codec.ParseElist(snap, b).Err? ==> e == Fail(Codec.ParseElist(snap, b).error)
      decreases |b|, 1
    {
      var ks: seq<Bytes> := [];
      var mp: map<Bytes, Types.Value> := map[];
      var pos := 0;
      ghost var done: seq<Codec.Element> := [];
      assert b[0..] == b;
      ThenNil(Codec.ParseElist(snap, b));
      while true
        invariant 0 <= pos <= |b|
        invariant Collected(ks, mp, done)
        invariant ElistFrom(snap, b, pos, done)
        decreases |b| - pos
      {
        if pos == |b| {
          ElistShort(snap, b, done);
          return Fail(ShortRead);
        }
        var t := b[pos];
        if t == 0 {
          if pos + 1 < |b| {
            ElistTrailing(snap, b, pos, done);
            return Fail(TrailingBytes);
          }
          ElistEnd(snap, b, pos, done);
          break;
        }
        var er := ReadElement(snap, b, pos, done);
        if er.Err? {
          return Fail(er.error);
        }
        var (key, v, n) := er.value;
        CollectedSnoc(ks, mp, done, key, v);
        ks := ks + [key];
        mp := mp[key := v];
        done := done + [Codec.Element(key, v)];
        pos := pos + n;
      }
      keys, m := ks, mp;
      e := Pass;
    }
  }

  /** The key list and map ReadElements has built hold the elements read so far. */
  ghost predicate Collected(ks: seq<Bytes>, mp: map<Bytes, Types.Value>, done: seq<Codec.Element>)
  {
    ks == Codec.KeysOf(done) && mp == Codec.MapOf(done)
  }

  /** Appending a key and storing its value keeps the two in step with the elements. */
  lemma CollectedSnoc(ks: seq<Bytes>, mp: map<Bytes, Types.Value>, done: seq<Codec.Element>, key: Bytes, v: Types.Value)
    requires Collected(ks, mp, done)
    ensures Collected(ks + [key], mp[key := v], done + [Codec.Element(key, v)])
  {
    Layout.MapOfSnoc(done, Codec.Element(key, v));
  }

  /** The ReadElements loop invariant: the element list of `b` is the elements read
      so far followed by the element list from `pos` on. */
  ghost predicate ElistFrom(snap: Types.Snapshot, b: Bytes, pos: nat, done: seq<Codec.Element>)
  {
    pos <= |b| && Codec.ParseElist(snap, b) == Then(done, Codec.ParseElist(snap, b[pos..]))
  }

  /** One pass of the ReadElements loop at a non-zero tag: the key, then the value
      the tag selects. The result is the element with the number of bytes it took. */
  method ReadElement(snap: Types.Snapshot, b: Bytes, pos: nat, ghost done: seq<Codec.Element>)
    returns (r: Result<(Bytes, Types.Value, nat), Error>)
    requires pos < |b| && b[pos] != 0
    requires ElistFrom(snap, b, pos, done)
    ensures r.Err? ==> Codec.ParseElist(snap, b) == Err(r.error)
    ensures r.Ok? ==> 0 < r.value.2 && ElistFrom(snap, b, pos + r.value.2, done + [Codec.Element(r.value.0, r.value.1)])
    decreases |b|, 0
  {
    var t := b[pos];
    var kr := CString.ReadFrom(b[pos + 1..]);
    if kr.Err? {
      ElistKeyFails(snap, b, pos, done);
      return Err(kr.error);
    }
    var (key, p) := kr.value;
    var vr := ReadElementValue(snap, t, b[pos + 1 + p..]);
    if vr.Err? {
      ElistValueFails(snap, b, pos, done, p);
      return Err(vr.error);
    }
    var (v, q) := vr.value;
    ReadStep(snap, b, pos, done, key, p, v, q);
    r := Ok((key, v, 1 + p + q));
  }

  // The exits of the ReadElements loop; each starts from its invariant.

  lemma ElistShort(snap: Types.Snapshot, b: Bytes, done: seq<Codec.Element>)
    requires ElistFrom(snap, b, |b|, done)
    ensures Codec.ParseElist(snap, b) == Err(ShortRead)
  {
    assert b[|b|..] == [];
  }

  lemma ElistTrailing(snap: Types.Snapshot, b: Bytes, pos: nat, done: seq<Codec.Element>)
    requires pos + 1 < |b| && b[pos] == 0
    requires ElistFrom(snap, b, pos, done)
    ensures Codec.ParseElist(snap, b) == Err(TrailingBytes)
  {
    assert b[pos..][0] == 0;
  }

  lemma ElistEnd(snap: Types.Snapshot, b: Bytes, pos: nat, done: seq<Codec.Element>)
    requires pos + 1 == |b| && b[pos] == 0
    requires ElistFrom(snap, b, pos, done)
    ensures Codec.ParseElist(snap, b) == Ok(done)
  {
    assert b[pos..] == [0];
    assert done + [] == done;
  }

  lemma ElistKeyFails(snap: Types.Snapshot, b: Bytes, pos: nat, done: seq<Codec.Element>)
    requires pos < |b| && b[pos] != 0 && CString.ReadFrom(b[pos + 1..]).Err?
    requires ElistFrom(snap, b, pos, done)
    ensures Codec.ParseElist(snap, b) == Err(CString.ReadFrom(b[pos + 1..]).error)
  {
    var t := b[pos..];
    assert t[0] == b[pos] && t[1..] == b[pos + 1..];
    assert Codec.ParseElement(snap, t) == Err(CString.ReadFrom(b[pos + 1..]).error);
    assert Codec.ParseElist(snap, t) == Err(CString.ReadFrom(b[pos + 1..]).error);
  }

  lemma ElistValueFails(snap: Types.Snapshot, b: Bytes, pos: nat, done: seq<Codec.Element>, p: nat)
    requires pos < |b| && b[pos] != 0
    requires CString.ReadFrom(b[pos + 1..]).Ok? && CString.ReadFrom(b[pos + 1..]).value.1 == p
    requires Codec.ReadValue(snap, b[pos], b[pos + 1 + p..]).Err?
    requires ElistFrom(snap, b, pos, done)
    ensures Codec.ParseElist(snap, b) == Err(Codec.ReadValue(snap, b[pos], b[pos + 1 + p..]).error)
  {
    var t := b[pos..];
    assert t[0] == b[pos] && t[1..] == b[pos + 1..] && t[1 + p..] == b[pos + 1 + p..];
    assert Codec.ParseElement(snap, t) == Err(Codec.ReadValue(snap, b[pos], b[pos + 1 + p..]).error);
    assert Codec.ParseElist(snap, t) == Err(Codec.ReadValue(snap, b[pos], b[pos + 1 + p..]).error);
  }

  /** One element read by the ReadFrom loop: the rest of the list is parsed after it. */
  lemma ReadStep(snap: Types.Snapshot, b: Bytes, pos: nat, done: seq<Codec.Element>,
                 key: Bytes, p: nat, v: Types.Value, q: nat)
    requires pos < |b| && b[pos] != 0
    requires ElistFrom(snap, b, pos, done)
    requires CString.ReadFrom(b[pos + 1..]) == Ok((key, p))
    requires Codec.ReadValue(snap, b[pos], b[pos + 1 + p..]) == Ok((v, q))
    ensures pos + 1 + p + q <= |b|
    ensures ElistFrom(snap, b, pos + 1 + p + q, done + [Codec.Element(key, v)])
  {
    ElementStep(snap, b, pos, key, p, v, q);
    ThenAssoc(done, [Codec.Element(key, v)], Codec.ParseElist(snap, b[pos + 1 + p + q..]));
  }

  lemma ElementStep(snap: Types.Snapshot, b: Bytes, pos: nat, key: Bytes, p: nat, v: Types.Value, q: nat)
    requires pos < |b| && b[pos] != 0
    requires CString.ReadFrom(b[pos + 1..]) == Ok((key, p))
    requires Codec.ReadValue(snap, b[pos], b[pos + 1 + p..]) == Ok((v, q))
    ensures pos + 1 + p + q <= |b|
    ensures Codec.ParseElist(snap, b[pos..]) == Then([Codec.Element(key, v)], Codec.ParseElist(snap, b[pos + 1 + p + q..]))
  {
    var s := b[pos..];
    assert s[0] == b[pos] && s[1..] == b[pos + 1..] && s[1 + p..] == b[pos + 1 + p..];
    Codec.ElementAt(snap, s, key, p, v, q);
    assert s[1 + p + q..] == b[pos + 1 + p + q..];
    ElistCons(snap, s, Codec.Element(key, v), 1 + p + q, b[pos + 1 + p + q..]);
  }

  lemma ElistCons(snap: Types.Snapshot, s: Bytes, e: Codec.Element, n: nat, rest: Bytes)
    requires s != [] && s[0] != 0 && Codec.ParseElement(snap, s) == Ok((e, n))
    requires n <= |s| && rest == s[n..]
    ensures Codec.ParseElist(snap, s) == Then([e], Codec.ParseElist(snap, rest))
  {
  }

  /** Once the element list parses, DecodeDocument is decided by validation. */
  lemma DecodeOfElist(snap: Types.Snapshot, input: Bytes, l: int, es: seq<Codec.Element>)
    requires |input| >= 4 && l == Int32LE(input[..4])
    requires Codec.MinDocumentLen <= l <= Codec.MaxDocumentLen && l <= |input|
    requires Codec.ParseElist(snap, input[4..l]) == Ok(es)
    ensures Types.Validate(snap, Codec.DocOf(es)).Fail? ==>
      Codec.DecodeDocument(snap, input) == Err(Types.Validate(snap, Codec.DocOf(es)).error)
    ensures Types.Validate(snap, Codec.DocOf(es)).Pass? ==>
      Codec.DecodeDocument(snap, input) == Ok((Codec.DocOf(es), l))
  {
  }

  /** The MarshalBinary loop invariant: the elements of `d` are the bytes written so
      far followed by the elements from index `i` on. */
  ghost predicate ElemsFrom(snap: Types.Snapshot, d: Types.Document, i: nat, before: Bytes)
  {
    Codec.Marshalable(snap, d) && i <= |d.keys| &&
    Codec.EncodeElems(snap, d, 0) == Then(before, Codec.EncodeElems(snap, d, i))
  }

  /** One step of the MarshalBinary loop: the element at `i` is written after what
      the earlier steps wrote. */
  lemma MarshalStep(snap: Types.Snapshot, d: Types.Document, i: nat, before: Bytes, after: Bytes)
    requires Codec.Marshalable(snap, d) && i < |d.keys| && d.keys[i] in d.m
    requires ElemsFrom(snap, d, i, before)
    requires Codec.EncodeElement(snap, Codec.Element(d.keys[i], d.m[d.keys[i]])).Ok?
    requires after == before + Codec.EncodeElement(snap, Codec.Element(d.keys[i], d.m[d.keys[i]])).value
    ensures ElemsFrom(snap, d, i + 1, after)
  {
    assert d.keys[i] in d.keys;
    var x := Codec.EncodeElement(snap, Codec.Element(d.keys[i], d.m[d.keys[i]])).value;
    assert Codec.EncodeElems(snap, d, i) == Then(x, Codec.EncodeElems(snap, d, i + 1));
    ThenAssoc(before, x, Codec.EncodeElems(snap, d, i + 1));
  }

  /** An element MarshalBinary cannot write makes the whole call fail with its error. */
  lemma MarshalFails(snap: Types.Snapshot, d: Types.Document, i: nat, before: Bytes)
    requires Codec.Marshalable(snap, d) && i < |d.keys| && d.keys[i] in d.m
    requires ElemsFrom(snap, d, i, before)
    requires Codec.EncodeElement(snap, Codec.Element(d.keys[i], d.m[d.keys[i]])).Err?
    ensures Codec.EncodeElems(snap, d, 0) == Err(Codec.EncodeElement(snap, Codec.Element(d.keys[i], d.m[d.keys[i]])).error)
  {
    assert d.keys[i] in d.keys;
  }

  /** The body of the MarshalBinary loop for one key: tag byte, key as a CString,
      then the value, by kind. A kind MarshalBinary does not handle is an error. */
  method WriteElement(snap: Types.Snapshot, k: Bytes, v: Types.Value, w: Stream.Writer) returns (e: Outcome<Error>)
    requires Codec.ValueMarshalable(snap, v)
    modifies w
    ensures Codec.EncodeElement(snap, Codec.Element(k, v)).Ok? ==>
      e == Pass && w.data == old(w.data) + Codec.EncodeElement(snap, Codec.Element(k, v)).value
    ensures Codec.EncodeElement(snap, Codec.Element(k, v)).Err? ==>
      e == Fail(Codec.EncodeElement(snap, Codec.Element(k, v)).error)
    decreases Height(v), 5
  {
    ElementByKind(snap, k, v);
    if v.Str? {
      if snap != Types.Snap50214 {
        return Fail(UnhandledType);
      }
      w.WriteByte(TagString);
      CString.WriteTo(k, w);
      BsonString.WriteTo(v.s, w);
      Regroup(old(w.data), TagString, CString.MarshalBinary(k), BsonString.MarshalBinary(v.s));
      e := Pass;
    } else if v.Doc? {
      w.WriteByte(TagDocument);
      CString.WriteTo(k, w);
      var conv := ConvertDocument(snap, v.d);
      if conv.Err? {
        return Fail(conv.error);
      }
      Codec.ConvertedMarshalable(snap, v.d);
      ElementOfDocument(snap, k, v.d);
      ghost var head := w.data;
      e := conv.value.WriteTo(snap, w);
      if e == Pass {
        Regroup(old(w.data), TagDocument, CString.MarshalBinary(k), w.data[|head|..]);
      }
    } else if v.Arr? {
      w.WriteByte(TagArray);
      CString.WriteTo(k, w);
      var arr := new Array.FromElems(v.a);
      ghost var head := w.data;
      e := arr.WriteTo(snap, w);
      if e == Pass {
        Regroup(old(w.data), TagArray, CString.MarshalBinary(k), w.data[|head|..]);
      }
    } else {
      e := Fail(UnhandledType);
    }
  }

  lemma Regroup(a: Bytes, t: byte, k: Bytes, x: Bytes)
    ensures a + [t] + k + x == a + ([t] + k + x)
  {
  }

  /** What EncodeElement writes for each kind of value other than a Document. */
  lemma ElementByKind(snap: Types.Snapshot, k: Bytes, v: Types.Value)
    requires Codec.ValueMarshalable(snap, v)
    ensures var r := Codec.EncodeElement(snap, Codec.Element(k, v));
      var head := CString.MarshalBinary(k);
      && (v.Str? && snap == Types.Snap50214 ==> r == Ok([TagString] + head + BsonString.MarshalBinary(v.s)))
      && (v.Doc? && Codec.ConvertDocument(snap, v.d).Err? ==> r == Err(Codec.ConvertDocument(snap, v.d).error))
      && (v.Arr? ==> r == Then([TagArray] + head, Codec.EncodeArray(snap, v.a)))
      && (!(v.Doc? || v.Arr? || (v.Str? && snap == Types.Snap50214)) ==> r == Err(UnhandledType))
  {
  }

  /** What EncodeElement writes for a Document that converts. */
  lemma ElementOfDocument(snap: Types.Snapshot, k: Bytes, c: Types.Document)
    requires Codec.ValueMarshalable(snap, Types.Doc(c)) && Codec.Marshalable(snap, c)
    requires Codec.ConvertDocument(snap, c).Ok?
    ensures Codec.EncodeElement(snap, Codec.Element(k, Types.Doc(c))) ==
      Then([TagDocument] + CString.MarshalBinary(k), Codec.EncodeDocument(snap, c))
  {
  }

  /** bson.ConvertDocument: a new bson.Document over the same keys and map; in the
      50214 snapshot it is validated first. */
  method ConvertDocument(snap: Types.Snapshot, d: Types.Document) returns (r: Result<Document, Error>)
    ensures Codec.ConvertDocument(snap, d).Err? ==> r == Err(Codec.ConvertDocument(snap, d).error)
    ensures Codec.ConvertDocument(snap, d).Ok? ==> r.Ok? && fresh(r.value) && r.value.View() == d
  {
    var doc := new Document.FromParts(d.keys, d.m);
    if snap == Types.Snap50214 {
      var c := Types.ConvertDocument(snap, doc.View());
      if c.Err? {
        return Err(c.error);
      }
    }
    r := Ok(doc);
  }

  /** The tag switch of Document.ReadFrom for one value read from `s`. */
  method ReadElementValue(snap: Types.Snapshot, t: byte, s: Bytes) returns (r: Result<(Types.Value, nat), Error>)
    ensures r == Codec.ReadValue(snap, t, s)
    decreases |s|, 3
  {
    if t == TagString && snap == Types.Snap50214 {
      var sr := BsonString.ReadFrom(s);
      if sr.Err? {
        return Err(sr.error);
      }
      r := Ok((Types.Str(sr.value.0), sr.value.1));
    } else if t == TagDocument {
      var v := new Document();
      var dr := v.ReadFrom(snap, s);
      if dr.Err? {
        return Err(dr.error);
      }
      // ReadFrom has validated v, so converting it cannot fail here.
      var c := Types.ConvertDocument(snap, v.View());
      assert c.Ok?;
      r := Ok((Types.Doc(c.value), dr.value));
    } else if t == TagArray {
      var v := new Array();
      var ar := v.ReadFrom(snap, s);
      if ar.Err? {
        return Err(ar.error);
      }
      r := Ok((Types.Arr(v.elems), ar.value));
    } else {
      r := Err(UnhandledTag(t));
    }
  }

  // ------------------------------------------------------------ Array

  /** bson.Array: the elements in order. */
  class Array {
    var elems: seq<Types.Value>

    /** The zero Array. */
    constructor()
      ensures elems == []
    {
      elems := [];
    }

    /** The conversion Array(v) of a types.Array. */
    constructor FromElems(a: seq<Types.Value>)
      ensures elems == a
    {
      elems := a;
    }

    /** MarshalBinary: keys "0" .. "n-1" and the map from them to the elements, then
        Document.MarshalBinary over them. */
    method MarshalBinary(snap: Types.Snapshot) returns (r: Result<Bytes, Error>)
      requires forall i :: 0 <= i < |elems| ==> Codec.ValueMarshalable(snap, elems[i])
      ensures r == Codec.EncodeArray(snap, elems)
      decreases ArrHeight(elems), 3
    {
      var m: map<Bytes, Types.Value> := map[];
      var keys: seq<Bytes> := [];
      var i := 0;
      while i < |elems|
        invariant 0 <= i <= |elems|
        invariant PrefixParts(elems, i, keys, m)
        decreases |elems| - i
      {
        var key := Decimal.Itoa(i);
        PrefixPartsStep(elems, i, keys, m);
        m := m[key := elems[i]];
        keys := keys + [key];
        i := i + 1;
      }
      assert PrefixParts(elems, |elems|, keys, m);
      var doc := new Document.FromParts(keys, m);
      Layout.EncodeArrayIsDocument(snap, elems);
      ArrayDocHeight(elems);
      r := doc.MarshalBinary(snap);
    }

    /** WriteTo: the MarshalBinary bytes, written to `w`; on error nothing is written. */
    method WriteTo(snap: Types.Snapshot, w: Stream.Writer) returns (e: Outcome<Error>)
      requires forall i :: 0 <= i < |elems| ==> Codec.ValueMarshalable(snap, elems[i])
      modifies w
      ensures Codec.EncodeArray(snap, elems).Ok? ==>
        e == Pass && w.data == old(w.data) + Codec.EncodeArray(snap, elems).value
      ensures Codec.EncodeArray(snap, elems).Err? ==>
        e == Fail(Codec.EncodeArray(snap, elems).error) && w.data == old(w.data)
      decreases ArrHeight(elems), 4
    {
      var v := MarshalBinary(snap);
      if v.Err? {
        return Fail(v.error);
      }
      w.Write(v.value);
      e := Pass;
    }

    /** ReadFrom: a Document, then for each index below the size of its map the key at
        that index must be its decimal form and must be in the map. The receiver is
        replaced only on success. */
    method ReadFrom(snap: Types.Snapshot, input: Bytes) returns (r: Result<nat, Error>)
      modifies this
      ensures Codec.DecodeArray(snap, input).Ok? ==>
        r == Ok(Codec.DecodeArray(snap, input).value.1) && elems == Codec.DecodeArray(snap, input).value.0
      ensures Codec.DecodeArray(snap, input).Err? ==>
        r == Err(Codec.DecodeArray(snap, input).error) && elems == old(elems)
      decreases |input|, 2
    {
      var doc := new Document();
      var dr := doc.ReadFrom(snap, input);
      if dr.Err? {
        return Err(dr.error);
      }
      var d := doc.View();
      ArrayOfDocument(snap, input, d, dr.value);
      var pr := ReadPositions(d);
      if pr.Err? {
        return Err(pr.error);
      }
      elems := pr.value;
      r := dr;
    }
  }

  /** The Array.MarshalBinary loop invariant: the keys and map built from the first
      `i` elements. */
  ghost predicate PrefixParts(a: seq<Types.Value>, i: nat, keys: seq<Bytes>, m: map<Bytes, Types.Value>)
  {
    i <= |a| && keys == Codec.ArrayKeys(i) && m == Codec.ArrayMap(a, i)
  }

  /** One element added by the Array.MarshalBinary loop. */
  lemma PrefixPartsStep(a: seq<Types.Value>, i: nat, keys: seq<Bytes>, m: map<Bytes, Types.Value>)
    requires i < |a| && PrefixParts(a, i, keys, m)
    ensures PrefixParts(a, i + 1, keys + [Decimal.Itoa(i)], m[Decimal.Itoa(i) := a[i]])
  {
  }

  /** The loop of Array.ReadFrom: for each index below the size of the map, the key
      at that index must be its decimal form and must be in the map; the values are
      stored in index order. */
  method ReadPositions(d: Types.Document) returns (r: Result<seq<Types.Value>, Error>)
    requires |d.m| == |d.keys|
    ensures r == Codec.Positional(d, 0)
  {
    var n := |d.m|;
    var s := new Types.Value[n];
    var i := 0;
    ThenNil(Codec.Positional(d, 0));
    while i < n
      invariant 0 <= i <= n
      invariant PositionalFrom(d, i, s[..i])
      decreases n - i
    {
      var k := d.keys[i];
      if k != Decimal.Itoa(i) {
        return Err(ArrayKey(i, k));
      }
      if Decimal.Itoa(i) !in d.m {
        return Err(NoElement(i));
      }
      PositionalStep(d, i, s[..i]);
      s[i] := d.m[Decimal.Itoa(i)];
      assert s[..i + 1] == s[..i] + [d.m[Decimal.Itoa(i)]];
      i := i + 1;
    }
    assert s[..n] == s[..];
    assert Codec.Positional(d, n) == Ok([]);
    assert s[..] + [] == s[..];
    r := Ok(s[..]);
  }

  /** Once the Document is read, DecodeArray is decided by the positional check. */
  lemma ArrayOfDocument(snap: Types.Snapshot, input: Bytes, d: Types.Document, n: nat)
    requires Codec.DecodeDocument(snap, input) == Ok((d, n))
    ensures |d.m| == |d.keys|
    ensures Codec.Positional(d, 0).Err? ==> Codec.DecodeArray(snap, input) == Err(Codec.Positional(d, 0).error)
    ensures Codec.Positional(d, 0).Ok? ==> Codec.DecodeArray(snap, input) == Ok((Codec.Positional(d, 0).value, n))
  {
  }

  /** The Array.ReadFrom loop invariant: the positional reading of `d` is the values
      taken so far followed by the reading from index `i` on. */
  ghost predicate PositionalFrom(d: Types.Document, i: nat, before: seq<Types.Value>)
  {
    |d.m| == |d.keys| && i <= |d.m| &&
    Codec.Positional(d, 0) == Then(before, Codec.Positional(d, i))
  }

  /** One index checked by the Array.ReadFrom loop. */
  lemma PositionalStep(d: Types.Document, i: nat, before: seq<Types.Value>)
    requires |d.m| == |d.keys| && i < |d.m|
    requires d.keys[i] == Decimal.Itoa(i) && Decimal.Itoa(i) in d.m
    requires PositionalFrom(d, i, before)
    ensures PositionalFrom(d, i + 1, before + [d.m[Decimal.Itoa(i)]])
  {
    ThenAssoc(before, [d.m[Decimal.Itoa(i)]], Codec.Positional(d, i + 1));
  }
}
