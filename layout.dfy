/** Facts about the document layout: how the decoder's element list, map and key list
    relate, and the positional document that Array.MarshalBinary builds. */
module Layout {
  import opened Bytes
  import opened Wrappers
  import opened Types
  import opened Codec
  import Decimal
  import Utf8
  import CString

  /** The map's domain is exactly the set of keys, whatever the keys. */
  lemma {:induction false} MapOfKeys(es: seq<Element>)
    ensures MapOf(es).Keys == KeySet(KeysOf(es))
  {
    if es != [] {
      var tail := es[1..];
      MapOfKeys(tail);
      assert KeysOf(es) == [es[0].key] + KeysOf(tail);
      assert KeySet(KeysOf(es)) == {es[0].key} + KeySet(KeysOf(tail));
    }
  }

  /** With distinct keys, every element's key maps to that element's value, and the
      map's domain is exactly the set of keys. */
  lemma {:induction false} MapOfDistinct(es: seq<Element>)
    requires Distinct(KeysOf(es))
    ensures forall j :: 0 <= j < |es| ==> es[j].key in MapOf(es) && MapOf(es)[es[j].key] == es[j].value
    ensures MapOf(es).Keys == KeySet(KeysOf(es))
  {
    MapOfKeys(es);
    if es != [] {
      var tail := es[1..];
      assert KeysOf(tail) == KeysOf(es)[1..];
      MapOfDistinct(tail);
      MapOfKeys(tail);
      forall j | 1 <= j < |es| ensures es[j].key in MapOf(es) && MapOf(es)[es[j].key] == es[j].value {
        assert es[j] == tail[j - 1];
      }
    }
  }

  /** Appending an element to the list is one map update, as ReadFrom does it. */
  lemma {:induction false} MapOfSnoc(es: seq<Element>, e: Element)
    ensures MapOf(es + [e]) == MapOf(es)[e.key := e.value]
    ensures KeysOf(es + [e]) == KeysOf(es) + [e.key]
  {
    if es != [] {
      var head := map[es[0].key := es[0].value];
      assert (es + [e])[0] == es[0];
      assert (es + [e])[1..] == es[1..] + [e];
      MapOfSnoc(es[1..], e);
      assert MapOf(es + [e]) == head + MapOf(es[1..])[e.key := e.value];
      assert head + MapOf(es[1..])[e.key := e.value] == (head + MapOf(es[1..]))[e.key := e.value];
    }
  }

  /** Reading the elements back out of the document built from distinct elements
      gives the elements. */
  lemma ElemsOfDocOf(es: seq<Element>)
    requires Distinct(KeysOf(es))
    ensures forall k :: k in DocOf(es).keys ==> k in DocOf(es).m
    ensures ElemsOf(DocOf(es)) == es
  {
    MapOfDistinct(es);
  }

  /** A valid document is the document built from its own elements. */
  lemma DocOfElemsOf(snap: Snapshot, d: Document)
    requires IsValid(snap, d)
    ensures forall k :: k in d.keys ==> k in d.m
    ensures DocOf(ElemsOf(d)) == d
  {
    ValidKeysEnumerateMap(snap, d);
    var es := ElemsOf(d);
    assert KeysOf(es) == d.keys;
    MapOfElemsOf(d, es);
  }

  /** The map built from a document's elements is the document's map, when its keys
      are distinct and are exactly the map's domain. */
  lemma MapOfElemsOf(d: Document, es: seq<Element>)
    requires forall k :: k in d.keys ==> k in d.m
    requires Distinct(d.keys) && KeySet(d.keys) == d.m.Keys && es == ElemsOf(d)
    ensures MapOf(es) == d.m
  {
    assert KeysOf(es) == d.keys by {
      forall i | 0 <= i < |es| ensures KeysOf(es)[i] == d.keys[i] {
        assert es[i].key == d.keys[i];
      }
    }
    MapOfDistinct(es);
    assert MapOf(es).Keys == d.m.Keys;
    MapOfElemsOfValues(d, es);
  }

  lemma MapOfElemsOfValues(d: Document, es: seq<Element>)
    requires forall k :: k in d.keys ==> k in d.m
    requires es == ElemsOf(d) && MapOf(es).Keys == d.m.Keys
    requires forall j :: 0 <= j < |es| ==> es[j].key in MapOf(es) && MapOf(es)[es[j].key] == es[j].value
    requires KeySet(d.keys) == d.m.Keys
    ensures forall k :: k in d.m ==> MapOf(es)[k] == d.m[k]
  {
    forall k | k in d.m ensures MapOf(es)[k] == d.m[k] {
      assert k in KeySet(d.keys);
      var j :| 0 <= j < |d.keys| && d.keys[j] == k;
      assert es[j].key == k;
    }
  }

  /** The MarshalBinary loop over a document's keys encodes its element list. */
  lemma {:induction false} EncodeElemsAsList(snap: Snapshot, d: Document, i: nat)
    requires Marshalable(snap, d) && i <= |d.keys|
    ensures forall j :: 0 <= j < |ElemsOf(d)[i..]| ==> ValueMarshalable(snap, ElemsOf(d)[i..][j].value)
    ensures EncodeElems(snap, d, i) == EncodeElemList(snap, ElemsOf(d)[i..])
    decreases |d.keys| - i
  {
    var es := ElemsOf(d)[i..];
    forall j | 0 <= j < |es| ensures ValueMarshalable(snap, es[j].value) {
      assert d.keys[i + j] in d.keys;
    }
    if i < |d.keys| {
      EncodeElemsAsList(snap, d, i + 1);
      assert es[1..] == ElemsOf(d)[i + 1..];
    }
  }

  // ------------------------------------------------ the positional document

  lemma {:induction false} ArrayKeysAt(n: nat)
    ensures forall j :: 0 <= j < n ==> ArrayKeys(n)[j] == Decimal.Itoa(j)
  {
    if n > 0 {
      ArrayKeysAt(n - 1);
      assert forall j :: 0 <= j < n - 1 ==> ArrayKeys(n)[j] == ArrayKeys(n - 1)[j];
    }
  }

  lemma ArrayKeysDistinct(n: nat)
    ensures Distinct(ArrayKeys(n))
  {
    ArrayKeysAt(n);
    forall i, j | 0 <= i < j < n ensures ArrayKeys(n)[i] != ArrayKeys(n)[j] {
      Decimal.ItoaInjective(i, j);
    }
  }

  /** The positional map of the first `n` elements holds exactly the first `n`
      decimal keys. */
  lemma {:induction false} ArrayMapDomain(a: seq<Value>, n: nat)
    requires n <= |a|
    ensures forall k :: k in ArrayMap(a, n) <==> k in ArrayKeys(n)
  {
    if n > 0 {
      ArrayMapDomain(a, n - 1);
    }
  }

  /** In the positional map, key j maps to element j. */
  lemma {:induction false} ArrayMapAt(a: seq<Value>, n: nat, j: nat)
    requires j < n <= |a|
    ensures Decimal.Itoa(j) in ArrayMap(a, n) && ArrayMap(a, n)[Decimal.Itoa(j)] == a[j]
  {
    if j < n - 1 {
      Decimal.ItoaInjective(j, n - 1);
      ArrayMapAt(a, n - 1, j);
    }
  }

  lemma {:induction false} ArrayMapSize(a: seq<Value>, n: nat)
    requires n <= |a|
    ensures |ArrayMap(a, n)| == n
  {
    if n > 0 {
      ArrayMapSize(a, n - 1);
      ArrayMapDomain(a, n - 1);
      ArrayKeysAt(n - 1);
      if Decimal.Itoa(n - 1) in ArrayMap(a, n - 1) {
        var j :| 0 <= j < n - 1 && ArrayKeys(n - 1)[j] == Decimal.Itoa(n - 1);
        Decimal.ItoaInjective(j, n - 1);
      }
    }
  }

  lemma ArrayDocFacts(a: seq<Value>)
    ensures |ArrayDoc(a).keys| == |a| && |ArrayDoc(a).m| == |a|
    ensures forall j :: 0 <= j < |a| ==> ArrayDoc(a).keys[j] == Decimal.Itoa(j)
    ensures forall k :: k in ArrayDoc(a).m <==> k in ArrayDoc(a).keys
    ensures forall j :: 0 <= j < |a| ==> ArrayDoc(a).m[Decimal.Itoa(j)] == a[j]
    ensures Distinct(ArrayDoc(a).keys)
  {
    ArrayKeysAt(|a|);
    ArrayKeysDistinct(|a|);
    ArrayMapDomain(a, |a|);
    ArrayMapSize(a, |a|);
    forall j | 0 <= j < |a| ensures ArrayDoc(a).m[Decimal.Itoa(j)] == a[j] {
      ArrayMapAt(a, |a|, j);
    }
  }

  /** Array.MarshalBinary equals Document.MarshalBinary over the positional document. */
  lemma EncodeArrayIsDocument(snap: Snapshot, a: seq<Value>)
    requires forall i :: 0 <= i < |a| ==> ValueMarshalable(snap, a[i])
    ensures Marshalable(snap, ArrayDoc(a))
    ensures EncodeArray(snap, a) == EncodeDocument(snap, ArrayDoc(a))
  {
    var d := ArrayDoc(a);
    ArrayDocFacts(a);
    forall k | k in d.keys ensures k in d.m && ValueMarshalable(snap, d.m[k]) {
      var j :| 0 <= j < |a| && d.keys[j] == k;
    }
    EncodeArrayElemsAsDocument(snap, a, 0);
  }

  lemma {:induction false} EncodeArrayElemsAsDocument(snap: Snapshot, a: seq<Value>, i: nat)
    requires forall j :: 0 <= j < |a| ==> ValueMarshalable(snap, a[j])
    requires i <= |a| && Marshalable(snap, ArrayDoc(a))
    ensures EncodeArrayElems(snap, a, i) == EncodeElems(snap, ArrayDoc(a), i)
    decreases |a| - i
  {
    if i < |a| {
      var d := ArrayDoc(a);
      ArrayDocFacts(a);
      assert d.keys[i] == Decimal.Itoa(i) && d.m[d.keys[i]] == a[i];
      EncodeArrayElemsAsDocument(snap, a, i + 1);
    }
  }

  /** Decimal keys are non-empty ASCII digits, hence valid keys with no 0x00. */
  lemma DecimalKeyValid(n: nat)
    ensures IsValidKey(Decimal.Itoa(n)) && CString.ZeroFree(Decimal.Itoa(n))
  {
    Utf8.AsciiValid(Decimal.Itoa(n));
  }

  /** The positional document of values that pass the gate is valid. */
  lemma ArrayDocValid(snap: Snapshot, a: seq<Value>)
    requires forall i :: 0 <= i < |a| ==> ValidateValue(snap, a[i]).Pass?
    ensures IsValid(snap, ArrayDoc(a))
    ensures forall k :: k in ArrayDoc(a).keys ==> CString.ZeroFree(k)
  {
    var d := ArrayDoc(a);
    ArrayDocFacts(a);
    forall i | 0 <= i < |d.keys|
      ensures IsValidKey(d.keys[i]) && CString.ZeroFree(d.keys[i]) && d.keys[i] in d.m
      ensures ValidateValue(snap, d.m[d.keys[i]]).Pass?
    {
      DecimalKeyValid(i);
    }
    ValidateMeaning(snap, d);
  }

  /** The key check accepts the positional document and returns the array. */
  lemma PositionalOfArrayDoc(a: seq<Value>)
    ensures |ArrayDoc(a).m| == |ArrayDoc(a).keys|
    ensures Positional(ArrayDoc(a), 0) == Ok(a)
  {
    ArrayDocFacts(a);
    var r := Positional(ArrayDoc(a), 0);
    assert r.Ok?;
    assert r.value == a;
  }

  /** A valid document that passes the key check is the positional document of the
      array the check returns. */
  lemma PositionalIsArrayDoc(snap: Snapshot, d: Document)
    requires IsValid(snap, d) && |d.m| == |d.keys| && Positional(d, 0).Ok?
    ensures d == ArrayDoc(Positional(d, 0).value)
  {
    var a := Positional(d, 0).value;
    ArrayDocFacts(a);
    ValidKeysEnumerateMap(snap, d);
    assert d.keys == ArrayDoc(a).keys;
    PositionalMap(d, a);
  }

  /** The map of a document whose keys are positional is the positional map of the
      values Positional read. */
  lemma PositionalMap(d: Document, a: seq<Value>)
    requires |d.m| == |d.keys| && Positional(d, 0) == Ok(a)
    requires forall k :: k in d.m <==> k in d.keys
    requires d.keys == ArrayDoc(a).keys
    requires forall k :: k in ArrayDoc(a).m <==> k in ArrayDoc(a).keys
    requires forall j :: 0 <= j < |a| ==> ArrayDoc(a).m[Decimal.Itoa(j)] == a[j]
    ensures d.m == ArrayDoc(a).m
  {
    var e := ArrayDoc(a);
    assert d.m.Keys == e.m.Keys;
    forall k | k in d.m ensures d.m[k] == e.m[k] {
      var j :| 0 <= j < |d.keys| && d.keys[j] == k;
      assert k == Decimal.Itoa(j) && j < |a|;
      assert a[j] == d.m[Decimal.Itoa(j)];
    }
  }

  /** The int32 prefix of a Document encoding shorter than 2^31 bytes reads back as
      the total length, and the encoding ends with 0x00. */
  lemma LengthPrefixIsTotal(snap: Snapshot, d: Document)
    requires Marshalable(snap, d) && EncodeDocument(snap, d).Ok?
    requires |EncodeDocument(snap, d).value| < Two31
    ensures var b := EncodeDocument(snap, d).value;
      |b| >= 5 && Int32LE(b[..4]) == |b| && b[|b| - 1] == 0
  {
    var b := EncodeDocument(snap, d).value;
    assert b[..4] == PutInt32LE(|b|);
    Int32RoundTrip(|b|);
  }
}
