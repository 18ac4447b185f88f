/** The value model (`types` package): Document, the value gate `validateValue`,
    key validity, `validate`, `ConvertDocument`, `add` and `MakeDocument`.

    The two snapshots differ only in the gate: the 50214 snapshot accepts nested
    Documents and nothing else, the later one accepts Documents and Arrays. */
module Types {
  import opened Bytes
  import opened Wrappers
  import opened Errors
  import Utf8

  datatype Snapshot = Snap50214 | SnapNew

  /** The dynamic values a document can hold. Str, Doc and Arr are the kinds the
      codec handles; Bool, Int64 and Null stand for every other Go kind. */
  datatype Value =
    | Str(s: Bytes)
    | Doc(d: Document)
    | Arr(a: seq<Value>)
    | Bool(b: bool)
    | Int64(i: int)
    | Null

  /** types.Document: a key list in insertion order and a map from keys to values.
      Nothing forces the two to agree; `Validate` checks that they do. */
  datatype Document = Document(keys: seq<Bytes>, m: map<Bytes, Value>)

  const EmptyDocument: Document := Document([], map[])

  /** isValidKey: non-empty and valid UTF-8. */
  predicate IsValidKey(key: Bytes)
  {
    key != [] && Utf8.Valid(key)
  }

  /** validateValue: a Document is checked recursively, an Array is accepted
      unchecked in the later snapshot only, every other kind is refused. */
  function ValidateValue(snap: Snapshot, v: Value): Outcome<Error>
    decreases v
  {
    match v
    case Doc(d) => Validate(snap, d)
    case Arr(_) => if snap == SnapNew then Pass else Fail(UnsupportedType)
    case _ => Fail(UnsupportedType)
  }

  /** What each snapshot's gate accepts: a valid Document in both, an Array (its
      elements unchecked) only in the later one, and no other kind. */
  lemma ValueGate(snap: Snapshot, v: Value)
    ensures snap == Snap50214 ==> (ValidateValue(snap, v).Pass? <==> v.Doc? && IsValid(snap, v.d))
    ensures snap == SnapNew ==> (ValidateValue(snap, v).Pass? <==> (v.Doc? && IsValid(snap, v.d)) || v.Arr?)
    ensures !(v.Doc? || v.Arr?) ==> ValidateValue(snap, v) == Fail(UnsupportedType)
  {
  }

  /** Document.validate: counts first, then each key in order. */
  function Validate(snap: Snapshot, d: Document): Outcome<Error>
    decreases d, 1
  {
    if |d.m| != |d.keys| then Fail(CountMismatch(|d.m|, |d.keys|))
    else ValidateFrom(snap, d, 0, {})
  }

  /** The loop of validate from key `i` on, with `prev` the keys already seen. */
  function ValidateFrom(snap: Snapshot, d: Document, i: nat, prev: set<Bytes>): Outcome<Error>
    requires i <= |d.keys|
    decreases d, 0, |d.keys| - i
  {
    if i == |d.keys| then Pass
    else
      var key := d.keys[i];
      if !IsValidKey(key) then Fail(InvalidKey(key))
      else if key !in d.m then Fail(KeyNotFound(key))
      else if key in prev then Fail(DuplicateKey(key))
      else match ValidateValue(snap, d.m[key])
        case Fail(e) => Fail(e)
        case Pass => ValidateFrom(snap, d, i + 1, prev + {key})
  }

  predicate Distinct(ks: seq<Bytes>)
  {
    forall i, j :: 0 <= i < j < |ks| ==> ks[i] != ks[j]
  }

  /** Each listed key is valid, present, and maps to a value the gate accepts. */
  predicate EntriesValid(snap: Snapshot, d: Document)
  {
    forall i :: 0 <= i < |d.keys| ==>
      IsValidKey(d.keys[i]) && d.keys[i] in d.m && ValidateValue(snap, d.m[d.keys[i]]).Pass?
  }

  predicate IsValid(snap: Snapshot, d: Document)
  {
    Validate(snap, d).Pass?
  }

  /** No key equals an earlier one. */
  predicate FreshAt(ks: seq<Bytes>, j: int)
    requires 0 <= j < |ks|
  {
    forall i :: 0 <= i < j ==> ks[i] != ks[j]
  }

  lemma {:induction false} ValidateFromMeaning(snap: Snapshot, d: Document, i: nat)
    requires i <= |d.keys|
    ensures ValidateFrom(snap, d, i, KeySet(d.keys[..i])).Pass? <==>
      forall j :: i <= j < |d.keys| ==>
        IsValidKey(d.keys[j]) && d.keys[j] in d.m && ValidateValue(snap, d.m[d.keys[j]]).Pass?
        && FreshAt(d.keys, j)
    decreases |d.keys| - i
  {
    if i < |d.keys| {
      var key := d.keys[i];
      assert d.keys[..i + 1] == d.keys[..i] + [key];
      assert KeySet(d.keys[..i + 1]) == KeySet(d.keys[..i]) + {key};
      if key in KeySet(d.keys[..i]) {
        var k :| 0 <= k < i && d.keys[..i][k] == key;
        assert d.keys[k] == key;
      } else {
        forall k | 0 <= k < i ensures d.keys[k] != key {
          assert d.keys[k] == d.keys[..i][k];
        }
      }
      ValidateFromMeaning(snap, d, i + 1);
    }
  }

  /** validate succeeds exactly when the counts agree, the keys do not repeat, and
      every key is valid, present, and maps to an accepted value. */
  lemma ValidateMeaning(snap: Snapshot, d: Document)
    ensures IsValid(snap, d) <==>
      |d.m| == |d.keys| && Distinct(d.keys) && EntriesValid(snap, d)
  {
    assert d.keys[..0] == [];
    assert KeySet(d.keys[..0]) == {};
    ValidateFromMeaning(snap, d, 0);
    if forall j :: 0 <= j < |d.keys| ==> FreshAt(d.keys, j) {
      forall i, j | 0 <= i < j < |d.keys| ensures d.keys[i] != d.keys[j] {
        assert FreshAt(d.keys, j);
      }
    }
  }

  function KeySet(ks: seq<Bytes>): set<Bytes>
  {
    set k | k in ks
  }

  lemma {:induction false} DistinctKeySetSize(ks: seq<Bytes>)
    requires Distinct(ks)
    ensures |KeySet(ks)| == |ks|
  {
    if ks != [] {
      var init := ks[..|ks| - 1];
      assert KeySet(ks) == KeySet(init) + {ks[|ks| - 1]};
      assert ks[|ks| - 1] !in KeySet(init);
      DistinctKeySetSize(init);
    }
  }

  lemma SubsetSameSize<T>(a: set<T>, b: set<T>)
    requires a <= b && |a| == |b|
    ensures a == b
  {
    assert b == a + (b - a);
    assert |b| == |a| + |b - a|;
  }

  /** A valid document's key list enumerates the map's domain exactly once. */
  lemma ValidKeysEnumerateMap(snap: Snapshot, d: Document)
    requires IsValid(snap, d)
    ensures Distinct(d.keys) && KeySet(d.keys) == d.m.Keys
    ensures forall k :: k in d.m <==> k in d.keys
  {
    ValidateMeaning(snap, d);
    DistinctKeySetSize(d.keys);
    assert KeySet(d.keys) <= d.m.Keys;
    SubsetSameSize(KeySet(d.keys), d.m.Keys);
  }

  /** types.ConvertDocument: the conversion copies keys and map (no aliasing in this
      model; Go's nil map or key list is already the empty one) and fails exactly
      when validate fails. */
  function ConvertDocument(snap: Snapshot, d: Document): (r: Result<Document, Error>)
    ensures r.Ok? <==> IsValid(snap, d)
    ensures r.Ok? ==> r.value == d
    ensures r.Err? ==> Validate(snap, d) == Fail(r.error)
  {
    match Validate(snap, d)
    case Fail(e) => Err(e)
    case Pass => Ok(d)
  }

  /** Document.add: refuses a present key, an invalid key and a refused value, in
      that order; otherwise appends the key and adds one map entry. */
  function Add(snap: Snapshot, d: Document, key: Bytes, value: Value): (r: Result<Document, Error>)
  {
    if key in d.m then Err(KeyPresent(key))
    else if !IsValidKey(key) then Err(InvalidKey(key))
    else match ValidateValue(snap, value)
      case Fail(e) => Err(e)
      case Pass => Ok(Document(d.keys + [key], d.m[key := value]))
  }

  /** add keeps a valid document valid: the new key goes last, exactly one map entry
      is added, and every earlier entry is unchanged. */
  lemma AddPreservesValid(snap: Snapshot, d: Document, key: Bytes, value: Value)
    requires IsValid(snap, d)
    requires Add(snap, d, key, value).Ok?
    ensures var d' := Add(snap, d, key, value).value;
      IsValid(snap, d') && d'.keys == d.keys + [key] && |d'.m| == |d.m| + 1
      && key !in d.keys && d'.m[key] == value
      && forall k :: k in d.m ==> k in d'.m && d'.m[k] == d.m[k]
  {
    var d' := Add(snap, d, key, value).value;
    ValidKeysEnumerateMap(snap, d);
    ValidateMeaning(snap, d);
    assert key !in d.keys;
    assert Distinct(d'.keys);
    assert EntriesValid(snap, d') by {
      forall i | 0 <= i < |d'.keys|
        ensures IsValidKey(d'.keys[i]) && d'.keys[i] in d'.m && ValidateValue(snap, d'.m[d'.keys[i]]).Pass?
      {
        if i < |d.keys| {
          assert d'.keys[i] == d.keys[i];
        }
      }
    }
    ValidateMeaning(snap, d');
  }

  /** add fails exactly when the key is present or invalid or the value is refused. */
  lemma AddFailsWhen(snap: Snapshot, d: Document, key: Bytes, value: Value)
    ensures Add(snap, d, key, value).Err? <==>
      key in d.m || !IsValidKey(key) || ValidateValue(snap, value).Fail?
    ensures Add(snap, d, key, value).Ok? ==>
      Add(snap, d, key, value).value == Document(d.keys + [key], d.m[key := value])
  {
  }

  // ---- MakeDocument ----

  /** The key argument of pair `j` and its value argument. */
  function KeyArg(pairs: seq<Value>, j: nat): Value
    requires 2 * j + 1 < |pairs|
  {
    pairs[2 * j]
  }

  function ValueArg(pairs: seq<Value>, j: nat): Value
    requires 2 * j + 1 < |pairs|
  {
    pairs[2 * j + 1]
  }

  /** Pair `j` is accepted: its key is a valid string not used by an earlier pair,
      and its value passes the gate. */
  predicate PairOk(snap: Snapshot, pairs: seq<Value>, j: nat)
    requires 2 * j + 1 < |pairs|
  {
    && KeyArg(pairs, j).Str?
    && IsValidKey(KeyArg(pairs, j).s)
    && ValidateValue(snap, ValueArg(pairs, j)).Pass?
    && forall j' :: 0 <= j' < j ==> KeyArg(pairs, j') != KeyArg(pairs, j)
  }

  predicate PairsOk(snap: Snapshot, pairs: seq<Value>, n: nat)
    requires 2 * n <= |pairs|
  {
    forall j :: 0 <= j < n ==> PairOk(snap, pairs, j)
  }

  /** The keys of the first `n` pairs, in argument order. */
  function PairKeys(pairs: seq<Value>, n: nat): (ks: seq<Bytes>)
    requires 2 * n <= |pairs|
    ensures |ks| == n
  {
    if n == 0 then []
    else PairKeys(pairs, n - 1) + [var k := KeyArg(pairs, n - 1); if k.Str? then k.s else []]
  }

  lemma {:induction false} PairKeysAt(pairs: seq<Value>, n: nat, j: nat)
    requires 2 * n <= |pairs| && j < n
    ensures KeyArg(pairs, j).Str? ==> PairKeys(pairs, n)[j] == KeyArg(pairs, j).s
  {
    if j < n - 1 {
      PairKeysAt(pairs, n - 1, j);
    }
  }

  /** `doc` is what MakeDocument has built from the first `n` pairs. */
  predicate Built(snap: Snapshot, pairs: seq<Value>, n: nat, doc: Document)
    requires 2 * n <= |pairs|
  {
    && PairsOk(snap, pairs, n)
    && doc.keys == PairKeys(pairs, n)
    && (forall j :: 0 <= j < n ==> doc.keys[j] in doc.m && doc.m[doc.keys[j]] == ValueArg(pairs, j))
    && IsValid(snap, doc)
  }

  /** Adding pair `n` to what was built from the first `n` pairs fails exactly when
      that pair is not accepted, and otherwise builds from `n + 1` pairs. */
  lemma AddStep(snap: Snapshot, pairs: seq<Value>, n: nat, doc: Document)
    requires 2 * n + 1 < |pairs| && Built(snap, pairs, n, doc) && KeyArg(pairs, n).Str?
    ensures var r := Add(snap, doc, KeyArg(pairs, n).s, ValueArg(pairs, n));
      (r.Ok? <==> PairOk(snap, pairs, n)) && (r.Ok? ==> Built(snap, pairs, n + 1, r.value))
  {
    var key := KeyArg(pairs, n).s;
    var value := ValueArg(pairs, n);
    ValidKeysEnumerateMap(snap, doc);
    AddFailsWhen(snap, doc, key, value);
    var r := Add(snap, doc, key, value);
    if key in doc.m {
      var j :| 0 <= j < |doc.keys| && doc.keys[j] == key;
      assert PairOk(snap, pairs, j);
      PairKeysAt(pairs, n, j);
      assert KeyArg(pairs, j) == KeyArg(pairs, n);
    } else if r.Ok? {
      AddPreservesValid(snap, doc, key, value);
      forall j' | 0 <= j' < n ensures KeyArg(pairs, j') != KeyArg(pairs, n) {
        assert doc.keys[j'] in doc.m;
        PairKeysAt(pairs, n, j');
      }
      assert PairOk(snap, pairs, n);
    }
  }

  /** MakeDocument: succeeds exactly when the argument count is even and every pair
      is accepted; the result lists the keys in argument order, maps each to its
      value, and is valid. An odd count is reported as such. */
  method MakeDocument(snap: Snapshot, pairs: seq<Value>) returns (r: Result<Document, Error>)
    ensures |pairs| % 2 != 0 ==> r == Err(OddArguments(|pairs|))
    ensures r.Ok? <==> |pairs| % 2 == 0 && PairsOk(snap, pairs, |pairs| / 2)
    ensures r.Ok? ==>
      && IsValid(snap, r.value)
      && r.value.keys == PairKeys(pairs, |pairs| / 2)
      && forall j :: 0 <= j < |pairs| / 2 ==> r.value.keys[j] in r.value.m && r.value.m[r.value.keys[j]] == ValueArg(pairs, j)
  {
    var l := |pairs|;
    if l % 2 != 0 {
      return Err(OddArguments(l));
    }
    var doc := EmptyDocument;
    assert IsValid(snap, doc);
    var i := 0;
    while i < l
      invariant 0 <= i <= l && i % 2 == 0
      invariant Built(snap, pairs, i / 2, doc)
    {
      var n := i / 2;
      assert KeyArg(pairs, n) == pairs[i] && ValueArg(pairs, n) == pairs[i + 1];
      if !pairs[i].Str? {
        assert !PairOk(snap, pairs, n);
        return Err(InvalidKeyType);
      }
      AddStep(snap, pairs, n, doc);
      var added := Add(snap, doc, pairs[i].s, pairs[i + 1]);
      match added {
        case Err(e) =>
          return Err(e);
        case Ok(d') =>
          doc := d';
      }
      i := i + 2;
    }
    match Validate(snap, doc) {
      case Fail(e) => return Err(e);
      case Pass =>
    }
    return Ok(doc);
  }
}
