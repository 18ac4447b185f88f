/** types.Array of the 50214 snapshot: a fixed-length slice of values with a
    bounds-checked Get and a Set that checks the bounds, then the value gate, and
    only then writes in place. */
module TypesArray {
  import opened Wrappers
  import opened Errors
  import opened Types

  /** Array.Get: the value at `index`, or an error naming the index and the length
      when `index` lies outside [0, len). */
  function Get(a: array<Value>, index: int): (r: Result<Value, Error>)
    reads a
    ensures r.Err? <==> index < 0 || index >= a.Length
    ensures r.Err? ==> r.error == OutOfBounds(index, a.Length)
    ensures r.Ok? ==> 0 <= index < a.Length && r.value == a[index]
  {
    if index < 0 || index >= a.Length then Err(OutOfBounds(index, a.Length))
    else Ok(a[index])
  }

  /** Array.Set: an index outside [0, len) is refused first, then a value the gate
      refuses; in both cases nothing is written. Otherwise exactly `a[index]` changes. */
  method Set(snap: Snapshot, a: array<Value>, index: int, value: Value) returns (e: Outcome<Error>)
    modifies a
    ensures (index < 0 || index >= a.Length) ==> e == Fail(OutOfBounds(index, a.Length)) && a[..] == old(a[..])
    ensures 0 <= index < a.Length && ValidateValue(snap, value).Fail? ==>
      e == ValidateValue(snap, value) && a[..] == old(a[..])
    ensures 0 <= index < a.Length && ValidateValue(snap, value).Pass? ==>
      e == Pass && a[..] == old(a[..])[index := value]
  {
    if index < 0 || index >= a.Length {
      return Fail(OutOfBounds(index, a.Length));
    }
    var v := ValidateValue(snap, value);
    if v.Fail? {
      return v;
    }
    a[index] := value;
    e := Pass;
  }

  /** In the 50214 snapshot a successful Set stores a valid Document, and the
      element can be read back by Get. */
  method SetThenGet(a: array<Value>, index: int, value: Value) returns (e: Outcome<Error>, r: Result<Value, Error>)
    modifies a
    ensures e == Pass ==> value.Doc? && IsValid(Snap50214, value.d)
    ensures e == Pass ==> r == Ok(value)
    ensures e.Fail? ==> a[..] == old(a[..])
  {
    ValueGate(Snap50214, value);
    e := Set(Snap50214, a, index, value);
    r := Get(a, index);
  }
}
