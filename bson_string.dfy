/** The String value codec, following the BSON 1.1 production
    `string ::= int32 (byte*) "\x00"`, where the int32 counts the bytes and the 0x00. */
module BsonString {
  import opened Bytes
  import opened Wrappers
  import opened Errors
  import Stream

  function MarshalBinary(s: Bytes): (r: Bytes)
    ensures |r| == |s| + 5
  {
    PutInt32LE(|s| + 1) + s + [0]
  }

  /** Reads the length prefix, then that many bytes, the last of which must be 0x00. */
  function ReadFrom(s: Bytes): (r: Result<(Bytes, nat), Error>)
    ensures r.Ok? ==> 5 <= r.value.1 <= |s| && r.value.1 == |r.value.0| + 5
  {
    if |s| < 4 then Err(ShortRead)
    else
      var l := Int32LE(s[..4]);
      if l < 1 then Err(InvalidStringLength(l))
      else if |s| - 4 < l then Err(ShortRead)
      else if s[4 + l - 1] != 0 then Err(StringNotTerminated)
      else Ok((s[4..4 + l - 1], 4 + l))
  }

  /** A string shorter than 2^31 - 1 bytes survives MarshalBinary then ReadFrom. */
  lemma RoundTrip(s: Bytes, rest: Bytes)
    requires |s| + 1 < Two31
    ensures ReadFrom(MarshalBinary(s) + rest) == Ok((s, |s| + 5))
  {
    var e := MarshalBinary(s) + rest;
    assert e[..4] == PutInt32LE(|s| + 1);
    Int32RoundTrip(|s| + 1);
    assert e[4..4 + |s|] == s;
  }

  /** Re-encoding what ReadFrom decoded reproduces the bytes it consumed. */
  lemma ReencodeConsumed(s: Bytes)
    requires ReadFrom(s).Ok?
    ensures MarshalBinary(ReadFrom(s).value.0) == s[..ReadFrom(s).value.1]
  {
    var (v, n) := ReadFrom(s).value;
    Int32BytesRoundTrip(s[..4]);
    assert s[..n] == s[..4] + v + [0];
  }

  /** WriteTo writes exactly the MarshalBinary bytes. */
  method WriteTo(s: Bytes, w: Stream.Writer)
    modifies w
    ensures w.data == old(w.data) + MarshalBinary(s)
  {
    w.Write(MarshalBinary(s));
  }
}
