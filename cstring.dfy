/** CString: a key on the wire, its bytes followed by one 0x00. The two snapshots
    have the same binary codec. */
module CString {
  import opened Bytes
  import opened Wrappers
  import opened Errors
  import Stream

  predicate ZeroFree(s: Bytes)
  {
    forall i :: 0 <= i < |s| ==> s[i] != 0
  }

  /** MarshalBinary: a buffer one byte longer than the string, the string copied in front. */
  function MarshalBinary(s: Bytes): Bytes
  {
    s + [0]
  }

  /** ReadFrom (`ReadBytes(0)`): reads through the first 0x00 and yields the bytes
      before it, with the number of bytes consumed; with no 0x00 left it fails. */
  function ReadFrom(s: Bytes): (r: Result<(Bytes, nat), Error>)
    ensures r.Ok? <==> exists i :: 0 <= i < |s| && s[i] == 0
    ensures r.Err? ==> r.error == ShortRead
    ensures r.Ok? ==>
      var (v, n) := r.value;
      n == |v| + 1 <= |s| && s[..n] == v + [0] && ZeroFree(v)
  {
    if |s| == 0 then Err(ShortRead)
    else if s[0] == 0 then Ok(([], 1))
    else match ReadFrom(s[1..])
      case Err(e) => Err(e)
      case Ok((v, n)) =>
        assert s[1..][..n] == v + [0];
        assert s[..n + 1] == [s[0]] + s[1..][..n];
        Ok(([s[0]] + v, n + 1))
  }

  /** A zero-free string survives MarshalBinary then ReadFrom, whatever follows it,
      and ReadFrom consumes exactly the encoded bytes. */
  lemma {:induction false} RoundTrip(s: Bytes, rest: Bytes)
    requires ZeroFree(s)
    ensures ReadFrom(MarshalBinary(s) + rest) == Ok((s, |s| + 1))
  {
    var e := MarshalBinary(s) + rest;
    if s != [] {
      assert e[0] == s[0] != 0;
      assert e[1..] == MarshalBinary(s[1..]) + rest;
      RoundTrip(s[1..], rest);
      assert [s[0]] + s[1..] == s;
    }
  }

  /** Re-encoding what ReadFrom decoded reproduces exactly the bytes it consumed. */
  lemma ReencodeConsumed(s: Bytes)
    requires ReadFrom(s).Ok?
    ensures MarshalBinary(ReadFrom(s).value.0) == s[..ReadFrom(s).value.1]
  {
  }

  /** MarshalBinary does not reject an embedded 0x00: "a\0b" reads back as "a". */
  lemma EmbeddedZeroTruncates()
    ensures ReadFrom(MarshalBinary([0x61, 0x00, 0x62])) == Ok(([0x61], 2))
  {
    var e: Bytes := [0x61, 0x00, 0x62, 0x00];
    assert MarshalBinary([0x61, 0x00, 0x62]) == e;
    assert e[1..] == [0x00, 0x62, 0x00];
    assert ReadFrom(e[1..]) == Ok(([], 1));
    assert [e[0]] + [] == [0x61];
  }

  /** The fixtures: "foo" is 66 6f 6f 00 and "" is 00, both ways. */
  lemma Fixtures()
    ensures MarshalBinary([0x66, 0x6f, 0x6f]) == [0x66, 0x6f, 0x6f, 0x00]
    ensures ReadFrom([0x66, 0x6f, 0x6f, 0x00]) == Ok(([0x66, 0x6f, 0x6f], 4))
    ensures MarshalBinary([]) == [0x00]
    ensures ReadFrom([0x00]) == Ok(([], 1))
  {
    RoundTrip([0x66, 0x6f, 0x6f], []);
    assert MarshalBinary([0x66, 0x6f, 0x6f]) + [] == [0x66, 0x6f, 0x6f, 0x00];
  }

  /** WriteTo writes exactly the MarshalBinary bytes. */
  method WriteTo(s: Bytes, w: Stream.Writer)
    modifies w
    ensures w.data == old(w.data) + MarshalBinary(s)
  {
    var v := MarshalBinary(s);
    w.Write(v);
  }
}
