/** Int64: eight bytes, little-endian two's complement, and its JSON projection
    `{"$l":"<decimal>"}`. */
module Int64 {
  import opened Bytes
  import opened Wrappers
  import opened Errors
  import Decimal
  import Stream

  type int64 = i: int | -Two63 <= i < Two63

  /** MarshalBinary (`binary.Write`): the value modulo 2^64, as 8 little-endian bytes. */
  function MarshalBinary(i: int64): (r: Bytes)
    ensures |r| == 8
  {
    ToLE(i % Two64, 8)
  }

  /** ReadFrom (`binary.Read`): fails when fewer than 8 bytes remain, otherwise
      consumes exactly 8. */
  function ReadFrom(s: Bytes): (r: Result<(int64, nat), Error>)
    ensures r.Ok? <==> |s| >= 8
    ensures r.Err? ==> r.error == ShortRead
    ensures r.Ok? ==> r.value.1 == 8
  {
    if |s| < 8 then Err(ShortRead)
    else
      var u := FromLE(s[..8]);
      Pow256Values();
      FromLEBound(s[..8]);
      Ok((if u >= Two63 then u - Two64 else u, 8))
  }

  /** decode(encode(i)) == i for every int64, whatever follows the 8 bytes. */
  lemma RoundTrip(i: int64, rest: Bytes)
    ensures ReadFrom(MarshalBinary(i) + rest) == Ok((i, 8))
  {
    Pow256Values();
    FromToLE(i % Two64, 8);
    assert (MarshalBinary(i) + rest)[..8] == MarshalBinary(i);
  }

  /** encode(decode(b)) == b for every 8 bytes. */
  lemma BytesRoundTrip(b: Bytes)
    requires |b| == 8
    ensures MarshalBinary(ReadFrom(b).value.0) == b
  {
    Pow256Values();
    FromLEBound(b);
    assert b[..8] == b;
    var u := FromLE(b);
    var v := ReadFrom(b).value.0;
    assert v % Two64 == u by {
      if u >= Two63 {
        assert v == u - Two64;
      } else {
        assert v == u;
      }
    }
    ToFromLE(b);
  }

  /** MarshalJSON: the value as a decimal string under "$l". */
  function MarshalJSON(i: int64): Bytes
  {
    // {"$l":"  ...  "}
    [0x7b, 0x22, 0x24, 0x6c, 0x22, 0x3a, 0x22] + Decimal.FormatInt(i) + [0x22, 0x7d]
  }

  /** The JSON projection is `{"$l":"` then a decimal string that parses back to the
      value, then `"}`. */
  lemma MarshalJSONCarriesDecimal(i: int64)
    ensures var j := MarshalJSON(i);
      |j| >= 10 && j[..7] == [0x7b, 0x22, 0x24, 0x6c, 0x22, 0x3a, 0x22]
      && j[|j| - 2..] == [0x22, 0x7d]
      && Decimal.ParseInt(j[7..|j| - 2]) == Some(i as int)
  {
    var j := MarshalJSON(i);
    assert j[7..|j| - 2] == Decimal.FormatInt(i);
    Decimal.ParseFormatInt(i);
  }

  /** WriteTo writes exactly the MarshalBinary bytes. */
  method WriteTo(i: int64, w: Stream.Writer)
    modifies w
    ensures w.data == old(w.data) + MarshalBinary(i)
  {
    var v := MarshalBinary(i);
    w.Write(v);
  }
}
