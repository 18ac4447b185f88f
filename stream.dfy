/** The output side of a `bufio.Writer`: the bytes written so far. Buffering,
    flushing and write errors of the underlying writer are not modelled. */
module Stream {
  import opened Bytes

  class Writer {
    var data: Bytes

    constructor()
      ensures data == []
    {
      data := [];
    }

    method Write(b: Bytes)
      modifies this
      ensures data == old(data) + b
    {
      data := data + b;
    }

    method WriteByte(b: byte)
      modifies this
      ensures data == old(data) + [b]
    {
      data := data + [b];
    }
  }
}
