/** A data stream (CDataStream): bytes are written at the end and read from the front. */
module Streams {
  import opened Bytes

  class DataStream {
    var data: seq<byte>

    constructor (data: seq<byte>)
      ensures this.data == data
    {
      this.data := data;
    }

    method Write(bytes: seq<byte>)
      modifies this
      ensures data == old(data) + bytes
    {
      data := data + bytes;
    }

    /** Fails, where the program throws, if there are too few bytes. */
    method Read(n: nat) returns (ok: bool, bytes: seq<byte>)
      modifies this
      ensures ok <==> n <= |old(data)|
      ensures ok ==> bytes == old(data)[..n] && data == old(data)[n..]
      ensures !ok ==> bytes == []
    {
      if n > |data| {
        return false, [];
      }
      ok, bytes := true, data[..n];
      data := data[n..];
    }
  }
}
