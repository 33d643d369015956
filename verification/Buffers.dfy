// The receive buffer that the codecs read from and cut at its front.
module Buffers {
  import opened Bytes

  class ByteBuffer {
    var data: seq<byte>

    constructor ()
      ensures data == []
    {
      data := [];
    }

    method Advance(n: nat)
      requires n <= |data|
      modifies this
      ensures data == old(data)[n..]
    {
      data := data[n..];
    }

    method Extend(bytes: seq<byte>)
      modifies this
      ensures data == old(data) + bytes
    {
      data := data + bytes;
    }

    method Clear()
      modifies this
      ensures data == []
    {
      data := [];
    }
  }
}
