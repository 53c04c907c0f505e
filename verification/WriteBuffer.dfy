/** The fixed-size buffer between the writer and its output stream. */
module WriteBuffer {
  import opened Bytes

  /** 8192 - 32 bytes. */
  const BUFFER_SIZE: nat := 8160

  class Buffer {
    /** The bytes the stream has received. */
    var stream: seq<byte>
    var written: nat
    var used: nat
    const buffer: array<byte>

    ghost predicate Valid()
      reads this
    {
      && buffer.Length == BUFFER_SIZE
      && used <= BUFFER_SIZE
      && written == |stream|
    }

    /** Everything written so far: the stream, then what is still held back. */
    ghost function Output(): (s: seq<byte>)
      requires Valid()
      reads this, buffer
      ensures |s| == written + used
    {
      stream + buffer[..used]
    }

    constructor ()
      ensures Valid() && fresh(buffer)
      ensures Output() == []
    {
      stream, written, used := [], 0, 0;
      buffer := new byte[BUFFER_SIZE];
    }

    /** Appends to the stream. */
    method WriteBytes(bytes: seq<byte>)
      requires Valid()
      modifies this`stream, this`written
      ensures Valid()
      ensures stream == old(stream) + bytes
    {
      stream := stream + bytes;
      written := written + |bytes|;
    }

    /** Copies bytes into the buffer. */
    method Fill(at: nat, bytes: seq<byte>)
      requires Valid() && at + |bytes| <= BUFFER_SIZE
      modifies buffer
      ensures buffer[..at] == old(buffer[..at])
      ensures buffer[at..at + |bytes|] == bytes
    {
      forall i | 0 <= i < |bytes| {
        buffer[at + i] := bytes[i];
      }
    }

    method Write(bytes: seq<byte>)
      requires Valid()
      modifies this, buffer
      ensures Valid()
      ensures Output() == old(Output()) + bytes
    {
      if |bytes| == 0 {
        return;
      }
      if BUFFER_SIZE <= |bytes| {
        WriteBytes(buffer[..used]);
        used := 0;
        WriteBytes(bytes);
        return;
      }
      var copyLen := if |bytes| <= BUFFER_SIZE - used then |bytes| else BUFFER_SIZE - used;
      Fill(used, bytes[..copyLen]);
      assert buffer[..used + copyLen] == buffer[..used] + bytes[..copyLen];
      used := used + copyLen;
      if used == BUFFER_SIZE {
        WriteBytes(buffer[..BUFFER_SIZE]);
        Fill(0, bytes[copyLen..]);
        used := |bytes| - copyLen;
      }
      assert bytes == bytes[..copyLen] + bytes[copyLen..];
    }

    /** After a flush the stream has everything. */
    method Flush()
      requires Valid()
      modifies this
      ensures Valid()
      ensures used == 0 && stream == Output() == old(Output())
    {
      WriteBytes(buffer[..used]);
      used := 0;
    }
  }
}
