/** The byte transfer of the handler: a file input stream read through a
    4096-byte buffer, and the response body it is written to. */
module Streams {

  newtype byte = x: int | 0 <= x < 256

  /** Size of the transfer buffer (`new byte[4096]`). */
  const BufferSize: nat := 4096

  function Min(a: nat, b: nat): nat {
    if a <= b then a else b
  }

  /** Concatenation of the chunks passed to successive writes. */
  function Concat(chunks: seq<seq<byte>>): seq<byte> {
    if chunks == [] then [] else chunks[0] + Concat(chunks[1..])
  }

  lemma {:induction false} ConcatAppend(chunks: seq<seq<byte>>, c: seq<byte>)
    ensures Concat(chunks + [c]) == Concat(chunks) + c
  {
    if chunks == [] {
      assert chunks + [c] == [c];
    } else {
      assert (chunks + [c])[1..] == chunks[1..] + [c];
      ConcatAppend(chunks[1..], c);
    }
  }

  /** A file opened for reading: its bytes and a read cursor. `maxRead` is the
      most the underlying stream hands over in one call; the contract of
      `Read` admits any short read, so nothing proved depends on it. */
  class FileInput {
    const data: seq<byte>
    const maxRead: nat
    var cursor: nat

    ghost predicate Valid()
      reads this
    {
      cursor <= |data| && maxRead > 0
    }

    constructor (data: seq<byte>, maxRead: nat)
      requires maxRead > 0
      ensures Valid() && this.data == data && this.maxRead == maxRead && cursor == 0
    {
      this.data := data;
      this.maxRead := maxRead;
      cursor := 0;
    }

    /** `InputStream.read(byte[])`: 0 for an empty buffer, -1 at end of file,
        otherwise between 1 and `buffer.Length` of the next bytes, stored at
        the front of the buffer; the rest of the buffer is left alone. */
    method Read(buffer: array<byte>) returns (n: int)
      requires Valid()
      modifies this`cursor, buffer
      ensures Valid()
      ensures buffer.Length == 0 ==> n == 0
      ensures buffer.Length > 0 && old(cursor) == |data| ==> n == -1
      ensures buffer.Length > 0 && old(cursor) < |data| ==>
        1 <= n <= buffer.Length && n <= |data| - old(cursor)
      ensures n <= 0 ==> cursor == old(cursor) && buffer[..] == old(buffer[..])
      ensures n > 0 ==>
        cursor == old(cursor) + n &&
        buffer[..n] == data[old(cursor)..cursor] &&
        buffer[n..] == old(buffer[n..])
    {
      if buffer.Length == 0 {
        return 0;
      }
      if cursor == |data| {
        return -1;
      }
      n := Min(Min(buffer.Length, |data| - cursor), maxRead);
      forall i | 0 <= i < n {
        buffer[i] := data[cursor + i];
      }
      cursor := cursor + n;
    }
  }

  /** The response's output stream, keeping the chunk handed to each write. */
  class ResponseOutput {
    var writes: seq<seq<byte>>

    constructor ()
      ensures writes == []
    {
      writes := [];
    }

    /** The bytes written so far, in order. */
    function Bytes(): seq<byte>
      reads this
    {
      Concat(writes)
    }

    /** `OutputStream.write(b, off, len)`: appends `b[off..off+len]`. */
    method Write(b: array<byte>, off: nat, len: nat)
      requires off + len <= b.Length
      modifies this
      ensures writes == old(writes) + [b[off..off + len]]
      ensures Bytes() == old(Bytes()) + b[off..off + len]
    {
      ConcatAppend(writes, b[off..off + len]);
      writes := writes + [b[off..off + len]];
    }
  }

  /** The copy loop: read into the 4096-byte buffer until `read` returns -1,
      writing `buffer[0..bytesRead)` after each read. Returns the chunks
      written: none longer than the buffer, none empty, and together exactly
      the file's bytes in order. */
  method Transfer(data: seq<byte>, maxRead: nat) returns (writes: seq<seq<byte>>)
    requires maxRead > 0
    ensures Concat(writes) == data
    ensures forall i :: 0 <= i < |writes| ==> 1 <= |writes[i]| <= BufferSize
  {
    var input := new FileInput(data, maxRead);
    var output := new ResponseOutput();
    var buffer := new byte[BufferSize];
    while true
      invariant input.Valid() && input.data == data
      invariant output.Bytes() == data[..input.cursor]
      invariant forall i :: 0 <= i < |output.writes| ==> 1 <= |output.writes[i]| <= BufferSize
      decreases |data| - input.cursor
    {
      var bytesRead := input.Read(buffer);
      if bytesRead == -1 {
        break;
      }
      output.Write(buffer, 0, bytesRead);
      assert data[..input.cursor] == data[..input.cursor - bytesRead] + buffer[0..bytesRead];
    }
    assert data[..input.cursor] == data;
    writes := output.writes;
  }
}
