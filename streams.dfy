/** The older `copyFile`'s transfer: a `FileInputStream` read into a fixed buffer and a
    `FileOutputStream` written from it, chunk by chunk, until `read` reports the end. */
module Streams {
  import opened FileSystem

  /** `NUM_BYTES`, the buffer size. */
  const NumBytes: nat := 40960

  /** An open `FileInputStream`: the file's bytes and how far reading has got. */
  class InputStream {
    const data: seq<byte>
    var position: nat

    constructor(data: seq<byte>)
      ensures this.data == data && position == 0
    {
      this.data := data;
      position := 0;
    }

    /** `read(buffer)`: 0 into an empty buffer, -1 at the end of the file, otherwise some
        bytes (at least one, at most what fits and what is left) copied into the front of
        the buffer. */
    method Read(buffer: array<byte>) returns (n: int)
      requires position <= |data|
      modifies this, buffer
      ensures position <= |data|
      ensures buffer.Length == 0 ==> n == 0 && position == old(position)
      ensures old(position) == |data| && buffer.Length > 0 ==> n == -1 && position == old(position)
      ensures old(position) < |data| && buffer.Length > 0 ==>
        && 0 < n <= buffer.Length
        && position == old(position) + n
        && buffer[..n] == data[old(position)..position]
    {
      if buffer.Length == 0 {
        return 0;
      }
      if position == |data| {
        return -1;
      }
      var left := |data| - position;
      n :| 0 < n <= buffer.Length && n <= left;
      var from := position;
      var k := 0;
      while k < n
        invariant 0 <= k <= n
        invariant buffer[..k] == data[from..from + k]
        modifies buffer
      {
        buffer[k] := data[from + k];
        k := k + 1;
      }
      position := from + n;
    }
  }

  /** An open `FileOutputStream`: what has been written so far. */
  class OutputStream {
    var written: seq<byte>

    /** Opening creates or truncates the file. */
    constructor()
      ensures written == []
    {
      written := [];
    }

    /** `write(buffer, 0, length)`. */
    method Write(buffer: array<byte>, length: nat)
      requires length <= buffer.Length
      modifies this
      ensures written == old(written) + buffer[..length]
    {
      written := written + buffer[..length];
    }
  }

  /** The read/write loop: everything left in the input ends up, in order, in the output. */
  method Transfer(input: InputStream, output: OutputStream)
    requires input != output as object
    requires input.position <= |input.data|
    modifies input, output
    ensures output.written == old(output.written) + input.data[old(input.position)..]
    ensures input.position == |input.data|
  {
    var buffer := new byte[NumBytes];
    ghost var start := input.position;
    ghost var done := start;
    var length := input.Read(buffer);
    while length > 0
      invariant start <= done <= input.position <= |input.data|
      invariant output.written == old(output.written) + input.data[start..done]
      invariant length > 0 ==> done + length == input.position && length <= buffer.Length
                               && buffer[..length] == input.data[done..input.position]
      invariant length <= 0 ==> done == input.position == |input.data|
      decreases |input.data| - done
    {
      output.Write(buffer, length);
      assert input.data[start..done] + input.data[done..input.position] == input.data[start..input.position];
      done := input.position;
      length := input.Read(buffer);
    }
  }
}
