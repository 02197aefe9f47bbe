/** A model of the C library FILE stream that bmp.c reads and writes: the
    file's bytes and the file position indicator. fread (Read) stops short at
    end of file; fseek (Seek) fails only on a stream that cannot seek; fwrite
    (Write) stops short when the device holds no more than `limit` bytes.
    Writing after a seek beyond end of file leaves a hole whose bytes this
    model does not fix. */
module Streams {
  import opened BmpFormat

  function Min(a: int, b: int): int { if a <= b then a else b }
  function Max(a: int, b: int): int { if a <= b then b else a }

  /** The bytes a read of n bytes at position `start` delivers. */
  function Window(data: seq<Byte>, start: nat, n: nat): (r: seq<Byte>)
    ensures |r| == (if start < |data| then Min(n, |data| - start) else 0)
    ensures start + n <= |data| ==> r == data[start..start + n]
    ensures start < |data| ==> r == data[start..start + |r|]
  {
    if start < |data| then data[start..Min(start + n, |data|)] else []
  }

  /** The number of bytes a write of n bytes at position `pos` gets onto a device of `limit` bytes. */
  function Room(pos: nat, limit: nat, n: nat): (k: nat)
    ensures k <= n && (k > 0 ==> pos + k <= limit)
    ensures pos + n <= limit ==> k == n
  {
    if pos < limit then Min(n, limit - pos) else 0
  }

  class Stream {
    var data: seq<Byte>
    var pos: nat
    const seekable: bool
    const limit: nat

    /** A stream opened at the start of a file holding `contents`. */
    constructor Open(contents: seq<Byte>, canSeek: bool, capacity: nat)
      ensures data == contents && pos == 0 && seekable == canSeek && limit == capacity
    {
      data, pos, seekable, limit := contents, 0, canSeek, capacity;
    }

    /** fopen with mode "wb": the file is truncated to length zero. */
    method Truncate()
      modifies this
      ensures data == [] && pos == 0
    {
      data, pos := [], 0;
    }

    /** fread of n bytes: what is left of the file, at most n bytes. */
    method Read(n: nat) returns (bytes: seq<Byte>)
      modifies this`pos
      ensures bytes == Window(data, old(pos), n)
      ensures pos == old(pos) + |bytes|
    {
      bytes := Window(data, pos, n);
      pos := pos + |bytes|;
    }

    /** fseek(stream, offset, SEEK_SET). */
    method Seek(offset: nat) returns (ok: bool)
      modifies this`pos
      ensures ok == seekable
      ensures pos == if ok then offset else old(pos)
    {
      ok := seekable;
      if ok {
        pos := offset;
      }
    }

    /** fwrite of `bytes` at the current position. */
    method Write(bytes: seq<Byte>) returns (written: nat)
      modifies this`data, this`pos
      ensures written == Room(old(pos), limit, |bytes|)
      ensures pos == old(pos) + written
      ensures |data| == if written == 0 then |old(data)| else Max(|old(data)|, old(pos) + written)
      ensures written > 0 ==> data[old(pos)..old(pos) + written] == bytes[..written]
      ensures forall i | 0 <= i < |old(data)| && !(old(pos) <= i < old(pos) + written) ::
        data[i] == old(data)[i]
    {
      written := Room(pos, limit, |bytes|);
      if written > 0 {
        var chunk := bytes[..written];
        if pos <= |data| {
          var tail := if pos + written < |data| then data[pos + written..] else [];
          data := data[..pos] + chunk + tail;
        } else {
          // The bytes of the hole are left open; `filler` only shows that
          // a hole of the right length exists.
          var filler := seq(pos - |data|, _ => 0);
          var hole: seq<Byte> :| |hole| == |filler|;
          data := data + hole + chunk;
        }
        pos := pos + written;
      }
    }
  }
}
