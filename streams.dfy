/** The chunked copy loops of the backup manager. Both use a 1024-byte
    buffer. The archiving loop writes the `len` bytes each read returned;
    the restoring loop writes the whole buffer after every read, so the
    tail of the last chunk is whatever the buffer held before. */
module Streams {
  import opened FileSystems

  const BufferSize: nat := 1024

  function Min(a: int, b: int): int
  {
    if a < b then a else b
  }

  /** The archiving loop `while ((len = in.read(buffer, 0, buffer.length)) > 0)
      out.write(buffer, 0, len)`. A read may return any number of bytes
      from one up to a full buffer; whatever they are, the entry receives
      exactly the file's bytes. */
  method CopyIntoEntry(data: Bytes) returns (written: Bytes)
    ensures written == data
  {
    var buffer := new byte[BufferSize](_ => 0);
    var pos := 0;
    written := [];
    while pos < |data|
      invariant 0 <= pos <= |data|
      invariant written == data[..pos]
      invariant buffer.Length == BufferSize
    {
      var len: nat :| 0 < len && len <= Min(BufferSize, |data| - pos);
      assert len <= Min(BufferSize, |data| - pos);
      forall i | 0 <= i < len {
        buffer[i] := data[pos + i];
      }
      assert buffer[..len] == data[pos..pos + len];
      written := written + buffer[..len];
      pos := pos + len;
    }
  }

  /** The buffer after one read of `n` bytes of `data`. */
  function Refill(data: Bytes, buf: Bytes, n: nat): (r: Bytes)
    requires |buf| == BufferSize && n <= |data| && n <= BufferSize
    ensures |r| == BufferSize
  {
    data[..n] + buf[n..]
  }

  /** What the restoring loop writes for an entry whose bytes are `data`
      when the buffer holds `buf` before the first read: each read fills
      the buffer, or as much of it as remains, and the whole buffer is
      written after it. */
  function Padded(data: Bytes, buf: Bytes): Bytes
    requires |buf| == BufferSize
    decreases |data|
  {
    if data == [] then []
    else
      var n := Min(BufferSize, |data|);
      var next := Refill(data, buf, n);
      next + Padded(data[n..], next)
  }

  /** The buffer after the restoring loop has consumed `data`. */
  function BufferAfter(data: Bytes, buf: Bytes): (r: Bytes)
    requires |buf| == BufferSize
    ensures |r| == BufferSize
    decreases |data|
  {
    if data == [] then buf
    else
      var n := Min(BufferSize, |data|);
      BufferAfter(data[n..], Refill(data, buf, n))
  }

  /** The restoring loop `while ((len = in.read(buffer, 0, buffer.length)) > 0)
      out.write(buffer, 0, buffer.length)`, with reads that fill the buffer
      whenever enough bytes remain. The buffer is shared by all entries. */
  method WriteEntry(buffer: array<byte>, data: Bytes) returns (written: Bytes)
    requires buffer.Length == BufferSize
    modifies buffer
    ensures written == Padded(data, old(buffer[..]))
    ensures buffer[..] == BufferAfter(data, old(buffer[..]))
  {
    var pos := 0;
    written := [];
    while pos < |data|
      invariant 0 <= pos <= |data|
      invariant written + Padded(data[pos..], buffer[..]) == Padded(data, old(buffer[..]))
      invariant BufferAfter(data[pos..], buffer[..]) == BufferAfter(data, old(buffer[..]))
    {
      ghost var rest, before := data[pos..], buffer[..];
      var len := ReadChunk(buffer, data, pos);
      assert Padded(rest, before) == buffer[..] + Padded(rest[len..], buffer[..]);
      assert rest[len..] == data[pos + len..];
      written := written + buffer[..];
      pos := pos + len;
    }
  }

  /** One `read(buffer, 0, buffer.length)` from position `pos` of `data`:
      as many bytes as fit or remain are copied to the front of the buffer. */
  method ReadChunk(buffer: array<byte>, data: Bytes, pos: nat) returns (len: nat)
    requires buffer.Length == BufferSize && pos < |data|
    modifies buffer
    ensures len == Min(BufferSize, |data| - pos) && len > 0
    ensures buffer[..] == Refill(data[pos..], old(buffer[..]), len)
  {
    len := Min(BufferSize, |data| - pos);
    forall i | 0 <= i < len {
      buffer[i] := data[pos + i];
    }
    ghost var next := Refill(data[pos..], old(buffer[..]), len);
    forall i | 0 <= i < BufferSize ensures buffer[i] == next[i] {
      if i < len {
        assert next[i] == data[pos..][i];
      } else {
        assert next[i] == old(buffer[..])[i];
      }
    }
  }

  /** The restored bytes start with the entry's bytes. */
  lemma {:induction false} PaddedPrefix(data: Bytes, buf: Bytes)
    requires |buf| == BufferSize
    ensures |data| <= |Padded(data, buf)|
    ensures Padded(data, buf)[..|data|] == data
    decreases |data|
  {
    if data != [] {
      var n := Min(BufferSize, |data|);
      var next := Refill(data, buf, n);
      PaddedPrefix(data[n..], next);
      if n == |data| {
        assert data[n..] == [];
      } else {
        assert data == next[..n] + data[n..];
      }
    }
  }

  /** The restored length is the entry's length rounded up to whole buffers. */
  lemma {:induction false} PaddedLength(data: Bytes, buf: Bytes)
    requires |buf| == BufferSize
    ensures |Padded(data, buf)| % BufferSize == 0
    ensures |data| <= |Padded(data, buf)| < |data| + BufferSize
    decreases |data|
  {
    if data != [] {
      var n := Min(BufferSize, |data|);
      PaddedLength(data[n..], Refill(data, buf, n));
    }
  }

  /** The restored bytes equal the entry's bytes exactly when its length
      is a whole number of buffers. */
  lemma {:induction false} PaddedExact(data: Bytes, buf: Bytes)
    requires |buf| == BufferSize
    ensures Padded(data, buf) == data <==> |data| % BufferSize == 0
    decreases |data|
  {
    PaddedLength(data, buf);
    if data != [] && |data| % BufferSize == 0 {
      var n := Min(BufferSize, |data|);
      assert n == BufferSize;
      var next := Refill(data, buf, n);
      assert next == data[..n];
      PaddedExact(data[n..], next);
      assert data == data[..n] + data[n..];
    }
  }

  /** An entry shorter than the buffer is restored followed by the stale
      bytes the buffer held before, e.g. a previous entry's bytes. */
  lemma PaddedShort(data: Bytes, buf: Bytes)
    requires |buf| == BufferSize && 0 < |data| < BufferSize
    ensures Padded(data, buf) == data + buf[|data|..]
  {
    var next := Refill(data, buf, |data|);
    assert data[|data|..] == [];
    assert Padded(data, buf) == next + Padded([], next);
  }
}
