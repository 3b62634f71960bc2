/**
 The reading side of the byte stream: a BufferReader is a borrowed buffer plus a
 cursor. The default Reader composes 16-, 32- and 64-bit reads out of single-byte
 reads; BufferReader overrides the 16- and 32-bit reads with direct big-endian reads
 of its buffer and keeps the default 64-bit composition on top of them.
 */
module Reading {
  import opened Errors
  import opened Bytes

  datatype BufferReader = BufferReader(buffer: seq<byte>, pos: nat) {

    /** At least n bytes remain after the cursor. */
    predicate Has(n: nat) {
      pos + n <= |buffer|
    }

    function Skip(n: nat): BufferReader {
      this.(pos := pos + n)
    }

    /** The n bytes after the cursor. */
    function Next(n: nat): seq<byte>
      requires Has(n)
    {
      buffer[pos..pos + n]
    }
  }

  /** The byte at the cursor, without moving it. */
  function PeekByte(r: BufferReader): (res: Result<byte>)
    ensures res.Ok? <==> r.Has(1)
    ensures res.Ok? ==> [res.value] == r.Next(1)
  {
    if r.pos < |r.buffer| then Ok(r.buffer[r.pos]) else Err(Truncated)
  }

  /** The byte at the cursor; the cursor moves past it. */
  function ReadByte(r: BufferReader): (res: Result<(byte, BufferReader)>)
    ensures res.Ok? <==> r.Has(1)
    ensures res.Ok? ==> [res.value.0] == r.Next(1) && res.value.1 == r.Skip(1)
    ensures PeekByte(r).Ok? <==> res.Ok?
    ensures res.Ok? ==> PeekByte(r).value == res.value.0
  {
    if r.pos < |r.buffer| then Ok((r.buffer[r.pos], r.Skip(1))) else Err(Truncated)
  }

  /** A copy of the next n bytes; the cursor moves past them. */
  function ReadChunk(r: BufferReader, n: nat): (res: Result<(seq<byte>, BufferReader)>)
    ensures res.Ok? <==> r.Has(n)
    ensures res.Ok? ==> |res.value.0| == n && res.value.1 == r.Skip(n)
    ensures res.Ok? ==> r.buffer == r.buffer[..r.pos] + res.value.0 + r.buffer[r.pos + n..]
  {
    if r.pos + n <= |r.buffer| then Ok((r.buffer[r.pos..r.pos + n], r.Skip(n))) else Err(Truncated)
  }

  lemma BeValue2(s: seq<byte>)
    requires |s| == 2
    ensures BeValue(s) == (s[0] as int) * 256 + s[1]
  {
    assert s[..1][..0] == [];
    assert BeValue(s[..1]) == s[0];
  }

  lemma BeValueHalves(s: seq<byte>, n: nat)
    requires |s| == 2 * n
    ensures BeValue(s) == BeValue(s[..n]) * Pow256(n) + BeValue(s[n..])
  {
    assert s == s[..n] + s[n..];
    BeValueAppend(s[..n], s[n..]);
  }

  /** Reader.prototype.readUint16: two readByte calls, high byte first. */
  function DefaultReadUint16(r: BufferReader): (res: Result<(nat, BufferReader)>)
    ensures res.Ok? <==> r.Has(2)
    ensures res.Ok? ==> res.value == (BeValue(r.Next(2)), r.Skip(2))
  {
    var hi :- ReadByte(r);
    var lo :- ReadByte(hi.1);
    BeValue2(r.Next(2));
    Ok((hi.0 * 256 + lo.0, lo.1))
  }

  /** Reader.prototype.readUint32: two 16-bit reads, high half first. */
  function DefaultReadUint32(r: BufferReader): (res: Result<(nat, BufferReader)>)
    ensures res.Ok? <==> r.Has(4)
    ensures res.Ok? ==> res.value == (BeValue(r.Next(4)), r.Skip(4))
  {
    var hi :- DefaultReadUint16(r);
    var lo :- DefaultReadUint16(hi.1);
    var s := r.Next(4);
    assert s[..2] == r.Next(2) && s[2..] == hi.1.Next(2);
    BeValueHalves(s, 2);
    assert Pow256(2) == Two16 by { Pow256Values(); }
    assert BeValue(s) == hi.0 * Two16 + lo.0;
    Ok((hi.0 * Two16 + lo.0, lo.1))
  }

  /** Reader.prototype.readUint64: two 32-bit reads, high half first. */
  function DefaultReadUint64(r: BufferReader): (res: Result<(nat, BufferReader)>)
    ensures res.Ok? <==> r.Has(8)
    ensures res.Ok? ==> res.value == (BeValue(r.Next(8)), r.Skip(8))
  {
    var hi :- DefaultReadUint32(r);
    var lo :- DefaultReadUint32(hi.1);
    var s := r.Next(8);
    assert s[..4] == r.Next(4) && s[4..] == hi.1.Next(4);
    BeValueHalves(s, 4);
    assert Pow256(4) == Two32 by { Pow256Values(); }
    assert BeValue(s) == hi.0 * Two32 + lo.0;
    Ok((hi.0 * Two32 + lo.0, lo.1))
  }

  /** BufferReader.readUint16: a direct big-endian read at the cursor (Buffer.readUInt16BE). */
  function ReadUint16(r: BufferReader): (res: Result<(nat, BufferReader)>)
    ensures res == DefaultReadUint16(r)
  {
    if r.pos + 2 <= |r.buffer| then
      BeValue2(r.Next(2));
      Ok(((r.buffer[r.pos] as int) * 256 + r.buffer[r.pos + 1], r.Skip(2)))
    else
      Err(Truncated)
  }

  /** BufferReader.readUint32: a direct big-endian read at the cursor (Buffer.readUInt32BE). */
  function ReadUint32(r: BufferReader): (res: Result<(nat, BufferReader)>)
    ensures res == DefaultReadUint32(r)
  {
    if r.pos + 4 <= |r.buffer| then
      var b := r.buffer;
      var p := r.pos;
      var s := r.Next(4);
      BeValueHalves(s, 2);
      BeValue2(s[..2]);
      BeValue2(s[2..]);
      Pow256Values();
      Ok(((b[p] as int) * 16777216 + (b[p + 1] as int) * 65536 + (b[p + 2] as int) * 256 + b[p + 3], r.Skip(4)))
    else
      Err(Truncated)
  }

  /** BufferReader.readUint64: the default composition, over the overridden 32-bit reads. */
  function ReadUint64(r: BufferReader): (res: Result<(nat, BufferReader)>)
    ensures res == DefaultReadUint64(r)
  {
    var hi :- ReadUint32(r);
    var lo :- ReadUint32(hi.1);
    Ok((hi.0 * Two32 + lo.0, lo.1))
  }
}
