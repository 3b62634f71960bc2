/**
 The default Writer composition: writeUint16/32/64 emit bytes through writeByte,
 high part first. Each byte passes through the Buffer store, which keeps its low
 8 bits; for a non-negative argument those bits are the same whether the shift is
 JavaScript's 32-bit `>>` or exact division, so the model uses exact division.
 Functions here return the bytes handed to writeByte, in order.
 */
module Writing {
  import opened Errors
  import opened Bytes
  import opened Reading

  /** Writer.prototype.writeUint16: the low two bytes of v, big-endian. */
  function WriteUint16(v: nat): (r: seq<byte>)
    ensures |r| == 2 && BeValue(r) == v % Two16
  {
    var r := [Store(v / 256), Store(v % 256)];
    BeValue2(r);
    SplitMod(v, 256, 256);
    r
  }

  /** Writer.prototype.writeUint32: the low four bytes of v, big-endian. */
  function WriteUint32(v: nat): (r: seq<byte>)
    ensures |r| == 4 && BeValue(r) == v % Two32
  {
    assert Two16 * Two16 == Two32;
    var hi, lo := WriteUint16(v / Two16), WriteUint16(v % Two16);
    Halves(v, Two16, hi, lo);
    hi + lo
  }

  /** Writer.prototype.writeUint64: the low eight bytes of v, big-endian. */
  function WriteUint64(v: nat): (r: seq<byte>)
    ensures |r| == 8 && BeValue(r) == v % Two64
  {
    assert Two32 * Two32 == Two64;
    var hi, lo := WriteUint32(v / Two32), WriteUint32(v % Two32);
    Halves(v, Two32, hi, lo);
    hi + lo
  }

  /** Two n-byte halves holding the digits of v base k = 256^n hold v modulo k * k. */
  lemma Halves(v: nat, k: nat, hi: seq<byte>, lo: seq<byte>)
    requires (k == Two16 && |lo| == 2) || (k == Two32 && |lo| == 4)
    requires BeValue(hi) == v / k % k && BeValue(lo) == v % k % k
    ensures BeValue(hi + lo) == v % (k * k)
  {
    Pow256Values();
    BeValueAppend(hi, lo);
    assert Pow256(|lo|) == k;
    ModBelow(v % k, k);
    SplitMod(v, k, k);
  }

  /** The bytes at the cursor after skipping a prefix are the written ones. */
  lemma NextAfter(pre: seq<byte>, s: seq<byte>, rest: seq<byte>)
    ensures BufferReader(pre + s + rest, |pre|).Has(|s|)
    ensures BufferReader(pre + s + rest, |pre|).Next(|s|) == s
  {
    assert (pre + s + rest)[|pre|..|pre| + |s|] == s;
  }

  /** writeUint16 then readUint16 gives back v modulo 2^16, advancing by 2. */
  lemma {:induction false} WriteReadUint16(v: nat, pre: seq<byte>, rest: seq<byte>)
    ensures var buf := pre + WriteUint16(v) + rest;
      ReadUint16(BufferReader(buf, |pre|)) == Ok((v % Two16, BufferReader(buf, |pre| + 2)))
  {
    NextAfter(pre, WriteUint16(v), rest);
  }

  /** writeUint32 then readUint32 gives back v modulo 2^32, advancing by 4. */
  lemma {:induction false} WriteReadUint32(v: nat, pre: seq<byte>, rest: seq<byte>)
    ensures var buf := pre + WriteUint32(v) + rest;
      ReadUint32(BufferReader(buf, |pre|)) == Ok((v % Two32, BufferReader(buf, |pre| + 4)))
  {
    NextAfter(pre, WriteUint32(v), rest);
  }

  /** writeUint64 then readUint64 gives back v modulo 2^64, advancing by 8. */
  lemma {:induction false} WriteReadUint64(v: nat, pre: seq<byte>, rest: seq<byte>)
    ensures var buf := pre + WriteUint64(v) + rest;
      ReadUint64(BufferReader(buf, |pre|)) == Ok((v % Two64, BufferReader(buf, |pre| + 8)))
  {
    NextAfter(pre, WriteUint64(v), rest);
  }
}
