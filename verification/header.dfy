/**
 The header codec of RFC 8949 section 3: the initial byte holds the major type in
 its top 3 bits and the additional information in its low 5 bits. Additional
 information 0-23 is the argument itself; 24, 25, 26 and 27 announce a 1-, 2-, 4-
 or 8-byte big-endian argument; 31 marks an indefinite length
 (RFC 8949 section 3.2); 28-30 are reserved.
 */
module Headers {
  import opened Errors
  import opened Bytes
  import opened Reading
  import opened Writing

  type MajorType = t: nat | t < 8

  /** A decoded header; `value` is None for the indefinite marker. */
  datatype Header = Header(majorType: MajorType, value: Option<nat>)

  /** The number of argument bytes after an initial byte with additional information ai. */
  function ArgumentWidth(ai: nat): nat {
    if ai == 24 then 1 else if ai == 25 then 2 else if ai == 26 then 4 else if ai == 27 then 8 else 0
  }

  /** The arguments additional information 24-27 can carry are those below Limit(ai). */
  function Limit(ai: nat): nat {
    if ai == 24 then 256 else if ai == 25 then Two16 else if ai == 26 then Two32 else Two64
  }

  /** Additional information ai can carry the argument v. */
  predicate Fits(ai: nat, v: nat) {
    || (ai < 24 && v == ai)
    || (24 <= ai <= 27 && v < Limit(ai))
  }

  lemma SingleByte(b: byte)
    ensures BeValue([b]) == b
  {
    assert [b][..0] == [];
  }

  /**
   writeHeader: the major type in the top bits and the shortest additional
   information that carries v (preferred serialization, RFC 8949 section 4.1).
   Arguments of 2^64 or more keep their low 64 bits, as writeUint64 does.
   */
  function WriteHeader(t: MajorType, v: nat): (r: seq<byte>)
    ensures 0 < |r| && r[0] / 32 == t && r[0] % 32 < 28
    ensures |r| == 1 + ArgumentWidth(r[0] % 32)
    ensures r[0] % 32 < 24 ==> r[0] % 32 == v
    ensures r[0] % 32 >= 24 ==> BeValue(r[1..]) == v % Two64
    ensures Fits(r[0] % 32, v % Two64)
    ensures forall ai :: Fits(ai, v) ==> |r| <= 1 + ArgumentWidth(ai)
  {
    var first := t * 32;
    if v < 24 then
      [first + v]
    else if v < 256 then
      ModBelow(v, Two64);
      SingleByte(Store(v));
      [first + 24, Store(v)]
    else if v < Two16 then
      ModBelow(v, Two16);
      ModBelow(v, Two64);
      var arg := WriteUint16(v);
      assert ([first + 25] + arg)[1..] == arg;
      [first + 25] + arg
    else if v < Two32 then
      ModBelow(v, Two32);
      ModBelow(v, Two64);
      var arg := WriteUint32(v);
      assert ([first + 26] + arg)[1..] == arg;
      [first + 26] + arg
    else
      var arg := WriteUint64(v);
      assert ([first + 27] + arg)[1..] == arg;
      [first + 27] + arg
  }

  /**
   readHeader: split the initial byte, then read the argument the additional
   information announces (1 byte, or the reader's 16-, 32- or 64-bit read).
   Additional information 31 gives no value and consumes one byte; 28-30 throw.
   */
  function ReadHeader(r: BufferReader): (res: Result<(Header, BufferReader)>)
    ensures !r.Has(1) ==> res == Err(Truncated)
    ensures r.Has(1) && 28 <= r.buffer[r.pos] % 32 <= 30 ==> res == Err(NotImplemented)
    ensures r.Has(1) && r.buffer[r.pos] % 32 == 31 ==>
      res == Ok((Header(r.buffer[r.pos] / 32, None), r.Skip(1)))
    ensures r.Has(1) && r.buffer[r.pos] % 32 < 28 ==>
      var ai := r.buffer[r.pos] % 32;
      var w := ArgumentWidth(ai);
      && (res.Ok? <==> r.Has(1 + w))
      && (res.Ok? ==> res.value.1 == r.Skip(1 + w))
      && (res.Ok? ==> res.value.0 == Header(r.buffer[r.pos] / 32,
            Some(if ai < 24 then ai else BeValue(r.Skip(1).Next(w)))))
    ensures res.Ok? && res.value.0.value.Some? ==> res.value.0.value.value < Two64
  {
    var first :- ReadByte(r);
    var b, r1 := first.0, first.1;
    var t, ai := b / 32, b % 32;
    if ai < 24 then
      Ok((Header(t, Some(ai)), r1))
    else if ai == 24 then
      var arg :- ReadByte(r1);
      assert BeValue(r1.Next(1)) == arg.0 by {
        assert r1.Next(1)[..0] == [];
      }
      Ok((Header(t, Some(arg.0)), arg.1))
    else if ai == 25 then
      var arg :- ReadUint16(r1);
      ArgumentBound(r1.Next(2));
      Ok((Header(t, Some(arg.0)), arg.1))
    else if ai == 26 then
      var arg :- ReadUint32(r1);
      ArgumentBound(r1.Next(4));
      Ok((Header(t, Some(arg.0)), arg.1))
    else if ai == 27 then
      var arg :- ReadUint64(r1);
      ArgumentBound(r1.Next(8));
      Ok((Header(t, Some(arg.0)), arg.1))
    else if ai == 31 then
      Ok((Header(t, None), r1))
    else
      Err(NotImplemented)
  }

  /** An argument of at most 8 bytes is below 2^64. */
  lemma ArgumentBound(s: seq<byte>)
    requires |s| == 2 || |s| == 4 || |s| == 8
    ensures BeValue(s) < Two64
  {
    BeValueBound(s);
    Pow256Values();
    assert Pow256(|s|) <= Two64;
  }

  /**
   Reading back a written header, wherever it sits in the buffer, gives the major
   type and the argument (modulo 2^64) and moves the cursor past exactly the
   bytes written.
   */
  lemma {:induction false} HeaderRoundTrip(t: MajorType, v: nat, pre: seq<byte>, rest: seq<byte>)
    ensures var h := WriteHeader(t, v);
      var buf := pre + h + rest;
      ReadHeader(BufferReader(buf, |pre|)) == Ok((Header(t, Some(v % Two64)), BufferReader(buf, |pre| + |h|)))
  {
    var h := WriteHeader(t, v);
    NextAfter(pre, h, rest);
    ReadWellFormed(BufferReader(pre + h + rest, |pre|), h);
  }

  /** readHeader of bytes that start with a complete header of additional information below 28. */
  lemma ReadWellFormed(r: BufferReader, h: seq<byte>)
    requires 0 < |h| && h[0] % 32 < 28 && |h| == 1 + ArgumentWidth(h[0] % 32)
    requires r.Has(|h|) && r.Next(|h|) == h
    ensures ReadHeader(r) ==
      Ok((Header(h[0] / 32, Some(if h[0] % 32 < 24 then h[0] % 32 else BeValue(h[1..]))), r.Skip(|h|)))
  {
    assert r.buffer[r.pos] == h[0];
    assert r.Skip(1).Next(|h| - 1) == h[1..];
  }

  /** For arguments below 2^64 the round trip is exact. */
  lemma HeaderRoundTripExact(t: MajorType, v: nat)
    requires v < Two64
    ensures ReadHeader(BufferReader(WriteHeader(t, v), 0))
      == Ok((Header(t, Some(v)), BufferReader(WriteHeader(t, v), |WriteHeader(t, v)|)))
  {
    var h := WriteHeader(t, v);
    ModBelow(v, Two64);
    HeaderRoundTrip(t, v, [], []);
    assert [] + h + [] == h;
  }

  /** The header length by argument range: 1, 2, 3, 5 or 9 bytes. */
  lemma HeaderLength(t: MajorType, v: nat)
    ensures |WriteHeader(t, v)| ==
      if v < 24 then 1 else if v < 256 then 2 else if v < Two16 then 3 else if v < Two32 then 5 else 9
  {
    assert Fits(24, v) <==> v < 256;
    assert Fits(25, v) <==> v < Two16;
    assert Fits(26, v) <==> v < Two32;
  }
}
