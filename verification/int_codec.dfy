/**
 The value codec for major types 0 and 1 and the top-level encode/decode entry
 points. A non-negative integer n is written as header (0, n); a negative n as
 header (1, -1 - n). Every other value is not implemented, except that the
 infinities pass the integer test `Math.floor(data) === data` as well.

 As written, decodeReader returns the header's null value for additional
 information 31 under major type 0, and -1 - null, which JavaScript evaluates to
 -1, under major type 1 (DecodeReaderAsWritten). DecodeReader rejects both as
 Malformed, as RFC 8949 section 3.2.4 requires, and is the decoder the rest of the
 model uses.
 */
module Codec {
  import opened Errors
  import opened Bytes
  import opened Reading
  import opened Headers
  import Streams

  /**
   The JavaScript values encode can be given, as far as the codec distinguishes
   them: whole finite numbers, the two infinities, other numbers (fractions and
   NaN), and non-numbers.
   */
  datatype Data = Integer(n: int) | Infinite(negative: bool) | NonIntegerNumber | NonNumber

  /** The values encodeWriter writes under major type 1. */
  predicate Negative(d: Data) {
    (d.Integer? && d.n < 0) || (d.Infinite? && d.negative)
  }

  /**
   writeHeader(t, Infinity): additional information 27, then writeUint64(Infinity).
   Math.floor(Infinity / 2^32) is Infinity and Infinity % 2^32 is NaN; both become
   0 under `>>` and `&`, so the eight argument bytes are all zero.
   */
  function InfiniteHeader(t: MajorType): (r: seq<byte>)
    ensures |r| == 9 && r[0] / 32 == t && r[0] % 32 == 27
    ensures BeValue(r[1..]) == 0
  {
    var r := [t * 32 + 27] + seq(8, _ => 0);
    ZerosValue(r[1..]);
    r
  }

  lemma {:induction false} ZerosValue(s: seq<byte>)
    requires forall i :: 0 <= i < |s| ==> s[i] == 0
    ensures BeValue(s) == 0
  {
    if |s| > 0 {
      ZerosValue(s[..|s| - 1]);
    }
  }

  /** What decodeReader returns as written: a number, or null. */
  datatype JsValue = Number(n: int) | Null

  /** The integer n reads back as after its magnitude is truncated to 64 bits. */
  function Wrap64(n: int): int {
    if n >= 0 then n % Two64 else -1 - (-1 - n) % Two64
  }

  /** encodeWriter: the bytes written for d, or the throw for a value it does not handle. */
  function EncodeWriter(d: Data): (res: Result<seq<byte>>)
    ensures res.Ok? <==> d.Integer? || d.Infinite?
    ensures res.Err? ==> res.error == NotImplemented
    ensures res.Ok? ==> |res.value| > 0 && res.value[0] % 32 < 28
    ensures res.Ok? ==> (res.value[0] / 32 == 1 <==> Negative(d)) && res.value[0] / 32 <= 1
  {
    match d
    case Integer(n) =>
      if n < 0 then Ok(WriteHeader(1, -1 - n)) else Ok(WriteHeader(0, n))
    case Infinite(negative) =>
      if negative then Ok(InfiniteHeader(1)) else Ok(InfiniteHeader(0))
    case _ => Err(NotImplemented)
  }

  /**
   decodeReader: read a header; major type 0 gives its argument, major type 1 gives
   -1 minus its argument; a missing argument is Malformed; other major types throw.
   */
  function DecodeReader(r: BufferReader): (res: Result<(int, BufferReader)>)
    ensures res.Ok? ==> r.Has(1) && r.buffer[r.pos] / 32 <= 1 && r.buffer[r.pos] % 32 < 28
    ensures res.Ok? ==> (res.value.0 < 0 <==> r.buffer[r.pos] / 32 == 1)
    ensures res.Ok? ==> res.value.1.buffer == r.buffer && res.value.1.pos > r.pos
    ensures r.Has(1) && r.buffer[r.pos] % 32 == 31 ==> res.Err?
    ensures r.Has(1) && r.buffer[r.pos] / 32 >= 2 ==> res.Err?
    ensures res.Ok? ==> -(Two64 as int) <= res.value.0 < Two64
  {
    var h :- ReadHeader(r);
    var header, rest := h.0, h.1;
    if header.majorType >= 2 then Err(NotImplemented)
    else if header.value.None? then Err(Malformed)
    else if header.majorType == 0 then Ok((header.value.value, rest))
    else Ok((-1 - header.value.value, rest))
  }

  /** decodeReader as written: additional information 31 yields null or -1. */
  function DecodeReaderAsWritten(r: BufferReader): (res: Result<(JsValue, BufferReader)>)
    ensures DecodeReader(r).Ok? ==> res == Ok((Number(DecodeReader(r).value.0), DecodeReader(r).value.1))
    ensures r.Has(1) && r.buffer[r.pos] % 32 == 31 && r.buffer[r.pos] / 32 <= 1 ==>
      res == Ok((if r.buffer[r.pos] / 32 == 0 then Null else Number(-1), r.Skip(1)))
  {
    var h :- ReadHeader(r);
    var header, rest := h.0, h.1;
    if header.majorType == 0 then
      Ok((if header.value.None? then Null else Number(header.value.value), rest))
    else if header.majorType == 1 then
      Ok((Number(-1 - if header.value.None? then 0 else header.value.value), rest))
    else
      Err(NotImplemented)
  }

  /** decode: a reader at the start of the buffer; bytes after the value are ignored. */
  function Decode(buffer: seq<byte>): (res: Result<int>)
    ensures |buffer| == 0 ==> res == Err(Truncated)
    ensures res.Ok? ==> buffer[0] / 32 <= 1 && (res.value < 0 <==> buffer[0] / 32 == 1)
  {
    var v :- DecodeReader(BufferReader(buffer, 0));
    Ok(v.0)
  }

  /** decode as written: the corrected result where there is one, null or -1 for 0x1F and 0x3F. */
  function DecodeAsWritten(buffer: seq<byte>): (res: Result<JsValue>)
    ensures Decode(buffer).Ok? ==> res == Ok(Number(Decode(buffer).value))
    ensures |buffer| > 0 && buffer[0] == 0x1F ==> res == Ok(Null)
    ensures |buffer| > 0 && buffer[0] == 0x3F ==> res == Ok(Number(-1))
  {
    var v :- DecodeReaderAsWritten(BufferReader(buffer, 0));
    Ok(v.0)
  }

  /** encode: a fresh StreamWriter receives encodeWriter's bytes through writeByte, then result(). */
  method Encode(d: Data) returns (res: Result<seq<byte>>)
    ensures res == EncodeWriter(d)
    ensures d.Integer? && -(Two64 as int) <= d.n < Two64 ==> res.Ok? && Decode(res.value) == Ok(d.n)
  {
    if d.Integer? && -(Two64 as int) <= d.n < Two64 {
      IntegerRoundTrip(d.n);
    }
    var bytes :- EncodeWriter(d);
    var out := Transmit(bytes);
    res := Ok(out);
  }

  /** The bytes written one by one into a fresh StreamWriter come back unchanged from result(). */
  method Transmit(bytes: seq<byte>) returns (out: seq<byte>)
    ensures out == bytes
  {
    var w := Streams.New();
    var i := 0;
    while i < |bytes|
      invariant 0 <= i <= |bytes|
      invariant Streams.Valid(w) && Streams.Contents(w) == bytes[..i]
    {
      assert bytes[..i + 1] == bytes[..i] + [bytes[i]];
      w := Streams.WriteByte(w, bytes[i]);
      i := i + 1;
    }
    assert bytes[..i] == bytes;
    out := Streams.Result(w);
  }

  /**
   Decoding an encoded integer, followed by anything, gives the integer back with
   its magnitude truncated to 64 bits, and consumes exactly the encoding.
   */
  lemma {:induction false} EncodeDecode(n: int, rest: seq<byte>)
    ensures EncodeWriter(Integer(n)).Ok?
    ensures var b := EncodeWriter(Integer(n)).value;
      DecodeReader(BufferReader(b + rest, 0)) == Ok((Wrap64(n), BufferReader(b + rest, |b|)))
  {
    var t: MajorType := if n < 0 then 1 else 0;
    var m: nat := if n < 0 then -1 - n else n;
    var b := WriteHeader(t, m);
    IntegerHeader(n);
    assert EncodeWriter(Integer(n)).value == b;
    HeaderDecodes(t, m, rest);
    assert Wrap64(n) == if t == 0 then m % Two64 else -1 - m % Two64;
  }

  /** A header of major type 0 or 1, followed by anything, decodes to its truncated magnitude or -1 minus it. */
  lemma HeaderDecodes(t: MajorType, m: nat, rest: seq<byte>)
    requires t <= 1
    ensures var b := WriteHeader(t, m);
      DecodeReader(BufferReader(b + rest, 0)) ==
        Ok((if t == 0 then m % Two64 else -1 - m % Two64, BufferReader(b + rest, |b|)))
  {
    var b := WriteHeader(t, m);
    HeaderRoundTrip(t, m, [], rest);
    assert [] + b + rest == b + rest;
    DecodeFromHeader(BufferReader(b + rest, 0), t, m % Two64, BufferReader(b + rest, |b|));
  }

  /** An integer is written as the header of its major type and magnitude. */
  lemma IntegerHeader(n: int)
    ensures EncodeWriter(Integer(n)) ==
      Ok(WriteHeader(if n < 0 then 1 else 0, if n < 0 then -1 - n else n))
  {
  }

  /** What DecodeReader makes of a header of major type 0 or 1. */
  lemma DecodeFromHeader(r: BufferReader, t: MajorType, m: nat, r': BufferReader)
    requires t <= 1 && ReadHeader(r) == Ok((Header(t, Some(m)), r'))
    ensures DecodeReader(r) == Ok((if t == 0 then m else -1 - m, r'))
  {
  }

  /** decode(encode(n)) == n for every integer with -2^64 <= n < 2^64. */
  lemma IntegerRoundTrip(n: int)
    requires -(Two64 as int) <= n < Two64
    ensures EncodeWriter(Integer(n)).Ok?
    ensures Decode(EncodeWriter(Integer(n)).value) == Ok(n)
  {
    var b := EncodeWriter(Integer(n)).value;
    EncodeDecode(n, []);
    assert b + [] == b;
    ModBelow(if n < 0 then -1 - n else n, Two64);
  }

  /** The magnitude written under major type 1 is -1 - n; under major type 0 it is n. */
  lemma NegativeTransform(n: int)
    requires -(Two64 as int) <= n < Two64
    ensures var b := EncodeWriter(Integer(n)).value;
      ReadHeader(BufferReader(b, 0)).Ok? &&
      ReadHeader(BufferReader(b, 0)).value.0 ==
        if n < 0 then Header(1, Some(-1 - n)) else Header(0, Some(n))
  {
    var t: MajorType := if n < 0 then 1 else 0;
    var m: nat := if n < 0 then -1 - n else n;
    ModBelow(m, Two64);
    HeaderRoundTripExact(t, m);
  }

  /** Encoded sizes at the width boundaries, and two negative encodings. */
  lemma EncodeExamples()
    ensures EncodeWriter(Integer(-1)) == Ok([0x20])
    ensures EncodeWriter(Integer(-256)) == Ok([0x38, 0xFF])
    ensures |EncodeWriter(Integer(23)).value| == 1 && |EncodeWriter(Integer(24)).value| == 2
    ensures |EncodeWriter(Integer(255)).value| == 2 && |EncodeWriter(Integer(256)).value| == 3
    ensures |EncodeWriter(Integer(65535)).value| == 3 && |EncodeWriter(Integer(65536)).value| == 5
    ensures |EncodeWriter(Integer(4294967295)).value| == 5
    ensures |EncodeWriter(Integer(4294967296)).value| == 9
  {
    HeaderLength(0, 23);
    HeaderLength(0, 24);
    HeaderLength(0, 255);
    HeaderLength(0, 256);
    HeaderLength(0, 65535);
    HeaderLength(0, 65536);
    HeaderLength(0, 4294967295);
    HeaderLength(0, 4294967296);
  }

  /**
   The infinities are encoded as written: +Infinity as 0x1B and -Infinity as 0x3B,
   each with eight zero argument bytes, so they decode to 0 and to -1.
   */
  lemma InfinityAsWritten()
    ensures EncodeWriter(Infinite(false)) == Ok([0x1B, 0, 0, 0, 0, 0, 0, 0, 0])
    ensures EncodeWriter(Infinite(true)) == Ok([0x3B, 0, 0, 0, 0, 0, 0, 0, 0])
    ensures Decode(EncodeWriter(Infinite(false)).value) == Ok(0)
    ensures Decode(EncodeWriter(Infinite(true)).value) == Ok(-1)
  {
    var pos, neg := InfiniteHeader(0), InfiniteHeader(1);
    assert pos == [0x1B, 0, 0, 0, 0, 0, 0, 0, 0];
    assert neg == [0x3B, 0, 0, 0, 0, 0, 0, 0, 0];
    InfiniteDecodes(0);
    InfiniteDecodes(1);
  }

  lemma InfiniteDecodes(t: MajorType)
    requires t <= 1
    ensures Decode(InfiniteHeader(t)) == Ok(if t == 0 then 0 else -1)
  {
    var h := InfiniteHeader(t);
    var r := BufferReader(h, 0);
    assert r.Skip(1).Next(8) == h[1..];
    assert ReadHeader(r) == Ok((Header(t, Some(0)), r.Skip(9)));
    DecodeFromHeader(r, t, 0, r.Skip(9));
  }

  /** A header announcing a 4-byte argument with only 2 bytes after it is rejected. */
  lemma TruncatedArgument()
    ensures Decode([0x1A, 0x00, 0x01]) == Err(Truncated)
  {
  }

  /**
   As written, 0x3F (major type 1, additional information 31) decodes to -1, the
   same value as the encoding 0x20, and 0x1F decodes to null; encodeWriter never
   writes additional information 31. The corrected decoder rejects both.
   */
  lemma IndefiniteIntegerAsWritten()
    ensures DecodeAsWritten([0x3F]) == DecodeAsWritten([0x20]) == Ok(Number(-1))
    ensures DecodeAsWritten([0x1F]) == Ok(Null)
    ensures forall d :: EncodeWriter(d).Ok? ==> EncodeWriter(d).value[0] % 32 != 31
    ensures Decode([0x3F]) == Decode([0x1F]) == Err(Malformed)
    ensures Decode([0x20]) == Ok(-1)
  {
  }
}
