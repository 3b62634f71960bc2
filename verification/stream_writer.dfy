/**
 StreamWriter: the Writer that accumulates output in 16 KiB segments. Its state is
 the list of completed segments, the segment being filled, the fill offset and the
 running byte count. `Contents` is what the writer holds, in order; `Valid` is the
 invariant every operation keeps.

 The source flushes a full segment by pushing the unqualified name `latestBuffer`
 (a ReferenceError); WriteByte and WriteChunk push the writer's own segment, as
 intended. WriteByteAsWritten and WriteChunkAsWritten model the code as written.
 */
module Streams {
  import opened Errors
  import opened Bytes

  const SegmentSize: nat := 16384

  datatype StreamWriter = StreamWriter(
    byteLength: nat,
    latest: seq<byte>,
    offset: nat,
    complete: seq<seq<byte>>)

  /** A freshly allocated segment; its contents are never read back. */
  function Fresh(): (s: seq<byte>)
    ensures |s| == SegmentSize
  {
    seq(SegmentSize, _ => 0)
  }

  /** The segments joined in order. */
  function Concat(segments: seq<seq<byte>>): seq<byte> {
    if |segments| == 0 then []
    else Concat(segments[..|segments| - 1]) + segments[|segments| - 1]
  }

  lemma ConcatSnoc(segments: seq<seq<byte>>, s: seq<byte>)
    ensures Concat(segments + [s]) == Concat(segments) + s
  {
    assert (segments + [s])[..|segments|] == segments;
  }

  predicate WellShaped(w: StreamWriter) {
    |w.latest| == SegmentSize && w.offset < SegmentSize
  }

  /** The bytes the writer holds: the completed segments, then the filled part of the current one. */
  function Contents(w: StreamWriter): seq<byte>
    requires WellShaped(w)
  {
    Concat(w.complete) + w.latest[..w.offset]
  }

  /** The segment offset stays inside the segment and byteLength counts every byte held. */
  predicate Valid(w: StreamWriter) {
    WellShaped(w) && w.byteLength == |Contents(w)|
  }

  /** The constructor: no bytes, one empty segment. */
  function New(): (w: StreamWriter)
    ensures Valid(w) && Contents(w) == []
  {
    StreamWriter(0, Fresh(), 0, [])
  }

  /** writeByte: store at the offset; a full segment moves to the completed list. */
  function WriteByte(w: StreamWriter, b: byte): (r: StreamWriter)
    requires Valid(w)
    ensures Valid(r) && Contents(r) == Contents(w) + [b]
  {
    var latest := w.latest[w.offset := b];
    var offset := w.offset + 1;
    assert latest[..offset] == w.latest[..w.offset] + [b];
    if offset >= |latest| then
      assert latest[..offset] == latest;
      ConcatSnoc(w.complete, latest);
      StreamWriter(w.byteLength + 1, Fresh(), 0, w.complete + [latest])
    else
      StreamWriter(w.byteLength + 1, latest, offset, w.complete)
  }

  /**
   writeChunk: an empty current segment takes the chunk as a completed segment of its
   own; a chunk that fits is copied in (flushing the segment if that fills it);
   otherwise the partial segment and then the chunk are completed and a fresh
   segment begins.
   */
  function WriteChunk(w: StreamWriter, chunk: seq<byte>): (r: StreamWriter)
    requires Valid(w)
    ensures Valid(r) && Contents(r) == Contents(w) + chunk
  {
    var n := w.byteLength + |chunk|;
    if w.offset == 0 then
      ConcatSnoc(w.complete, chunk);
      StreamWriter(n, w.latest, w.offset, w.complete + [chunk])
    else if SegmentSize - w.offset >= |chunk| then
      CopyChunk(w, chunk)
    else
      FlushTwo(w.complete, w.latest[..w.offset], chunk);
      StreamWriter(n, Fresh(), 0, w.complete + [w.latest[..w.offset], chunk])
  }

  /** writeChunk's copy branch: the chunk fits in the partly filled segment. */
  function CopyChunk(w: StreamWriter, chunk: seq<byte>): (r: StreamWriter)
    requires Valid(w) && w.offset != 0 && w.offset + |chunk| <= SegmentSize
    ensures Valid(r) && Contents(r) == Contents(w) + chunk
  {
    var n := w.byteLength + |chunk|;
    var latest := w.latest[..w.offset] + chunk + w.latest[w.offset + |chunk|..];
    var offset := w.offset + |chunk|;
    CopyIn(w.latest, w.offset, chunk);
    if offset >= SegmentSize then
      FlushFull(w.complete, latest);
      StreamWriter(n, Fresh(), 0, w.complete + [latest])
    else
      StreamWriter(n, latest, offset, w.complete)
  }

  lemma CopyIn(segment: seq<byte>, offset: nat, chunk: seq<byte>)
    requires offset + |chunk| <= |segment|
    ensures var s := segment[..offset] + chunk + segment[offset + |chunk|..];
      |s| == |segment| && s[..offset + |chunk|] == segment[..offset] + chunk
  {
  }

  lemma FlushFull(complete: seq<seq<byte>>, segment: seq<byte>)
    requires |segment| == SegmentSize
    ensures Concat(complete + [segment]) == Concat(complete) + segment[..SegmentSize]
  {
    assert segment[..SegmentSize] == segment;
    ConcatSnoc(complete, segment);
  }

  lemma FlushTwo(complete: seq<seq<byte>>, partial: seq<byte>, chunk: seq<byte>)
    ensures Concat(complete + [partial, chunk]) == Concat(complete) + partial + chunk
  {
    ConcatSnoc(complete, partial);
    ConcatSnoc(complete + [partial], chunk);
    assert complete + [partial, chunk] == complete + [partial] + [chunk];
  }

  /** result(): every completed segment, then the filled part of the current one, in one sequence. */
  method Result(w: StreamWriter) returns (out: seq<byte>)
    requires Valid(w)
    ensures out == Contents(w) && |out| == w.byteLength
  {
    out := [];
    var i := 0;
    while i < |w.complete|
      invariant 0 <= i <= |w.complete|
      invariant out == Concat(w.complete[..i])
    {
      assert w.complete[..i + 1][..i] == w.complete[..i];
      out := out + w.complete[i];
      i := i + 1;
    }
    assert w.complete[..i] == w.complete;
    if w.offset != 0 {
      out := out + w.latest[..w.offset];
    }
  }

  /** One call on the writer. */
  datatype Write = WriteByteOp(b: byte) | WriteChunkOp(chunk: seq<byte>)

  /** The bytes one call hands to the writer. */
  function Written(op: Write): seq<byte> {
    match op
    case WriteByteOp(b) => [b]
    case WriteChunkOp(c) => c
  }

  function Apply(w: StreamWriter, op: Write): (r: StreamWriter)
    requires Valid(w)
    ensures Valid(r) && Contents(r) == Contents(w) + Written(op)
  {
    match op
    case WriteByteOp(b) => WriteByte(w, b)
    case WriteChunkOp(c) => WriteChunk(w, c)
  }

  /** The bytes a sequence of calls writes, in call order. */
  function History(ops: seq<Write>): seq<byte> {
    if |ops| == 0 then [] else Written(ops[0]) + History(ops[1..])
  }

  /** Any interleaving of writeByte and writeChunk keeps the invariant and appends exactly the bytes written. */
  function Run(w: StreamWriter, ops: seq<Write>): (r: StreamWriter)
    requires Valid(w)
    ensures Valid(r) && Contents(r) == Contents(w) + History(ops)
    decreases |ops|
  {
    if |ops| == 0 then w
    else
      var r := Run(Apply(w, ops[0]), ops[1..]);
      assert Contents(w) + Written(ops[0]) + History(ops[1..]) == Contents(w) + History(ops);
      r
  }

  /** One writeByte call per byte of s. */
  function Bytewise(s: seq<byte>): (ops: seq<Write>)
    ensures |ops| == |s|
  {
    if |s| == 0 then [] else [WriteByteOp(s[0])] + Bytewise(s[1..])
  }

  lemma {:induction false} HistoryBytewise(s: seq<byte>)
    ensures History(Bytewise(s)) == s
  {
    if |s| > 0 {
      assert Bytewise(s)[1..] == Bytewise(s[1..]);
      HistoryBytewise(s[1..]);
    }
  }

  /** Writing s byte by byte and writing it as one chunk leave the same result. */
  lemma {:induction false} ChunkingInvariance(s: seq<byte>)
    ensures Contents(Run(New(), Bytewise(s))) == Contents(Run(New(), [WriteChunkOp(s)])) == s
  {
    HistoryBytewise(s);
    assert History([WriteChunkOp(s)]) == s + History([]);
  }

  // ---- The flush as written: `this.completeBuffers.push(latestBuffer)` ----

  function WriteByteAsWritten(w: StreamWriter, b: byte): (r: Result<StreamWriter>)
    requires Valid(w)
    ensures r.Err? <==> w.offset + 1 == SegmentSize
    ensures r.Err? ==> r.error == ReferenceError
    ensures r.Ok? ==> r.value == WriteByte(w, b)
  {
    var latest := w.latest[w.offset := b];
    var offset := w.offset + 1;
    if offset >= |latest| then Err(ReferenceError)
    else Ok(StreamWriter(w.byteLength + 1, latest, offset, w.complete))
  }

  function WriteChunkAsWritten(w: StreamWriter, chunk: seq<byte>): (r: Result<StreamWriter>)
    requires Valid(w)
    ensures r.Err? <==> w.offset != 0 && w.offset + |chunk| == SegmentSize
    ensures r.Err? ==> r.error == ReferenceError
    ensures r.Ok? ==> r.value == WriteChunk(w, chunk)
  {
    var n := w.byteLength + |chunk|;
    if w.offset == 0 then
      Ok(StreamWriter(n, w.latest, w.offset, w.complete + [chunk]))
    else if SegmentSize - w.offset >= |chunk| then
      var latest := w.latest[..w.offset] + chunk + w.latest[w.offset + |chunk|..];
      var offset := w.offset + |chunk|;
      if offset >= SegmentSize then Err(ReferenceError)
      else Ok(StreamWriter(n, latest, offset, w.complete))
    else
      Ok(StreamWriter(n, Fresh(), 0, w.complete + [w.latest[..w.offset], chunk]))
  }

  /** The call, made on w as written, that reaches the end of the segment and throws. */
  predicate Throws(w: StreamWriter, op: Write) {
    match op
    case WriteByteOp(_) => w.offset + 1 == SegmentSize
    case WriteChunkOp(c) => w.offset != 0 && w.offset + |c| == SegmentSize
  }

  /** Some call of the intended run reaches the end of the segment. */
  predicate HitsEnd(w: StreamWriter, ops: seq<Write>)
    requires Valid(w)
    decreases |ops|
  {
    |ops| > 0 && (Throws(w, ops[0]) || HitsEnd(Apply(w, ops[0]), ops[1..]))
  }

  /**
   A sequence of calls as written: the first throw ends it. It throws exactly when
   some call reaches the end of the segment, and otherwise agrees with Run.
   */
  function RunAsWritten(w: StreamWriter, ops: seq<Write>): (r: Result<StreamWriter>)
    requires Valid(w)
    ensures r.Err? <==> HitsEnd(w, ops)
    ensures r.Err? ==> r.error == ReferenceError
    ensures r.Ok? ==> r.value == Run(w, ops)
    decreases |ops|
  {
    if |ops| == 0 then Ok(w)
    else
      var next :- match ops[0]
        case WriteByteOp(b) => WriteByteAsWritten(w, b)
        case WriteChunkOp(c) => WriteChunkAsWritten(w, c);
      RunAsWritten(next, ops[1..])
  }

  /** As written, any run of writeByte calls that reaches the end of the segment throws. */
  lemma {:induction false} ByteFillAsWritten(w: StreamWriter, s: seq<byte>)
    requires Valid(w) && w.offset + |s| >= SegmentSize
    ensures RunAsWritten(w, Bytewise(s)) == Err(ReferenceError)
    decreases |s|
  {
    var ops := Bytewise(s);
    if w.offset + 1 < SegmentSize {
      assert ops[1..] == Bytewise(s[1..]);
      ByteFillAsWritten(WriteByte(w, s[0]), s[1..]);
    }
  }

  /** As written, 16384 writeByte calls on a new writer throw; the intended writer holds them all. */
  lemma SegmentFillAsWritten(s: seq<byte>)
    requires |s| == SegmentSize
    ensures RunAsWritten(New(), Bytewise(s)) == Err(ReferenceError)
    ensures Contents(Run(New(), Bytewise(s))) == s
  {
    ByteFillAsWritten(New(), s);
    HistoryBytewise(s);
  }

  /** As written, one byte followed by a chunk that fills the rest of the segment throws. */
  lemma ChunkFillAsWritten()
    ensures var w := WriteByte(New(), 0);
      WriteChunkAsWritten(w, seq(SegmentSize - 1, _ => 0)) == Err(ReferenceError)
      && Contents(WriteChunk(w, seq(SegmentSize - 1, _ => 0))) == [0] + seq(SegmentSize - 1, _ => 0)
  {
  }
}
