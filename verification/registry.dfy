/**
 The semantic tag registry: an ordered list of (tag, encoder) entries and a map
 from tag to decoder. The registered callbacks are opaque user code, so they are a
 handle of type H. A tag argument is any JavaScript value: a finite number, NaN or
 an infinity, or a non-number.
 */
module Tags {
  import opened Errors

  datatype TagArg = Number(x: real) | NonFinite | NotNumber

  datatype Entry<H> = Entry(tag: nat, fn: H)

  datatype Registry<H> = Registry(encoders: seq<Entry<H>>, decoders: map<nat, H>)

  /** JavaScript's `x % 1` for a finite x: the remainder after truncation toward zero. */
  function FractionalPart(x: real): real {
    if x >= 0.0 then x - x.Floor as real else x + (-x).Floor as real
  }

  /** A tag number: a non-negative whole number. */
  predicate IsTag(tag: TagArg) {
    tag.Number? && tag.x >= 0.0 && tag.x == tag.x.Floor as real
  }

  function TagNumber(tag: TagArg): nat
    requires IsTag(tag)
  {
    tag.x.Floor
  }

  /** The validation of both registration calls: a number, whole, not negative. */
  function CheckTag(tag: TagArg): (res: Result<nat>)
    ensures res.Ok? <==> IsTag(tag)
    ensures res.Ok? ==> res.value == TagNumber(tag)
    ensures res.Err? ==> res.error == InvalidTag
  {
    match tag
    case NotNumber => Err(InvalidTag)
    case NonFinite => Err(InvalidTag)   // NaN % 1 and Infinity % 1 are NaN
    case Number(x) =>
      if FractionalPart(x) != 0.0 || x < 0.0 then Err(InvalidTag) else Ok(x.Floor)
  }

  /** addSemanticEncode: validate the tag, then append the entry after all earlier ones. */
  function AddSemanticEncode<H>(reg: Registry<H>, tag: TagArg, fn: H): (res: Result<Registry<H>>)
    ensures res.Ok? <==> IsTag(tag)
    ensures res.Err? ==> res.error == InvalidTag
    ensures res.Ok? ==> res.value.encoders == reg.encoders + [Entry(TagNumber(tag), fn)]
    ensures res.Ok? ==> res.value.decoders == reg.decoders
  {
    var t :- CheckTag(tag);
    Ok(reg.(encoders := reg.encoders + [Entry(t, fn)]))
  }

  /** addSemanticDecode: validate the tag, then make fn the one decoder for it. */
  function AddSemanticDecode<H>(reg: Registry<H>, tag: TagArg, fn: H): (res: Result<Registry<H>>)
    ensures res.Ok? <==> IsTag(tag)
    ensures res.Err? ==> res.error == InvalidTag
    ensures res.Ok? ==> res.value.encoders == reg.encoders
    ensures res.Ok? ==> res.value.decoders.Keys == reg.decoders.Keys + {TagNumber(tag)}
    ensures res.Ok? ==> res.value.decoders[TagNumber(tag)] == fn
    ensures res.Ok? ==> forall k :: k in reg.decoders && k != TagNumber(tag) ==>
      res.value.decoders[k] == reg.decoders[k]
  {
    var t :- CheckTag(tag);
    Ok(reg.(decoders := reg.decoders[t := fn]))
  }

  /**
   The state a chain of registration calls leaves: the registry after every call
   that completed, and the error of the call that threw, if one did.
   */
  datatype Chain<H> = Chain(reg: Registry<H>, failure: Option<Error>)

  /**
   Chained registration calls (`return this`). Each call commits its entry before
   the next one runs, so a throw keeps the registrations made before it.
   */
  function RegisterEncoders<H>(reg: Registry<H>, calls: seq<(TagArg, H)>): (c: Chain<H>)
    ensures c.reg.decoders == reg.decoders
    ensures |reg.encoders| <= |c.reg.encoders| <= |reg.encoders| + |calls|
    ensures c.reg.encoders[..|reg.encoders|] == reg.encoders
    ensures c.failure.None? ==> |c.reg.encoders| == |reg.encoders| + |calls|
    ensures c.failure.Some? ==> c.failure.value == InvalidTag
    decreases |calls|
  {
    if |calls| == 0 then Chain(reg, None)
    else
      match AddSemanticEncode(reg, calls[0].0, calls[0].1)
      case Ok(next) =>
        var c := RegisterEncoders(next, calls[1..]);
        assert c.reg.encoders[..|next.encoders|][..|reg.encoders|] == c.reg.encoders[..|reg.encoders|];
        c
      case Err(e) => Chain(reg, Some(e))
  }

  function RegisterDecoders<H>(reg: Registry<H>, calls: seq<(TagArg, H)>): (c: Chain<H>)
    ensures c.reg.encoders == reg.encoders
    ensures reg.decoders.Keys <= c.reg.decoders.Keys
    ensures c.failure.Some? ==> c.failure.value == InvalidTag
    decreases |calls|
  {
    if |calls| == 0 then Chain(reg, None)
    else
      match AddSemanticDecode(reg, calls[0].0, calls[0].1)
      case Ok(next) => RegisterDecoders(next, calls[1..])
      case Err(e) => Chain(reg, Some(e))
  }

  /** The number of calls before the first invalid tag: the calls that complete. */
  function Completed<H>(calls: seq<(TagArg, H)>): (k: nat)
    ensures k <= |calls|
    ensures forall i :: 0 <= i < k ==> IsTag(calls[i].0)
    ensures k < |calls| ==> !IsTag(calls[k].0)
  {
    if |calls| == 0 then 0
    else if !IsTag(calls[0].0) then 0
    else
      var k := Completed(calls[1..]);
      assert forall i :: 1 <= i < k + 1 ==> calls[i] == calls[1..][i - 1];
      1 + k
  }

  /** The entries the given calls register, in call order. */
  function Entries<H>(calls: seq<(TagArg, H)>): (es: seq<Entry<H>>)
    requires forall i :: 0 <= i < |calls| ==> IsTag(calls[i].0)
    ensures |es| == |calls|
  {
    seq(|calls|, i requires 0 <= i < |calls| => Entry(TagNumber(calls[i].0), calls[i].1))
  }

  /** The entries of a non-empty list of calls: the first call's entry, then the rest's. */
  lemma EntriesCons<H>(calls: seq<(TagArg, H)>)
    requires |calls| > 0 && forall i :: 0 <= i < |calls| ==> IsTag(calls[i].0)
    ensures Entries(calls) == [Entry(TagNumber(calls[0].0), calls[0].1)] + Entries(calls[1..])
  {
    assert forall i :: 1 <= i < |calls| ==> calls[1..][i - 1] == calls[i];
  }

  /** The last handle registered for tag k in calls, if any. */
  function LastFor<H>(calls: seq<(TagArg, H)>, k: nat): Option<H> {
    if |calls| == 0 then None
    else
      var later := LastFor(calls[1..], k);
      if later.Some? then later
      else if IsTag(calls[0].0) && TagNumber(calls[0].0) == k then Some(calls[0].1)
      else None
  }

  function Lookup<H>(m: map<nat, H>, k: nat): Option<H> {
    if k in m then Some(m[k]) else None
  }

  /**
   A chain of encoder registrations throws iff some tag is invalid; either way it
   keeps, in call order, the entries of the calls before the first invalid tag.
   */
  lemma {:induction false} EncodersInOrder<H>(reg: Registry<H>, calls: seq<(TagArg, H)>)
    ensures var c, k := RegisterEncoders(reg, calls), Completed(calls);
      && (c.failure.None? <==> k == |calls|)
      && c.reg.decoders == reg.decoders
      && c.reg.encoders == reg.encoders + Entries(calls[..k])
    decreases |calls|
  {
    var k := Completed(calls);
    if |calls| > 0 && IsTag(calls[0].0) {
      var next := AddSemanticEncode(reg, calls[0].0, calls[0].1).value;
      EncodersInOrder(next, calls[1..]);
      assert calls[1..][..k - 1] == calls[1..k];
      assert calls[..k][1..] == calls[1..k];
      EntriesCons(calls[..k]);
    } else {
      assert calls[..k] == [];
    }
  }

  /**
   After a chain of decoder registrations, thrown or not, each tag maps to the last
   handle registered for it by the calls that completed; other tags are untouched.
   */
  lemma {:induction false} LastDecoderWins<H>(reg: Registry<H>, calls: seq<(TagArg, H)>, key: nat)
    ensures var c, k := RegisterDecoders(reg, calls), Completed(calls);
      && (c.failure.None? <==> k == |calls|)
      && Lookup(c.reg.decoders, key) ==
           if LastFor(calls[..k], key).Some? then LastFor(calls[..k], key) else Lookup(reg.decoders, key)
    decreases |calls|
  {
    var k := Completed(calls);
    if |calls| > 0 && IsTag(calls[0].0) {
      var next := AddSemanticDecode(reg, calls[0].0, calls[0].1).value;
      LastDecoderWins(next, calls[1..], key);
      assert calls[..k][1..] == calls[1..][..k - 1];
    } else {
      assert calls[..k] == [];
    }
  }
}
