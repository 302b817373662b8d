/** The marshaller: methods that append to one growing buffer, pad by its length,
    back-patch array lengths and assemble dictionaries in a scratch buffer. */
module Marshaller {
  import opened Bytes
  import opened Options
  import opened Types
  import opened Signatures
  import opened Encoding

  /** The memory of a vector of numbers, as one block copy moves it. */
  function RawMemory(k: FixedKind, vs: seq<Value>): seq<byte>
    requires AllTyped(Fixed(k), vs)
  {
    if vs == [] then []
    else
      assert Typed(Fixed(k), vs[0]);
      LE(vs[0].n, Width(k)) + RawMemory(k, vs[1..])
  }

  lemma {:induction false} RawMemoryLength(k: FixedKind, vs: seq<Value>)
    requires AllTyped(Fixed(k), vs)
    ensures |RawMemory(k, vs)| == |vs| * Width(k)
  {
    if vs != [] {
      RawMemoryLength(k, vs[1..]);
    }
  }

  /** At a position aligned for the element, the block copy produces what the
      element-by-element loop produces: a number is as wide as it is aligned. */
  lemma {:induction false} BlockCopyIsElementwise(k: FixedKind, vs: seq<Value>, p: nat)
    requires k != Bool && AllTyped(Fixed(k), vs) && Aligned(p, Width(k))
    ensures EncElems(Fixed(k), vs, p) == RawMemory(k, vs)
  {
    hide EncElems, PadLen, LE;
    if vs == [] {
      NoElems(Fixed(k), p);
    } else {
      assert Typed(Fixed(k), vs[0]);
      StepKeepsAlignment(p, Width(k));
      ElemsStep(Fixed(k), vs, p);
      BlockCopyIsElementwise(k, vs[1..], p + Width(k));
    }
  }

  class Buffer {
    var data: seq<byte>

    constructor ()
      ensures data == []
    {
      data := [];
    }

    method ApplyPadding(alignment: Alignment)
      modifies this
      ensures data == old(data) + Zeros(PadLen(|old(data)|, alignment))
    {
      PadLenIsLeast(|data|, alignment);
      var result := |data| % alignment;
      if result != 0 {
        data := data + Zeros(alignment - result);
      }
    }

    /** The number's digits to base 256, least significant first. */
    method MarshalFixed(n: nat, width: nat)
      modifies this
      ensures data == old(data) + LE(n, width)
      ensures |data| == |old(data)| + width && IsLittleEndian(data[|old(data)|..], n)
    {
      hide LE;
      LEIsLittleEndian(n, width);
      data := data + LE(n, width);
      assert data[|old(data)|..] == LE(n, width);
    }

    method MarshalText(k: TextKind, s: seq<byte>) returns (fault: Fault)
      modifies this
      ensures fault == if 0 in s then Some(NulInText) else None
      ensures data == old(data) + if fault.None? then EncText(k, s) else []
    {
      hide LE, IsLittleEndian;
      if 0 in s {
        return Some(NulInText);
      }
      MarshalFixed(|s|, if k.Signature? then 1 else 4);
      data := data + s + [0];
      return None;
    }

    method Marshal(t: Type, v: Value) returns (fault: Fault)
      requires WellFormed(t) && Typed(t, v)
      modifies this
      ensures fault == FaultOf(t, v, |old(data)|)
      ensures fault.None? ==> data == old(data) + Enc(t, v, |old(data)|)
      ensures v.Num? ==>
                fault.None? && |data| == |old(data)| + Width(t.fixed) && IsLittleEndian(data[|old(data)|..], v.n)
      decreases v, 1
    {
      hide IsLittleEndian;
      match v
      case Num(n) =>
        MarshalFixed(n, Width(t.fixed));
        fault := None;
      case Txt(s) =>
        fault := MarshalText(t.text, s);
      case List(vs) =>
        fault := MarshalArray(t.elem, vs);
      case Record(vs) =>
        fault := MarshalParts(InStruct, t.fields, vs);
      case Map(es) =>
        fault := MarshalDict(t.key, t.val, es);
      case Boxed(u, w) =>
        fault := MarshalVariant(u, w);
      case Slice(_, _) =>
        fault := Some(ReceivedVariant);
    }

    method MarshalArray(e: Type, vs: seq<Value>) returns (fault: Fault)
      requires WellFormed(Array(e)) && AllTyped(e, vs)
      modifies this
      ensures fault == FaultOf(Array(e), List(vs), |old(data)|)
      ensures fault.None? ==> data == old(data) + Enc(Array(e), List(vs), |old(data)|)
      decreases vs, 1
    {
      hide Enc, FaultOf, EncElems, FaultOfElems, PadLen, LE, IsLittleEndian, AlignmentOf;
      ghost var start := data;
      ArrayStep(e, vs, |start|);
      if e.Fixed? {
        MarshalFixed(|vs| * Width(e.fixed), 4);
        ApplyPadding(AlignmentOf(e));
        FixedIsAligned(e.fixed, |start| + 4);
        BlockCopyIsElementwise(e.fixed, vs, |data|);
        RawMemoryLength(e.fixed, vs);
        data := data + RawMemory(e.fixed, vs);
        return None;
      }
      var alignment := AlignmentOf(e);
      MarshalFixed(0, 4);
      var sizePos := |data| - 4;
      ApplyPadding(alignment);
      var beginDataPos := |data|;
      fault := MarshalElems(e, vs);
      if fault.Some? {
        return;
      }
      var arrSize := |data| - beginDataPos;
      if arrSize >= MAX_ARRAY_LENGTH {
        return Some(OversizedArray);
      }
      data := data[..sizePos] + LE(arrSize, 4) + data[sizePos + 4..];
      BackPatched(start, LE(0, 4), LE(arrSize, 4), Zeros(PadLen(|start| + 4, alignment)),
                  EncElems(e, vs, beginDataPos));
    }

    /** The loop over the elements. */
    method MarshalElems(e: Type, vs: seq<Value>) returns (fault: Fault)
      requires WellFormed(e) && AllTyped(e, vs)
      modifies this
      ensures fault == FaultOfElems(e, vs, |old(data)|)
      ensures fault.None? ==> data == old(data) + EncElems(e, vs, |old(data)|)
      decreases vs, 0
    {
      hide Enc, FaultOf, EncElems, FaultOfElems, PadLen, AlignmentOf, Typed, WellFormed;
      ghost var start := data;
      for i := 0 to |vs|
        invariant AllTyped(e, vs[i..])
        invariant data + EncElems(e, vs[i..], |data|) == start + EncElems(e, vs, |start|)
        invariant FaultOfElems(e, vs[i..], |data|) == FaultOfElems(e, vs, |start|)
      {
        ghost var before, here, rest := data, |data|, vs[i..];
        assert rest[0] == vs[i] && rest[1..] == vs[i + 1..];
        ElemsStep(e, rest, here);
        fault := Marshal(e, vs[i]);
        if fault.Some? {
          return;
        }
        if i < |vs| - 1 {
          ApplyPadding(AlignmentOf(e));
        }
        ghost var after := NextElem(e, rest, here);
        assert |data| == after;
        Appended(before, Enc(e, rest[0], here), Zeros(after - here - |Enc(e, rest[0], here)|),
                 EncElems(e, vs[i + 1..], after));
        NoPadding(before + Enc(e, rest[0], here), []);
      }
      assert vs[|vs|..] == [];
      NoElems(e, |data|);
      return None;
    }

    /** The fields of a struct, or the arguments of a message body. */
    method MarshalParts(layout: Layout, ts: seq<Type>, vs: seq<Value>) returns (fault: Fault)
      requires AllWellFormed(ts) && PartsTyped(ts, vs)
      modifies this
      ensures fault == FaultOfParts(layout, ts, vs, |old(data)|)
      ensures fault.None? ==> data == old(data) + EncParts(layout, ts, vs, |old(data)|)
      decreases vs, 0
    {
      hide Enc, FaultOf, EncParts, FaultOfParts, PadLen, PartAlignment, Typed, WellFormed;
      if ts == [] || vs == [] {
        NoParts(layout, ts, vs, |data|);
        return None;
      }
      ghost var start := |data|;
      PartsStep(layout, ts, vs, start);
      fault := Marshal(ts[0], vs[0]);
      if fault.Some? {
        return;
      }
      if |ts| > 1 {
        ApplyPadding(PartAlignment(layout, ts[1]));
      }
      assert |data| == NextPart(layout, ts, vs, start);
      fault := MarshalParts(layout, ts[1..], vs[1..]);
    }

    method MarshalDict(k: Type, t: Type, es: seq<Entry>) returns (fault: Fault)
      requires WellFormed(Dict(k, t)) && EntriesTyped(k, t, es)
      modifies this
      ensures fault == FaultOf(Dict(k, t), Map(es), |old(data)|)
      ensures fault.None? ==> data == old(data) + Enc(Dict(k, t), Map(es), |old(data)|)
      decreases es, 1
    {
      hide Enc, FaultOf, EncEntries, FaultOfEntries, PadLen, LE, IsLittleEndian;
      ghost var start := data;
      DictStep(k, t, es, |start|);
      ScratchEntriesAreInPlace(k, t, es, |start| + 4);
      var scratch := new Buffer();
      fault := scratch.MarshalEntries(k, t, es);
      if fault.Some? {
        return;
      }
      MarshalFixed(|scratch.data|, 4);
      ApplyPadding(8);
      data := data + scratch.data;
      if es == [] {
        NoEntries(k, t, 0);
        PaddingIsIdempotent(|start| + 4, 8);
        ApplyPadding(8);
      }
    }

    /** The loop over the entries. */
    method MarshalEntries(k: Type, t: Type, es: seq<Entry>) returns (fault: Fault)
      requires WellFormed(Dict(k, t)) && EntriesTyped(k, t, es)
      modifies this
      ensures fault == FaultOfEntries(k, t, es, |old(data)|)
      ensures fault.None? ==> data == old(data) + EncEntries(k, t, es, |old(data)|)
      decreases es, 0
    {
      hide Enc, FaultOf, EncEntry, FaultOfEntry, EncEntries, FaultOfEntries, PadLen, MemberAlignment, Typed;
      ghost var start := data;
      var i := 0;
      NoPadding(data, EncEntries(k, t, es, |data|));
      assert es[0..] == es;
      while i < |es|
        invariant 0 <= i <= |es|
        invariant EntriesTyped(k, t, es[i..])
        invariant var next := AlignedBetween(i, |es|, |data|);
                  && data + Zeros(next - |data|) + EncEntries(k, t, es[i..], next) ==
                      start + EncEntries(k, t, es, |start|)
                  && FaultOfEntries(k, t, es[i..], next) == FaultOfEntries(k, t, es, |start|)
      {
        ghost var next := AlignedBetween(i, |es|, |data|);
        if i != 0 {
          ApplyPadding(8);
        }
        ghost var before, rest := data, es[i..];
        assert |before| == next;
        NoPadding(before, EncEntries(k, t, rest, next));
        assert rest[0] == es[i] && rest[1..] == es[i + 1..];
        EntriesStep(k, t, rest, next);
        fault := MarshalEntry(k, t, es[i]);
        if fault.Some? {
          return;
        }
        i := i + 1;
        ghost var after := NextEntry(k, t, rest, next);
        assert AlignedBetween(i, |es|, |data|) == after;
        Appended(before, EncEntry(k, t, rest[0], next), Zeros(after - |data|), EncEntries(k, t, es[i..], after));
      }
      assert es[|es|..] == [];
      NoEntries(k, t, |data|);
      NoPadding(data, []);
      return None;
    }

    method MarshalEntry(k: Type, t: Type, e: Entry) returns (fault: Fault)
      requires WellFormed(Dict(k, t)) && EntryTyped(k, t, e)
      modifies this
      ensures fault == FaultOfEntry(k, t, e, |old(data)|)
      ensures fault.None? ==> data == old(data) + EncEntry(k, t, e, |old(data)|)
      decreases e, 0
    {
      hide Enc, FaultOf, EncEntry, FaultOfEntry, PadLen, MemberAlignment, Typed;
      EntryStep(k, t, e, |data|);
      fault := Marshal(k, e.key);
      if fault.Some? {
        return;
      }
      ApplyPadding(MemberAlignment(t));
      fault := Marshal(t, e.val);
    }

    method MarshalVariant(u: Type, w: Value) returns (fault: Fault)
      requires WellFormed(u) && Typed(u, w)
      modifies this
      ensures fault == FaultOf(Variant, Boxed(u, w), |old(data)|)
      ensures fault.None? ==> data == old(data) + Enc(Variant, Boxed(u, w), |old(data)|)
      decreases w, 2
    {
      hide Enc, FaultOf, EncText, PadLen, AlignmentOf, Typed, WellFormed;
      BoxStep(u, w, |data|);
      SigHasNoNul(u);
      fault := MarshalText(Signature, Sig(u));
      ApplyPadding(AlignmentOf(u));
      fault := Marshal(u, w);
    }
  }

  lemma BackPatched(start: seq<byte>, x: seq<byte>, y: seq<byte>, z: seq<byte>, body: seq<byte>)
    requires |x| == |y|
    ensures var d := start + x + z + body; d[..|start|] + y + d[|start| + |x|..] == start + (y + z + body)
  {
    var d := start + x + z + body;
    assert d == start + (x + (z + body));
    assert d[..|start|] == start;
    assert d[|start| + |x|..] == z + body;
  }

  /** Where the next of `n` entries goes: padding comes between entries only. */
  function AlignedBetween(i: nat, n: nat, p: nat): (q: nat)
    ensures p <= q
  {
    if 0 < i < n then AlignUp(p, 8) else p
  }

  lemma NoPadding(x: seq<byte>, y: seq<byte>)
    ensures x + Zeros(0) + y == x + y && x + [] == x
  {
  }

  lemma Appended(x: seq<byte>, head: seq<byte>, pad: seq<byte>, rest: seq<byte>)
    ensures x + (head + pad + rest) == x + head + pad + rest
  {
  }
}
