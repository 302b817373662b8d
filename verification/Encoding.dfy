/** The wire format as a function of the value and of the position it starts at:
    the specification the marshaller is proved against. */
module Encoding {
  import opened Bytes
  import opened Options
  import opened Types
  import opened Signatures

  /** D-Bus arrays must stay below 64 MiB. */
  const MAX_ARRAY_LENGTH: nat := 0x400_0000

  function EncText(k: TextKind, s: Text): (r: seq<byte>)
    ensures |r| >= |s| + 2
  {
    LE(|s|, if k.Signature? then 1 else 4) + s + [0]
  }

  /** A variant's signature, and where its payload then starts. */
  function PayloadStart(t: Type, p: nat): nat {
    AlignUp(p + |EncText(Signature, Sig(t))|, AlignmentOf(t))
  }

  /** Padding goes between members of a sequence, never after the last. */
  function Gap(more: bool, p: nat, a: Alignment): nat {
    if more then PadLen(p, a) else 0
  }

  function PartGap(layout: Layout, ts: seq<Type>, p: nat): nat {
    if |ts| > 1 then PadLen(p, PartAlignment(layout, ts[1])) else 0
  }

  function Enc(t: Type, v: Value, p: nat): seq<byte>
    decreases v
  {
    match v
    case Num(n) => if t.Fixed? then LE(n, Width(t.fixed)) else []
    case Txt(s) => if t.Text? then EncText(t.text, s) else []
    case List(vs) =>
      if t.Array? then
        var z := Zeros(PadLen(p + 4, AlignmentOf(t.elem)));
        var body := EncElems(t.elem, vs, p + 4 + |z|);
        LE(|body|, 4) + z + body
      else []
    case Record(vs) => if t.Struct? then EncParts(InStruct, t.fields, vs, p) else []
    case Map(es) =>
      if t.Dict? then
        var z := Zeros(PadLen(p + 4, 8));
        var body := EncEntries(t.key, t.val, es, p + 4 + |z|);
        LE(|body|, 4) + z + body
      else []
    case Boxed(u, w) =>
      if t.Variant? then
        var sig := EncText(Signature, Sig(u));
        var z := Zeros(PadLen(p + |sig|, AlignmentOf(u)));
        sig + z + Enc(u, w, p + |sig| + |z|)
      else []
    case Slice(_, _) => []
  }

  function EncElems(e: Type, vs: seq<Value>, p: nat): seq<byte>
    decreases vs
  {
    if vs == [] then []
    else
      var head := Enc(e, vs[0], p);
      var z := Zeros(Gap(|vs| > 1, p + |head|, AlignmentOf(e)));
      head + z + EncElems(e, vs[1..], p + |head| + |z|)
  }

  function EncParts(layout: Layout, ts: seq<Type>, vs: seq<Value>, p: nat): seq<byte>
    decreases vs
  {
    if vs == [] || ts == [] then []
    else
      var head := Enc(ts[0], vs[0], p);
      var z := Zeros(PartGap(layout, ts, p + |head|));
      head + z + EncParts(layout, ts[1..], vs[1..], p + |head| + |z|)
  }

  function EncEntries(k: Type, t: Type, es: seq<Entry>, p: nat): seq<byte>
    decreases es
  {
    if es == [] then []
    else
      var head := EncEntry(k, t, es[0], p);
      var z := Zeros(Gap(|es| > 1, p + |head|, 8));
      head + z + EncEntries(k, t, es[1..], p + |head| + |z|)
  }

  function EncEntry(k: Type, t: Type, e: Entry, p: nat): seq<byte>
    decreases e
  {
    var key := Enc(k, e.key, p);
    var z := Zeros(PadLen(p + |key|, MemberAlignment(t)));
    key + z + Enc(t, e.val, p + |key| + |z|)
  }

  // ---------- when marshalling fails ----------

  datatype MarshalError = NulInText | OversizedArray | ReceivedVariant

  type Fault = Option<MarshalError>

  function First(a: Fault, b: Fault): Fault {
    if a.Some? then a else b
  }

  /** What marshalling `v` at `p` throws, if anything: a text with an embedded NUL,
      an array whose elements are not of fixed size and take 64 MiB or more, a
      variant that was itself received; of several, the one met first. */
  function FaultOf(t: Type, v: Value, p: nat): Fault
    decreases v
  {
    match v
    case Num(_) => None
    case Txt(s) => if 0 in s then Some(NulInText) else None
    case List(vs) =>
      if !t.Array? || t.elem.Fixed? then None
      else
        var q := AlignUp(p + 4, AlignmentOf(t.elem));
        First(FaultOfElems(t.elem, vs, q),
              if |EncElems(t.elem, vs, q)| >= MAX_ARRAY_LENGTH then Some(OversizedArray) else None)
    case Record(vs) => if t.Struct? then FaultOfParts(InStruct, t.fields, vs, p) else None
    case Map(es) => if t.Dict? then FaultOfEntries(t.key, t.val, es, AlignUp(p + 4, 8)) else None
    case Boxed(u, w) => if t.Variant? then FaultOf(u, w, PayloadStart(u, p)) else None
    case Slice(_, _) => Some(ReceivedVariant)
  }

  function FaultOfElems(e: Type, vs: seq<Value>, p: nat): Fault
    decreases vs
  {
    if vs == [] then None
    else
      var q := p + |Enc(e, vs[0], p)|;
      First(FaultOf(e, vs[0], p), FaultOfElems(e, vs[1..], q + Gap(|vs| > 1, q, AlignmentOf(e))))
  }

  function FaultOfParts(layout: Layout, ts: seq<Type>, vs: seq<Value>, p: nat): Fault
    decreases vs
  {
    if vs == [] || ts == [] then None
    else
      var q := p + |Enc(ts[0], vs[0], p)|;
      First(FaultOf(ts[0], vs[0], p), FaultOfParts(layout, ts[1..], vs[1..], q + PartGap(layout, ts, q)))
  }

  function FaultOfEntries(k: Type, t: Type, es: seq<Entry>, p: nat): Fault
    decreases es
  {
    if es == [] then None
    else
      var q := p + |EncEntry(k, t, es[0], p)|;
      First(FaultOfEntry(k, t, es[0], p), FaultOfEntries(k, t, es[1..], q + Gap(|es| > 1, q, 8)))
  }

  function FaultOfEntry(k: Type, t: Type, e: Entry, p: nat): Fault
    decreases e
  {
    First(FaultOf(k, e.key, p), FaultOf(t, e.val, AlignUp(p + |Enc(k, e.key, p)|, MemberAlignment(t))))
  }

  predicate Accepts(t: Type, v: Value, p: nat) {
    FaultOf(t, v, p).None?
  }

  predicate AcceptsElems(e: Type, vs: seq<Value>, p: nat) {
    FaultOfElems(e, vs, p).None?
  }

  predicate AcceptsParts(layout: Layout, ts: seq<Type>, vs: seq<Value>, p: nat) {
    FaultOfParts(layout, ts, vs, p).None?
  }

  predicate AcceptsEntries(k: Type, t: Type, es: seq<Entry>, p: nat) {
    FaultOfEntries(k, t, es, p).None?
  }

  predicate AcceptsEntry(k: Type, t: Type, e: Entry, p: nat) {
    FaultOfEntry(k, t, e, p).None?
  }

  // ---------- one step of each recursion ----------

  /** Where the next element, part or entry starts. */
  function NextElem(e: Type, vs: seq<Value>, p: nat): nat
    requires vs != []
  {
    var q := p + |Enc(e, vs[0], p)|;
    q + Gap(|vs| > 1, q, AlignmentOf(e))
  }

  function NextPart(layout: Layout, ts: seq<Type>, vs: seq<Value>, p: nat): nat
    requires vs != [] && ts != []
  {
    var q := p + |Enc(ts[0], vs[0], p)|;
    q + PartGap(layout, ts, q)
  }

  function NextEntry(k: Type, t: Type, es: seq<Entry>, p: nat): nat
    requires es != []
  {
    var q := p + |EncEntry(k, t, es[0], p)|;
    q + Gap(|es| > 1, q, 8)
  }

  function EntryValueAt(k: Type, t: Type, e: Entry, p: nat): nat {
    AlignUp(p + |Enc(k, e.key, p)|, MemberAlignment(t))
  }

  lemma NoElems(e: Type, p: nat)
    ensures EncElems(e, [], p) == [] && FaultOfElems(e, [], p) == None
  {
  }

  lemma ElemsStep(e: Type, vs: seq<Value>, p: nat)
    requires vs != []
    ensures EncElems(e, vs, p) ==
      Enc(e, vs[0], p) + Zeros(NextElem(e, vs, p) - p - |Enc(e, vs[0], p)|) + EncElems(e, vs[1..], NextElem(e, vs, p))
    ensures FaultOfElems(e, vs, p) == First(FaultOf(e, vs[0], p), FaultOfElems(e, vs[1..], NextElem(e, vs, p)))
  {
    hide Enc, FaultOf, FaultOfElems, Gap, AlignmentOf, First;
    ElemsFault(e, vs, p);
  }

  lemma ElemsFault(e: Type, vs: seq<Value>, p: nat)
    requires vs != []
    ensures FaultOfElems(e, vs, p) == First(FaultOf(e, vs[0], p), FaultOfElems(e, vs[1..], NextElem(e, vs, p)))
  {
    hide Enc, FaultOf, Gap, AlignmentOf, First;
  }

  lemma NoParts(layout: Layout, ts: seq<Type>, vs: seq<Value>, p: nat)
    requires vs == [] || ts == []
    ensures EncParts(layout, ts, vs, p) == [] && FaultOfParts(layout, ts, vs, p) == None
  {
  }

  lemma PartsStep(layout: Layout, ts: seq<Type>, vs: seq<Value>, p: nat)
    requires vs != [] && ts != []
    ensures EncParts(layout, ts, vs, p) ==
      Enc(ts[0], vs[0], p) + Zeros(NextPart(layout, ts, vs, p) - p - |Enc(ts[0], vs[0], p)|)
      + EncParts(layout, ts[1..], vs[1..], NextPart(layout, ts, vs, p))
    ensures FaultOfParts(layout, ts, vs, p) ==
      First(FaultOf(ts[0], vs[0], p), FaultOfParts(layout, ts[1..], vs[1..], NextPart(layout, ts, vs, p)))
  {
    hide Enc, FaultOf, PartGap, First;
  }

  lemma NoEntries(k: Type, t: Type, p: nat)
    ensures EncEntries(k, t, [], p) == [] && FaultOfEntries(k, t, [], p) == None
  {
  }

  lemma EntriesStep(k: Type, t: Type, es: seq<Entry>, p: nat)
    requires es != []
    ensures EncEntries(k, t, es, p) ==
      EncEntry(k, t, es[0], p) + Zeros(NextEntry(k, t, es, p) - p - |EncEntry(k, t, es[0], p)|)
      + EncEntries(k, t, es[1..], NextEntry(k, t, es, p))
    ensures FaultOfEntries(k, t, es, p) ==
      First(FaultOfEntry(k, t, es[0], p), FaultOfEntries(k, t, es[1..], NextEntry(k, t, es, p)))
  {
    hide EncEntry, FaultOfEntry, FaultOfEntries, Gap, First;
    EntriesFault(k, t, es, p);
  }

  lemma EntriesFault(k: Type, t: Type, es: seq<Entry>, p: nat)
    requires es != []
    ensures FaultOfEntries(k, t, es, p) ==
      First(FaultOfEntry(k, t, es[0], p), FaultOfEntries(k, t, es[1..], NextEntry(k, t, es, p)))
  {
    hide EncEntry, FaultOfEntry, Gap, First;
  }

  lemma EntryStep(k: Type, t: Type, e: Entry, p: nat)
    ensures EncEntry(k, t, e, p) ==
      Enc(k, e.key, p) + Zeros(EntryValueAt(k, t, e, p) - p - |Enc(k, e.key, p)|)
      + Enc(t, e.val, EntryValueAt(k, t, e, p))
    ensures FaultOfEntry(k, t, e, p) == First(FaultOf(k, e.key, p), FaultOf(t, e.val, EntryValueAt(k, t, e, p)))
  {
    hide Enc, FaultOf, PadLen, MemberAlignment, First;
  }

  lemma ArrayStep(e: Type, vs: seq<Value>, p: nat)
    ensures Enc(Array(e), List(vs), p) ==
      var q := AlignUp(p + 4, AlignmentOf(e)); var body := EncElems(e, vs, q);
      LE(|body|, 4) + Zeros(q - p - 4) + body
    ensures FaultOf(Array(e), List(vs), p) ==
      if e.Fixed? then None
      else
        var q := AlignUp(p + 4, AlignmentOf(e));
        First(FaultOfElems(e, vs, q), if |EncElems(e, vs, q)| >= MAX_ARRAY_LENGTH then Some(OversizedArray) else None)
  {
    hide EncElems, FaultOfElems, PadLen, LE;
  }

  lemma DictStep(k: Type, t: Type, es: seq<Entry>, p: nat)
    ensures Enc(Dict(k, t), Map(es), p) ==
      var q := AlignUp(p + 4, 8); var body := EncEntries(k, t, es, q);
      LE(|body|, 4) + Zeros(q - p - 4) + body
    ensures FaultOf(Dict(k, t), Map(es), p) == FaultOfEntries(k, t, es, AlignUp(p + 4, 8))
  {
    hide EncEntries, FaultOfEntries, PadLen, LE;
  }

  lemma BoxStep(u: Type, w: Value, p: nat)
    ensures Enc(Variant, Boxed(u, w), p) ==
      var sig := EncText(Signature, Sig(u)); var q := PayloadStart(u, p);
      sig + Zeros(q - p - |sig|) + Enc(u, w, q)
    ensures FaultOf(Variant, Boxed(u, w), p) == FaultOf(u, w, PayloadStart(u, p))
  {
    hide EncText, EncElems, EncParts, EncEntries, FaultOfElems, FaultOfParts, FaultOfEntries, PadLen, AlignmentOf,
         LE, Sig, Gap;
    var sig := EncText(Signature, Sig(u));
    assert Enc(Variant, Boxed(u, w), p) ==
      sig + Zeros(PadLen(p + |sig|, AlignmentOf(u))) + Enc(u, w, p + |sig| + PadLen(p + |sig|, AlignmentOf(u)));
  }

  // ---------- relocation ----------

  function Max(a: Alignment, b: Alignment): Alignment {
    if a < b then b else a
  }

  /** The largest alignment that padding inside the encoding of `v` can ask for. */
  function InnerAlignment(t: Type, v: Value): Alignment
    decreases v
  {
    match v
    case Num(_) => 1
    case Txt(_) => 1
    case List(vs) => if t.Array? then Max(AlignmentOf(t.elem), InnerElems(t.elem, vs)) else 1
    case Record(vs) => 8
    case Map(_) => 8
    case Boxed(u, w) => Max(AlignmentOf(u), InnerAlignment(u, w))
    case Slice(_, _) => 1
  }

  function InnerElems(e: Type, vs: seq<Value>): Alignment
    decreases vs
  {
    if vs == [] then 1 else Max(InnerAlignment(e, vs[0]), InnerElems(e, vs[1..]))
  }

  lemma InnerElemsStep(e: Type, vs: seq<Value>, m: Alignment)
    requires vs != [] && InnerElems(e, vs) <= m
    ensures InnerAlignment(e, vs[0]) <= m && InnerElems(e, vs[1..]) <= m
  {
    hide InnerAlignment;
  }

  /** Moving a value between positions that agree modulo the largest alignment
      inside it changes neither its bytes nor what marshalling it throws. */
  lemma {:induction false} Relocate(t: Type, v: Value, p: nat, q: nat, m: Alignment)
    requires InStep(p, q, m) && InnerAlignment(t, v) <= m
    ensures Enc(t, v, p) == Enc(t, v, q)
    ensures FaultOf(t, v, p) == FaultOf(t, v, q)
    decreases v, 1
  {
    hide PadLen, InStep, EncElems, EncParts, EncEntries, FaultOfElems, FaultOfParts, FaultOfEntries;
    if v.List? && t.Array? {
      RelocateArray(t.elem, v.elems, p, q, m);
    } else if v.Record? && t.Struct? {
      RelocateStruct(t.fields, v.parts, p, q);
    } else if v.Map? && t.Dict? {
      RelocateDict(t.key, t.val, v.entries, p, q);
    } else if v.Boxed? && t.Variant? {
      RelocateBoxed(v.t, v.v, p, q, m);
    }
  }

  lemma {:induction false} RelocateArray(e: Type, vs: seq<Value>, p: nat, q: nat, m: Alignment)
    requires InStep(p, q, m) && AlignmentOf(e) <= m && InnerElems(e, vs) <= m
    ensures Enc(Array(e), List(vs), p) == Enc(Array(e), List(vs), q)
    ensures FaultOf(Array(e), List(vs), p) == FaultOf(Array(e), List(vs), q)
    decreases vs, 1
  {
    hide PadLen, InStep, AlignmentOf, Enc, FaultOf, EncElems, FaultOfElems, InnerElems;
    StayInStep(p, q, m, 4, AlignmentOf(e), true);
    RelocateElems(e, vs, AlignUp(p + 4, AlignmentOf(e)), AlignUp(q + 4, AlignmentOf(e)), m);
    ArrayStep(e, vs, p);
    ArrayStep(e, vs, q);
  }

  lemma {:induction false} RelocateStruct(ts: seq<Type>, vs: seq<Value>, p: nat, q: nat)
    requires InStep(p, q, 8)
    ensures Enc(Struct(ts), Record(vs), p) == Enc(Struct(ts), Record(vs), q)
    ensures FaultOf(Struct(ts), Record(vs), p) == FaultOf(Struct(ts), Record(vs), q)
    decreases vs, 1
  {
    hide InStep, EncParts, FaultOfParts;
    RelocateParts(InStruct, ts, vs, p, q);
  }

  lemma {:induction false} RelocateDict(k: Type, t: Type, es: seq<Entry>, p: nat, q: nat)
    requires InStep(p, q, 8)
    ensures Enc(Dict(k, t), Map(es), p) == Enc(Dict(k, t), Map(es), q)
    ensures FaultOf(Dict(k, t), Map(es), p) == FaultOf(Dict(k, t), Map(es), q)
    decreases es, 1
  {
    hide PadLen, InStep, Enc, FaultOf, EncEntries, FaultOfEntries;
    StayInStep(p, q, 8, 4, 8, true);
    RelocateEntries(k, t, es, AlignUp(p + 4, 8), AlignUp(q + 4, 8));
    DictStep(k, t, es, p);
    DictStep(k, t, es, q);
  }

  lemma {:induction false} RelocateBoxed(u: Type, w: Value, p: nat, q: nat, m: Alignment)
    requires InStep(p, q, m) && AlignmentOf(u) <= m && InnerAlignment(u, w) <= m
    ensures Enc(Variant, Boxed(u, w), p) == Enc(Variant, Boxed(u, w), q)
    ensures FaultOf(Variant, Boxed(u, w), p) == FaultOf(Variant, Boxed(u, w), q)
    decreases w, 2
  {
    hide PadLen, InStep, AlignmentOf, EncText, Enc, FaultOf, InnerAlignment;
    StayInStep(p, q, m, |EncText(Signature, Sig(u))|, AlignmentOf(u), true);
    Relocate(u, w, PayloadStart(u, p), PayloadStart(u, q), m);
    BoxStep(u, w, p);
    BoxStep(u, w, q);
  }

  /** After the same bytes and the padding that follows them, positions that were
      in step still are. */
  lemma StayInStep(p: nat, q: nat, m: Alignment, n: nat, a: Alignment, more: bool)
    requires InStep(p, q, m) && a <= m
    ensures Gap(more, p + n, a) == Gap(more, q + n, a)
    ensures InStep(p + n + Gap(more, p + n, a), q + n + Gap(more, q + n, a), m)
  {
    hide PadLen, InStep;
    InStepAdvance(p, q, m, n);
    InStepPadding(p + n, q + n, m, a);
    InStepAdvance(p + n, q + n, m, Gap(more, p + n, a));
  }

  lemma {:induction false} RelocateElems(e: Type, vs: seq<Value>, p: nat, q: nat, m: Alignment)
    requires InStep(p, q, m) && AlignmentOf(e) <= m && InnerElems(e, vs) <= m
    ensures EncElems(e, vs, p) == EncElems(e, vs, q)
    ensures FaultOfElems(e, vs, p) == FaultOfElems(e, vs, q)
    decreases vs, 0
  {
    hide Gap, InStep, AlignmentOf, Enc, FaultOf, InnerAlignment, EncElems, FaultOfElems;
    if vs == [] {
      NoElems(e, p);
      NoElems(e, q);
    } else {
      InnerElemsStep(e, vs, m);
      Relocate(e, vs[0], p, q, m);
      StayInStep(p, q, m, |Enc(e, vs[0], p)|, AlignmentOf(e), |vs| > 1);
      RelocateElems(e, vs[1..], NextElem(e, vs, p), NextElem(e, vs, q), m);
      ElemsStep(e, vs, p);
      ElemsStep(e, vs, q);
    }
  }

  lemma {:induction false} RelocateParts(layout: Layout, ts: seq<Type>, vs: seq<Value>, p: nat, q: nat)
    requires InStep(p, q, 8)
    ensures EncParts(layout, ts, vs, p) == EncParts(layout, ts, vs, q)
    ensures FaultOfParts(layout, ts, vs, p) == FaultOfParts(layout, ts, vs, q)
    decreases vs, 0
  {
    hide PadLen, InStep, PartAlignment, Enc, FaultOf, InnerAlignment, EncParts, FaultOfParts;
    if vs == [] || ts == [] {
      NoParts(layout, ts, vs, p);
      NoParts(layout, ts, vs, q);
    } else {
      Relocate(ts[0], vs[0], p, q, 8);
      StayInStep(p, q, 8, |Enc(ts[0], vs[0], p)|, if |ts| > 1 then PartAlignment(layout, ts[1]) else 1, |ts| > 1);
      RelocateParts(layout, ts[1..], vs[1..], NextPart(layout, ts, vs, p), NextPart(layout, ts, vs, q));
      PartsStep(layout, ts, vs, p);
      PartsStep(layout, ts, vs, q);
    }
  }

  lemma {:induction false} RelocateEntries(k: Type, t: Type, es: seq<Entry>, p: nat, q: nat)
    requires InStep(p, q, 8)
    ensures EncEntries(k, t, es, p) == EncEntries(k, t, es, q)
    ensures FaultOfEntries(k, t, es, p) == FaultOfEntries(k, t, es, q)
    decreases es, 0
  {
    hide Gap, InStep, EncEntry, FaultOfEntry, EncEntries, FaultOfEntries;
    if es == [] {
      NoEntries(k, t, p);
      NoEntries(k, t, q);
    } else {
      RelocateEntry(k, t, es[0], p, q);
      StayInStep(p, q, 8, |EncEntry(k, t, es[0], p)|, 8, |es| > 1);
      RelocateEntries(k, t, es[1..], NextEntry(k, t, es, p), NextEntry(k, t, es, q));
      EntriesStep(k, t, es, p);
      EntriesStep(k, t, es, q);
    }
  }

  lemma {:induction false} RelocateEntry(k: Type, t: Type, e: Entry, p: nat, q: nat)
    requires InStep(p, q, 8)
    ensures EncEntry(k, t, e, p) == EncEntry(k, t, e, q)
    ensures FaultOfEntry(k, t, e, p) == FaultOfEntry(k, t, e, q)
    decreases e, 0
  {
    hide PadLen, InStep, MemberAlignment, Enc, FaultOf, InnerAlignment, EncEntry, FaultOfEntry;
    Relocate(k, e.key, p, q, 8);
    StayInStep(p, q, 8, |Enc(k, e.key, p)|, MemberAlignment(t), true);
    Relocate(t, e.val, EntryValueAt(k, t, e, p), EntryValueAt(k, t, e, q), 8);
    EntryStep(k, t, e, p);
    EntryStep(k, t, e, q);
  }

  /** A dictionary's entries built from position 0 of an empty scratch buffer are,
      byte for byte, the entries built in place after the padded length. */
  lemma ScratchEntriesAreInPlace(k: Type, t: Type, es: seq<Entry>, p: nat)
    ensures EncEntries(k, t, es, 0) == EncEntries(k, t, es, AlignUp(p, 8))
    ensures FaultOfEntries(k, t, es, 0) == FaultOfEntries(k, t, es, AlignUp(p, 8))
  {
    PadLenIsLeast(p, 8);
    RelocateEntries(k, t, es, 0, AlignUp(p, 8));
  }

  // ---------- every value takes at least one byte ----------

  lemma {:induction false} EncIsNonempty(t: Type, v: Value, p: nat)
    requires WellFormed(t) && Typed(t, v) && Accepts(t, v, p)
    ensures |Enc(t, v, p)| >= 1
    decreases v
  {
    if v.Record? {
      PartsStep(InStruct, t.fields, v.parts, p);
      EncIsNonempty(t.fields[0], v.parts[0], p);
    }
  }
}
