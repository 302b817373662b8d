/** The flat signature interpreter stops where the encoding stops. */
module Walking {
  import opened Bytes
  import opened Types
  import opened Signatures
  import opened Encoding
  import opened Decoding

  predicate SingleCode(t: Type) {
    t.Fixed? || t.Text? || t.Variant?
  }

  /** Payloads the interpreter can find its way through: basic values, structs of
      such payloads, nested variants, and arrays whose element is one type code.
      What lies inside an array does not matter: it is skipped by its length. */
  predicate Walkable(t: Type, v: Value)
    decreases v
  {
    match v
    case Num(_) => true
    case Txt(s) => t.Text? && (t.text.Signature? ==> |s| < 256)
    case List(_) => t.Array? && SingleCode(t.elem)
    case Record(vs) => t.Struct? && PartsWalkable(t.fields, vs)
    case Map(_) => false
    case Boxed(u, w) => |Sig(u)| < 256 && Walkable(u, w)
    case Slice(_, _) => false
  }

  predicate PartsWalkable(ts: seq<Type>, vs: seq<Value>)
    decreases vs
  {
    vs == [] || ts == [] || (Walkable(ts[0], vs[0]) && PartsWalkable(ts[1..], vs[1..]))
  }

  // ---------- reading back what was written ----------

  lemma ReadNumberBack(n: nat, w: nat, b: seq<byte>, p: nat)
    requires At(b, p, LE(n, w)) && n < Pow256(w)
    ensures ReadNumber(b, p, w) == Ok(n, p + w)
  {
    FromLEOfLE(n, w);
  }

  lemma ReadLengthBack(n: nat, b: seq<byte>, p: nat)
    requires At(b, p, LE(n, 4)) && n < TWO_TO_THE_32
    ensures ReadNumber(b, p, 4) == Ok(n, p + 4)
  {
    Pow256Values();
    ReadNumberBack(n, 4, b, p);
  }

  lemma ReadTextBack(k: TextKind, s: Text, b: seq<byte>, p: nat)
    requires At(b, p, EncText(k, s)) && |b| < TWO_TO_THE_32
    requires k.Signature? ==> |s| < 256
    ensures ReadText(k, b, p) == Ok(s, p + |EncText(k, s)|)
    ensures var w := if k.Signature? then 1 else 4;
            ReadNumber(b, p, w) == Ok(|s|, p + w) && p + |EncText(k, s)| == p + w + |s| + 1
  {
    hide LE;
    var w := if k.Signature? then 1 else 4;
    AtSplit3(b, p, LE(|s|, w), s, [0]);
    Pow256Values();
    ReadNumberBack(|s|, w, b, p);
  }

  // ---------- one code at a time ----------

  lemma FrontCode(c: byte, rest: Text)
    ensures ([c] + rest)[0] == c && ([c] + rest)[1..] == rest
  {
  }

  lemma WalkFixed(k: FixedKind, rest: Text, b: seq<byte>, p: nat)
    ensures Walk([FixedCode(k)] + rest, b, p) == Walk(rest, b, AlignUp(p, Width(k)) + Width(k))
  {
    hide PadLen;
    FrontCode(FixedCode(k), rest);
    AlignmentTablesAgree(Fixed(k));
  }

  lemma WalkText(k: TextKind, s: Text, rest: Text, b: seq<byte>, p: nat)
    requires |b| < TWO_TO_THE_32 && (k.Signature? ==> |s| < 256)
    requires At(b, AlignUp(p, AlignmentOf(Text(k))), EncText(k, s))
    ensures Walk([TextCode(k)] + rest, b, p) ==
            Walk(rest, b, AlignUp(p, AlignmentOf(Text(k))) + |EncText(k, s)|)
  {
    hide PadLen, EncText, ReadNumber, Walk, AlignmentOf, AlignmentOfCode;
    AlignmentTablesAgree(Text(k));
    ReadTextBack(k, s, b, AlignUp(p, AlignmentOf(Text(k))));
    WalkTextCode(TextCode(k), AlignmentOf(Text(k)), rest, b, p);
  }

  lemma WalkTextCode(c: byte, a: Alignment, rest: Text, b: seq<byte>, p: nat)
    requires IsTextCode(c) && AlignmentOfCode(c) == Known(a)
    requires ReadNumber(b, AlignUp(p, a), if c == SIGNATURE then 1 else 4).Ok?
    ensures Walk([c] + rest, b, p) ==
            var n := ReadNumber(b, AlignUp(p, a), if c == SIGNATURE then 1 else 4); Walk(rest, b, n.next + n.value + 1)
  {
    hide PadLen, ReadNumber, AlignmentOfCode;
    FrontCode(c, rest);
  }

  lemma WalkNested(nested: Text, rest: Text, b: seq<byte>, p: nat)
    requires |b| < TWO_TO_THE_32 && |nested| < 256
    requires At(b, p, EncText(Signature, nested))
    ensures Walk([VARIANT] + rest, b, p) == Walk(nested + rest, b, p + |EncText(Signature, nested)|)
  {
    hide EncText;
    FrontCode(VARIANT, rest);
    ReadTextBack(Signature, nested, b, p);
  }

  lemma WalkArrayCode(e: Type, n: nat, rest: Text, b: seq<byte>, p: nat)
    requires SingleCode(e) && n < TWO_TO_THE_32
    requires At(b, AlignUp(p, 4), LE(n, 4))
    ensures Walk([ARRAY] + (Sig(e) + rest), b, p) == Walk(rest, b, AlignUp(AlignUp(p, 4) + 4, AlignmentOf(e)) + n)
  {
    hide PadLen, LE;
    FrontCode(ARRAY, Sig(e) + rest);
    assert Sig(e) == [Sig(e)[0]];
    FrontCode(Sig(e)[0], rest);
    AlignmentTablesAgree(e);
    SigIsNotClosing(e);
    ReadLengthBack(n, b, AlignUp(p, 4));
  }

  lemma WalkBracket(rest: Text, b: seq<byte>, p: nat)
    ensures Walk([STRUCT_BEGIN] + rest, b, p) == Walk(rest, b, AlignUp(p, 8))
    ensures Walk([STRUCT_END] + rest, b, p) == Walk(rest, b, p)
  {
    hide PadLen;
    FrontCode(STRUCT_BEGIN, rest);
    FrontCode(STRUCT_END, rest);
  }

  // ---------- whole values ----------

  /** Wherever the cursor stands before the padding of a walkable value, consuming
      the value's signature takes it exactly to the end of the value's bytes. */
  lemma {:induction false} WalkSkips(t: Type, v: Value, rest: Text, b: seq<byte>, p: nat)
    requires WellFormed(t) && Typed(t, v) && Walkable(t, v) && |b| < TWO_TO_THE_32
    requires At(b, AlignUp(p, MemberAlignment(t)), Enc(t, v, AlignUp(p, MemberAlignment(t))))
    ensures Walk(Sig(t) + rest, b, p) ==
            Walk(rest, b, AlignUp(p, MemberAlignment(t)) + |Enc(t, v, AlignUp(p, MemberAlignment(t)))|)
    decreases v, 1
  {
    if v.Num? {
      WalkSkipsNumber(t, v, rest, b, p);
    } else if v.Txt? {
      WalkSkipsText(t, v, rest, b, p);
    } else if v.List? {
      WalkSkipsArray(t, v, rest, b, p);
    } else if v.Record? {
      WalkSkipsStruct(t, v, rest, b, p);
    } else if v.Boxed? {
      WalkSkipsBoxed(t, v, rest, b, p);
    }
  }

  lemma WalkSkipsNumber(t: Type, v: Value, rest: Text, b: seq<byte>, p: nat)
    requires v.Num? && Typed(t, v)
    ensures Walk(Sig(t) + rest, b, p) ==
            Walk(rest, b, AlignUp(p, MemberAlignment(t)) + |Enc(t, v, AlignUp(p, MemberAlignment(t)))|)
  {
    hide PadLen, Walk, LE;
    WalkFixed(t.fixed, rest, b, p);
  }

  lemma WalkSkipsText(t: Type, v: Value, rest: Text, b: seq<byte>, p: nat)
    requires v.Txt? && Typed(t, v) && Walkable(t, v) && |b| < TWO_TO_THE_32
    requires At(b, AlignUp(p, MemberAlignment(t)), Enc(t, v, AlignUp(p, MemberAlignment(t))))
    ensures Walk(Sig(t) + rest, b, p) ==
            Walk(rest, b, AlignUp(p, MemberAlignment(t)) + |Enc(t, v, AlignUp(p, MemberAlignment(t)))|)
  {
    hide PadLen, Walk, EncText, AlignmentOf;
    WalkText(t.text, v.s, rest, b, p);
  }

  lemma WalkSkipsArray(t: Type, v: Value, rest: Text, b: seq<byte>, p: nat)
    requires v.List? && Typed(t, v) && Walkable(t, v) && |b| < TWO_TO_THE_32
    requires At(b, AlignUp(p, MemberAlignment(t)), Enc(t, v, AlignUp(p, MemberAlignment(t))))
    ensures Walk(Sig(t) + rest, b, p) ==
            Walk(rest, b, AlignUp(p, MemberAlignment(t)) + |Enc(t, v, AlignUp(p, MemberAlignment(t)))|)
  {
    hide PadLen, Walk, LE, Enc, EncElems, At, Zeros, FaultOf, FaultOfElems, Typed, Walkable, Sig, MemberAlignment,
         AlignmentOf;
    ArrayOpened(t, v, rest);
    var e, q := t.elem, AlignUp(p, 4);
    var start := AlignUp(q + 4, AlignmentOf(e));
    var body := EncElems(e, v.elems, start);
    ArrayStep(e, v.elems, q);
    AtSplit3(b, q, LE(|body|, 4), Zeros(start - q - 4), body);
    FitsIn(b, start, body);
    WalkArrayCode(e, |body|, rest, b, p);
  }

  lemma ArrayOpened(t: Type, v: Value, rest: Text)
    requires v.List? && Typed(t, v) && Walkable(t, v)
    ensures t.Array? && SingleCode(t.elem) && MemberAlignment(t) == 4
    ensures Sig(t) + rest == [ARRAY] + (Sig(t.elem) + rest)
  {
    Regroup([ARRAY], Sig(t.elem), rest);
  }

  lemma {:induction false} WalkSkipsStruct(t: Type, v: Value, rest: Text, b: seq<byte>, p: nat)
    requires v.Record? && WellFormed(t) && Typed(t, v) && Walkable(t, v) && |b| < TWO_TO_THE_32
    requires At(b, AlignUp(p, MemberAlignment(t)), Enc(t, v, AlignUp(p, MemberAlignment(t))))
    ensures Walk(Sig(t) + rest, b, p) ==
            Walk(rest, b, AlignUp(p, MemberAlignment(t)) + |Enc(t, v, AlignUp(p, MemberAlignment(t)))|)
    decreases v, 0
  {
    hide PadLen, Walk, Enc, EncParts, Typed, Walkable, WellFormed, PartsTyped, PartsWalkable, AllWellFormed, Sig,
         Sigs, MemberAlignment, At, Zeros;
    StructOpened(t, v, AlignUp(p, 8));
    var q, ts := AlignUp(p, 8), t.fields;
    AlignUpIsAligned(p, 8);
    AlignedIsWeaker(q, 8, MemberAlignment(ts[0]));
    StructSig(ts, rest);
    WalkBracket(Sigs(ts) + ([STRUCT_END] + rest), b, p);
    WalkSkipsParts(ts, v.parts, [STRUCT_END] + rest, b, q);
    WalkBracket(rest, b, q + |EncParts(InStruct, ts, v.parts, q)|);
  }

  lemma StructOpened(t: Type, v: Value, p: nat)
    requires v.Record? && WellFormed(t) && Typed(t, v) && Walkable(t, v)
    ensures t.Struct? && t.fields != [] && AllWellFormed(t.fields)
    ensures PartsTyped(t.fields, v.parts) && PartsWalkable(t.fields, v.parts)
    ensures Enc(t, v, p) == EncParts(InStruct, t.fields, v.parts, p)
    ensures MemberAlignment(t) == 8
  {
    hide EncParts, PartsTyped, PartsWalkable, AllWellFormed;
  }

  lemma {:induction false} WalkSkipsParts(ts: seq<Type>, vs: seq<Value>, rest: Text, b: seq<byte>, p: nat)
    requires ts != [] && AllWellFormed(ts) && PartsTyped(ts, vs) && PartsWalkable(ts, vs) && |b| < TWO_TO_THE_32
    requires At(b, AlignUp(p, MemberAlignment(ts[0])), EncParts(InStruct, ts, vs, AlignUp(p, MemberAlignment(ts[0]))))
    ensures Walk(Sigs(ts) + rest, b, p) ==
            Walk(rest, b, AlignUp(p, MemberAlignment(ts[0])) +
                |EncParts(InStruct, ts, vs, AlignUp(p, MemberAlignment(ts[0])))|)
    decreases vs, 0
  {
    hide PadLen, Walk, Enc, EncParts, MemberAlignment, Sig, Sigs, PartsWalkable, PartsTyped, AllWellFormed,
         WellFormed, Typed, Walkable, At, Zeros;
    HeadPart(ts, vs);
    var q := AlignUp(p, MemberAlignment(ts[0]));
    var next := NextPart(InStruct, ts, vs, q);
    var headEnd := q + |Enc(ts[0], vs[0], q)|;
    PartsStep(InStruct, ts, vs, q);
    AtSplit3(b, q, Enc(ts[0], vs[0], q), Zeros(next - headEnd), EncParts(InStruct, ts[1..], vs[1..], next));
    SigsHead(ts, rest);
    WalkSkips(ts[0], vs[0], Sigs(ts[1..]) + rest, b, p);
    if |ts| > 1 {
      WalkSkipsParts(ts[1..], vs[1..], rest, b, headEnd);
    } else {
      NoParts(InStruct, ts[1..], vs[1..], next);
    }
  }

  lemma SigsHead(ts: seq<Type>, rest: Text)
    requires ts != []
    ensures Sigs(ts) + rest == Sig(ts[0]) + (Sigs(ts[1..]) + rest)
    ensures |ts| == 1 ==> Sigs(ts[1..]) + rest == rest
  {
    hide Sig;
    Regroup(Sig(ts[0]), Sigs(ts[1..]), rest);
  }

  lemma StructSig(ts: seq<Type>, rest: Text)
    ensures Sig(Struct(ts)) + rest == [STRUCT_BEGIN] + (Sigs(ts) + ([STRUCT_END] + rest))
  {
    hide Sigs;
    Regroup([STRUCT_BEGIN], Sigs(ts) + [STRUCT_END], rest);
    Regroup(Sigs(ts), [STRUCT_END], rest);
  }

  lemma DictSigThen(k: Type, v: Type, rest: Text)
    ensures Sig(Dict(k, v)) + rest == [ARRAY] + ([DICT_BEGIN] + (Sig(k) + (Sig(v) + ([DICT_END] + rest))))
  {
    hide Sig;
    DictSig(k, v);
    Regroup([ARRAY], [DICT_BEGIN] + (Sig(k) + (Sig(v) + [DICT_END])), rest);
    Regroup([DICT_BEGIN], Sig(k) + (Sig(v) + [DICT_END]), rest);
    Regroup(Sig(k), Sig(v) + [DICT_END], rest);
    Regroup(Sig(v), [DICT_END], rest);
  }

  lemma DictSig(k: Type, t: Type)
    ensures Sig(Dict(k, t)) == [ARRAY] + ([DICT_BEGIN] + (Sig(k) + (Sig(t) + [DICT_END])))
  {
  }

  lemma HeadPart(ts: seq<Type>, vs: seq<Value>)
    requires ts != [] && AllWellFormed(ts) && PartsTyped(ts, vs) && PartsWalkable(ts, vs)
    ensures vs != [] && WellFormed(ts[0]) && Typed(ts[0], vs[0]) && Walkable(ts[0], vs[0])
    ensures AllWellFormed(ts[1..]) && PartsTyped(ts[1..], vs[1..]) && PartsWalkable(ts[1..], vs[1..])
  {
    hide WellFormed, Typed, Walkable;
  }

  lemma {:induction false} WalkSkipsBoxed(t: Type, v: Value, rest: Text, b: seq<byte>, p: nat)
    requires v.Boxed? && Typed(t, v) && Walkable(t, v) && |b| < TWO_TO_THE_32
    requires At(b, AlignUp(p, MemberAlignment(t)), Enc(t, v, AlignUp(p, MemberAlignment(t))))
    ensures Walk(Sig(t) + rest, b, p) ==
            Walk(rest, b, AlignUp(p, MemberAlignment(t)) + |Enc(t, v, AlignUp(p, MemberAlignment(t)))|)
    decreases v, 0
  {
    hide PadLen, Walk, Enc, WellFormed, EncText, At, Zeros;
    var u, w := v.t, v.v;
    var sig, start := EncText(Signature, Sig(u)), PayloadStart(u, p);
    BoxStep(u, w, p);
    AtSplit3(b, p, sig, Zeros(start - p - |sig|), Enc(u, w, start));
    WalkNested(Sig(u), rest, b, p);
    WalkableIsNoDict(u, w);
    WalkSkips(u, w, rest, b, p + |sig|);
  }

  lemma WalkableIsNoDict(u: Type, w: Value)
    requires Typed(u, w) && Walkable(u, w)
    ensures !u.Dict? && MemberAlignment(u) == AlignmentOf(u)
  {
  }

  /** What the reader makes of a variant whose payload it can walk: the payload's
      signature and exactly the payload's bytes, with the cursor at their end. */
  lemma DecVariantBack(u: Type, w: Value, b: seq<byte>, p: nat)
    requires WellFormed(u) && Typed(u, w) && Walkable(u, w) && |Sig(u)| < 256 && |b| < TWO_TO_THE_32
    requires At(b, p, Enc(Variant, Boxed(u, w), p))
    ensures DecVariant(b, p) ==
            Ok(Slice(Sig(u), Enc(u, w, PayloadStart(u, p))), p + |Enc(Variant, Boxed(u, w), p)|)
  {
    hide PadLen, Walk, Enc, AlignmentOf, Typed, WellFormed, EncText, Sig, AlignmentOfCode, ReadText, At, Zeros;
    var sig, start := EncText(Signature, Sig(u)), PayloadStart(u, p);
    BoxStep(u, w, p);
    AtSplit3(b, p, sig, Zeros(start - p - |sig|), Enc(u, w, start));
    ReadTextBack(Signature, Sig(u), b, p);
    WalkableIsNoDict(u, w);
    AlignmentTablesAgree(u);
    WalkSkips(u, w, [], b, p + |sig|);
    assert Sig(u) + [] == Sig(u);
    WalkOfNothing(b, start + |Enc(u, w, start)|);
  }
}
