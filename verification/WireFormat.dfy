/** Where every byte of an encoding stands, by the characters of the signature: the
    layout that section "Marshaling (Wire Format)" of the D-Bus Specification asks for. */
module WireFormat {
  import opened Bytes
  import opened Options
  import opened Types
  import opened Signatures
  import opened Encoding

  /** What a value is aligned to, by the first character of its signature. */
  function Boundary(c: char): nat {
    if c in "nq" then 2 else if c in "biusoa" then 4 else if c in "xtd(" then 8 else 1
  }

  function FirstCharacter(t: Type): char {
    Sig(t)[0] as char
  }

  /** Outside structs and dictionary entries the library aligns a dictionary as its entries. */
  function OuterBoundary(t: Type): nat {
    if t.Dict? then 8 else Boundary(FirstCharacter(t))
  }

  /** The first multiple of `a` that is not below `p`. */
  predicate IsNext(p: nat, a: nat, q: nat) {
    a > 0 && p <= q < p + a && q % a == 0
  }

  predicate AreZeros(b: seq<byte>, p: nat, q: nat) {
    p <= q <= |b| && forall i :: p <= i < q ==> b[i] == 0
  }

  /** The number `n` in the bytes from `p` to `q`, least significant first. */
  ghost predicate IsNumber(b: seq<byte>, p: nat, q: nat, n: nat) {
    p <= q <= |b| && IsLittleEndian(b[p..q], n)
  }

  datatype Member = Member(t: Type, v: Value, boundary: nat)

  /** The members stand one after the other from `p` to `q`, each at the first
      multiple of its boundary, with zeros between them and nothing behind the last. */
  ghost predicate ArePlaced(ms: seq<Member>, b: seq<byte>, p: nat, q: nat)
    decreases |ms|
  {
    if ms == [] then p == q
    else
      var end := p + |Enc(ms[0].t, ms[0].v, p)|;
      && At(b, p, Enc(ms[0].t, ms[0].v, p))
      && if |ms| == 1 then q == end
         else exists next :: IsNext(end, ms[1].boundary, next) && AreZeros(b, end, next)
                             && ArePlaced(ms[1..], b, next, q)
  }

  function Elements(e: Type, vs: seq<Value>): (ms: seq<Member>)
    ensures |ms| == |vs|
  {
    if vs == [] then [] else [Member(e, vs[0], OuterBoundary(e))] + Elements(e, vs[1..])
  }

  function Fields(ts: seq<Type>, vs: seq<Value>): (ms: seq<Member>)
    ensures ms == [] <==> ts == [] || vs == []
  {
    if ts == [] || vs == [] then []
    else [Member(ts[0], vs[0], Boundary(FirstCharacter(ts[0])))] + Fields(ts[1..], vs[1..])
  }

  function Arguments(ts: seq<Type>, vs: seq<Value>): (ms: seq<Member>)
    ensures ms == [] <==> ts == [] || vs == []
  {
    if ts == [] || vs == [] then []
    else [Member(ts[0], vs[0], OuterBoundary(ts[0]))] + Arguments(ts[1..], vs[1..])
  }

  /** Each entry is a key at a multiple of 8 and a value. */
  function KeysAndValues(k: Type, t: Type, es: seq<Entry>): (ms: seq<Member>)
    ensures |ms| == 2 * |es|
  {
    if es == [] then []
    else [Member(k, es[0].key, 8), Member(t, es[0].val, Boundary(FirstCharacter(t)))] + KeysAndValues(k, t, es[1..])
  }

  // ---------- the tables by type ----------

  lemma AlignmentsByCharacter(t: Type)
    ensures MemberAlignment(t) == Boundary(FirstCharacter(t))
    ensures AlignmentOf(t) == OuterBoundary(t)
  {
  }

  /** A number is as wide as it is aligned. */
  lemma WidthsByCharacter(k: FixedKind)
    ensures Width(k) == Boundary(FirstCharacter(Fixed(k)))
  {
  }

  lemma PaddingIsPlaced(b: seq<byte>, p: nat, a: Alignment)
    requires At(b, p, Zeros(PadLen(p, a)))
    ensures IsNext(p, a, AlignUp(p, a)) && AreZeros(b, p, AlignUp(p, a))
  {
    hide PadLen;
    PadLenIsLeast(p, a);
    var z := Zeros(PadLen(p, a));
    forall i | p <= i < p + |z| ensures b[i] == 0 {
      assert b[i] == b[p..p + |z|][i - p];
    }
  }

  lemma NumberIsPlaced(b: seq<byte>, p: nat, n: nat, w: nat)
    requires At(b, p, LE(n, w))
    ensures IsNumber(b, p, p + w, n)
  {
    LEIsLittleEndian(n, w);
  }

  // ---------- basic values ----------

  lemma NumbersAreSpelled(k: FixedKind, n: nat, b: seq<byte>, p: nat)
    requires At(b, p, Enc(Fixed(k), Num(n), p))
    ensures |Enc(Fixed(k), Num(n), p)| == Boundary(FirstCharacter(Fixed(k)))
    ensures IsNumber(b, p, p + Boundary(FirstCharacter(Fixed(k))), n)
  {
    hide LE, IsLittleEndian;
    WidthsByCharacter(k);
    NumberIsPlaced(b, p, n, Width(k));
  }

  /** A length of four bytes, one for a signature, the text, and a NUL. */
  lemma TextsAreSpelled(k: TextKind, s: Text, b: seq<byte>, p: nat)
    requires At(b, p, Enc(Text(k), Txt(s), p))
    ensures var n := if FirstCharacter(Text(k)) == 'g' then 1 else 4;
            && |Enc(Text(k), Txt(s), p)| == n + |s| + 1
            && IsNumber(b, p, p + n, |s|) && At(b, p + n, s) && b[p + n + |s|] == 0
  {
    hide LE, IsLittleEndian;
    TextIsSpelled(k, s, b, p);
  }

  lemma TextIsSpelled(k: TextKind, s: Text, b: seq<byte>, p: nat)
    requires At(b, p, EncText(k, s))
    ensures var n := if k.Signature? then 1 else 4;
            && |EncText(k, s)| == n + |s| + 1
            && IsNumber(b, p, p + n, |s|) && At(b, p + n, s) && b[p + n + |s|] == 0
  {
    hide LE, IsLittleEndian;
    var n := if k.Signature? then 1 else 4;
    AtSplit3(b, p, LE(|s|, n), s, [0]);
    NumberIsPlaced(b, p, |s|, n);
    assert b[p + n + |s|..p + n + |s| + 1][0] == 0;
  }

  // ---------- containers ----------

  /** A length of four bytes, padding that the length does not count, and the members. */
  ghost predicate AreCounted(ms: seq<Member>, boundary: nat, b: seq<byte>, p: nat, q: nat) {
    exists start: nat ::
      && IsNext(p + 4, boundary, start) && start <= q && AreZeros(b, p + 4, start)
      && IsNumber(b, p, p + 4, q - start) && ArePlaced(ms, b, start, q)
  }

  lemma ArraysAreSpelled(e: Type, vs: seq<Value>, b: seq<byte>, p: nat)
    requires At(b, p, Enc(Array(e), List(vs), p))
    ensures AreCounted(Elements(e, vs), OuterBoundary(e), b, p, p + |Enc(Array(e), List(vs), p)|)
  {
    hide LE, PadLen, EncElems, Enc, Zeros, AlignmentOf, OuterBoundary, Elements, ArePlaced, At;
    var start := AlignUp(p + 4, AlignmentOf(e));
    ArrayStep(e, vs, p);
    AlignmentsByCharacter(e);
    LengthAndBody(b, p, start, EncElems(e, vs, start), AlignmentOf(e));
    ElementsArePlaced(e, vs, b, start);
    Counted(Elements(e, vs), AlignmentOf(e), b, p, start, |EncElems(e, vs, start)|);
  }

  lemma Counted(ms: seq<Member>, a: Alignment, b: seq<byte>, p: nat, start: nat, n: nat)
    requires IsNext(p + 4, a, start) && AreZeros(b, p + 4, start) && IsNumber(b, p, p + 4, n)
    requires ArePlaced(ms, b, start, start + n)
    ensures AreCounted(ms, a, b, p, start + n)
  {
    hide ArePlaced, IsNumber, AreZeros, IsNext;
  }

  /** The shape arrays and dictionaries share. */
  lemma LengthAndBody(b: seq<byte>, p: nat, start: nat, body: seq<byte>, a: Alignment)
    requires start == AlignUp(p + 4, a) && At(b, p, LE(|body|, 4) + Zeros(start - p - 4) + body)
    ensures IsNext(p + 4, a, start) && AreZeros(b, p + 4, start) && IsNumber(b, p, p + 4, |body|) && At(b, start, body)
  {
    hide LE, PadLen, Zeros, IsNumber, At, AreZeros, IsNext;
    AtSplit3(b, p, LE(|body|, 4), Zeros(start - p - 4), body);
    NumberIsPlaced(b, p, |body|, 4);
    PaddingIsPlaced(b, p + 4, a);
  }

  lemma {:induction false} ElementsArePlaced(e: Type, vs: seq<Value>, b: seq<byte>, p: nat)
    requires At(b, p, EncElems(e, vs, p))
    ensures ArePlaced(Elements(e, vs), b, p, p + |EncElems(e, vs, p)|)
  {
    hide PadLen, EncElems, Enc, Zeros, AlignmentOf, OuterBoundary, At;
    if vs == [] {
      NoElems(e, p);
    } else {
      var ms, next := Elements(e, vs), NextElem(e, vs, p);
      ElemsStep(e, vs, p);
      AlignmentsByCharacter(e);
      assert ms[0] == Member(e, vs[0], OuterBoundary(e)) && ms[1..] == Elements(e, vs[1..]);
      FirstThenRest(ms, b, p, AlignmentOf(e), EncElems(e, vs[1..], next));
      if |vs| > 1 {
        ElementsArePlaced(e, vs[1..], b, next);
        assert ms[1] == Member(e, vs[1], OuterBoundary(e));
      } else {
        NoElems(e, next);
      }
    }
  }

  /** The first member, the padding behind it, and the bytes of the others. */
  lemma FirstThenRest(ms: seq<Member>, b: seq<byte>, p: nat, a: Alignment, rest: seq<byte>)
    requires ms != []
    requires var end := p + |Enc(ms[0].t, ms[0].v, p)|;
             var next := if |ms| > 1 then AlignUp(end, a) else end;
             At(b, p, Enc(ms[0].t, ms[0].v, p) + Zeros(next - end) + rest)
    ensures At(b, p, Enc(ms[0].t, ms[0].v, p))
    ensures var end := p + |Enc(ms[0].t, ms[0].v, p)|;
            if |ms| == 1 then At(b, end, rest)
            else IsNext(end, a, AlignUp(end, a)) && AreZeros(b, end, AlignUp(end, a)) && At(b, AlignUp(end, a), rest)
  {
    hide PadLen, Enc, Zeros, At;
    var head := Enc(ms[0].t, ms[0].v, p);
    var end := p + |head|;
    var next := if |ms| > 1 then AlignUp(end, a) else end;
    AtSplit3(b, p, head, Zeros(next - end), rest);
    if |ms| > 1 {
      PaddingIsPlaced(b, end, a);
    }
  }

  /** A struct is its fields. */
  lemma StructsAreSpelled(ts: seq<Type>, vs: seq<Value>, b: seq<byte>, p: nat)
    requires |ts| == |vs| && At(b, p, Enc(Struct(ts), Record(vs), p))
    ensures ArePlaced(Fields(ts, vs), b, p, p + |Enc(Struct(ts), Record(vs), p)|)
  {
    hide EncParts, ArePlaced, At;
    PartsArePlaced(InStruct, ts, vs, b, p);
  }

  /** A message body is its arguments. */
  lemma BodiesAreSpelled(ts: seq<Type>, vs: seq<Value>, b: seq<byte>)
    requires |ts| == |vs| && At(b, 0, EncParts(TopLevel, ts, vs, 0))
    ensures ArePlaced(Arguments(ts, vs), b, 0, |EncParts(TopLevel, ts, vs, 0)|)
  {
    hide EncParts, ArePlaced, At;
    PartsArePlaced(TopLevel, ts, vs, b, 0);
  }

  function Parts(layout: Layout, ts: seq<Type>, vs: seq<Value>): seq<Member> {
    if layout.InStruct? then Fields(ts, vs) else Arguments(ts, vs)
  }

  lemma PartsUnfold(layout: Layout, ts: seq<Type>, vs: seq<Value>)
    requires ts != [] && vs != []
    ensures Parts(layout, ts, vs) == [Member(ts[0], vs[0], PartAlignment(layout, ts[0]))] +
            Parts(layout, ts[1..], vs[1..])
  {
    hide OuterBoundary, Boundary, FirstCharacter, AlignmentOf, MemberAlignment;
    AlignmentsByCharacter(ts[0]);
  }

  lemma NoMembers(layout: Layout, ts: seq<Type>, vs: seq<Value>, b: seq<byte>, p: nat)
    requires ts == [] || vs == []
    ensures Parts(layout, ts, vs) == [] && ArePlaced([], b, p, p)
  {
  }

  lemma {:induction false} PartsArePlaced(layout: Layout, ts: seq<Type>, vs: seq<Value>, b: seq<byte>, p: nat)
    requires |ts| == |vs| && At(b, p, EncParts(layout, ts, vs, p))
    ensures ArePlaced(Parts(layout, ts, vs), b, p, p + |EncParts(layout, ts, vs, p)|)
  {
    hide PadLen, EncParts, Enc, Zeros, PartAlignment, Parts, At;
    if vs == [] {
      NoParts(layout, ts, vs, p);
      NoMembers(layout, ts, vs, b, p);
    } else {
      var ms, next := Parts(layout, ts, vs), NextPart(layout, ts, vs, p);
      PartsStep(layout, ts, vs, p);
      PartsUnfold(layout, ts, vs);
      assert ms[0] == Member(ts[0], vs[0], PartAlignment(layout, ts[0])) && ms[1..] == Parts(layout, ts[1..], vs[1..]);
      if |vs| > 1 {
        PartsUnfold(layout, ts[1..], vs[1..]);
        FirstThenRest(ms, b, p, PartAlignment(layout, ts[1]), EncParts(layout, ts[1..], vs[1..], next));
        PartsArePlaced(layout, ts[1..], vs[1..], b, next);
      } else {
        NoMembers(layout, ts[1..], vs[1..], b, p);
        FirstThenRest(ms, b, p, 1, EncParts(layout, ts[1..], vs[1..], next));
        NoParts(layout, ts[1..], vs[1..], next);
      }
    }
  }

  /** A dictionary is counted like an array, and its entries stand at multiples of 8. */
  lemma DictsAreSpelled(k: Type, t: Type, es: seq<Entry>, b: seq<byte>, p: nat)
    requires At(b, p, Enc(Dict(k, t), Map(es), p))
    ensures AreCounted(KeysAndValues(k, t, es), 8, b, p, p + |Enc(Dict(k, t), Map(es), p)|)
  {
    hide LE, PadLen, EncEntries, Enc, Zeros, KeysAndValues, ArePlaced, At;
    var start := AlignUp(p + 4, 8);
    DictStep(k, t, es, p);
    LengthAndBody(b, p, start, EncEntries(k, t, es, start), 8);
    EntriesArePlaced(k, t, es, b, start);
    Counted(KeysAndValues(k, t, es), 8, b, p, start, |EncEntries(k, t, es, start)|);
  }

  lemma {:induction false} EntriesArePlaced(k: Type, t: Type, es: seq<Entry>, b: seq<byte>, p: nat)
    requires At(b, p, EncEntries(k, t, es, p))
    ensures ArePlaced(KeysAndValues(k, t, es), b, p, p + |EncEntries(k, t, es, p)|)
  {
    hide PadLen, EncEntries, EncEntry, Boundary, FirstCharacter, At, KeysAndValues, ArePlaced, Zeros, IsNext, AreZeros;
    if es == [] {
      NoEntries(k, t, p);
      NoMorePlaced(k, t, es, b, p);
    } else {
      var next, end := NextEntry(k, t, es, p), p + |EncEntry(k, t, es[0], p)|;
      EntriesStep(k, t, es, p);
      AtSplit3(b, p, EncEntry(k, t, es[0], p), Zeros(next - end), EncEntries(k, t, es[1..], next));
      if |es| > 1 {
        PaddingIsPlaced(b, end, 8);
        EntriesArePlaced(k, t, es[1..], b, next);
      } else {
        NoEntries(k, t, next);
      }
      EntryIsPlaced(k, t, es, b, p, next, next + |EncEntries(k, t, es[1..], next)|);
    }
  }

  lemma NoMorePlaced(k: Type, t: Type, es: seq<Entry>, b: seq<byte>, p: nat)
    requires es == []
    ensures ArePlaced(KeysAndValues(k, t, es), b, p, p)
  {
  }

  /** One entry in front of others that are placed. */
  lemma EntryIsPlaced(k: Type, t: Type, es: seq<Entry>, b: seq<byte>, p: nat, next: nat, q: nat)
    requires es != [] && At(b, p, EncEntry(k, t, es[0], p))
    requires var end := p + |EncEntry(k, t, es[0], p)|;
             if |es| == 1 then q == end
             else IsNext(end, 8, next) && AreZeros(b, end, next) && ArePlaced(KeysAndValues(k, t, es[1..]), b, next, q)
    ensures ArePlaced(KeysAndValues(k, t, es), b, p, q)
  {
    hide PadLen, EncEntry, Enc, Zeros, Boundary, FirstCharacter, At, MemberAlignment, IsNext, AreZeros, KeysAndValues,
         ArePlaced;
    var ms, at := KeysAndValues(k, t, es), EntryValueAt(k, t, es[0], p);
    KeyThenValue(k, t, es);
    EntryStep(k, t, es[0], p);
    AlignmentsByCharacter(t);
    FirstThenRest(ms, b, p, MemberAlignment(t), Enc(t, es[0].val, at));
    if |es| > 1 {
      KeyThenValue(k, t, es[1..]);
      OneMorePlaced(ms[1..], b, at, next, q);
    } else {
      LastPlaced(ms[1..], b, at);
    }
    OneMorePlaced(ms, b, p, at, q);
  }

  lemma KeyThenValue(k: Type, t: Type, es: seq<Entry>)
    requires es != []
    ensures var ms := KeysAndValues(k, t, es);
            && |ms| >= 2 && ms[0] == Member(k, es[0].key, 8)
            && ms[1] == Member(t, es[0].val, Boundary(FirstCharacter(t))) &&
                ms[1..][1..] == KeysAndValues(k, t, es[1..])
            && (|es| == 1 <==> |ms| == 2)
  {
    hide Boundary, FirstCharacter;
  }

  lemma OneMorePlaced(ms: seq<Member>, b: seq<byte>, p: nat, next: nat, q: nat)
    requires |ms| > 1 && At(b, p, Enc(ms[0].t, ms[0].v, p))
    requires var end := p + |Enc(ms[0].t, ms[0].v, p)|; IsNext(end, ms[1].boundary, next) && AreZeros(b, end, next)
    requires ArePlaced(ms[1..], b, next, q)
    ensures ArePlaced(ms, b, p, q)
  {
    hide Enc, At, IsNext, AreZeros;
  }

  lemma LastPlaced(ms: seq<Member>, b: seq<byte>, p: nat)
    requires |ms| == 1 && At(b, p, Enc(ms[0].t, ms[0].v, p))
    ensures ArePlaced(ms, b, p, p + |Enc(ms[0].t, ms[0].v, p)|)
  {
    hide Enc, At;
  }

  /** A variant is a signature, and its payload at the boundary of its type. */
  lemma VariantsAreSpelled(u: Type, w: Value, b: seq<byte>, p: nat)
    requires At(b, p, Enc(Variant, Boxed(u, w), p))
    ensures var behind := p + |Sig(u)| + 2;
            && IsNumber(b, p, p + 1, |Sig(u)|) && At(b, p + 1, Sig(u)) && b[behind - 1] == 0
            && exists start: nat :: IsNext(behind, OuterBoundary(u), start) && AreZeros(b, behind, start)
                 && At(b, start, Enc(u, w, start)) && p + |Enc(Variant, Boxed(u, w), p)| == start + |Enc(u, w, start)|
  {
    hide PadLen, Enc, Zeros, OuterBoundary, AlignmentOf, At, EncText, Sig, IsNumber, IsNext, AreZeros;
    var sig, start := EncText(Signature, Sig(u)), PayloadStart(u, p);
    BoxStep(u, w, p);
    AtSplit3(b, p, sig, Zeros(start - p - |sig|), Enc(u, w, start));
    TextIsSpelled(Signature, Sig(u), b, p);
    PaddingIsPlaced(b, p + |sig|, AlignmentOf(u));
    AlignmentsByCharacter(u);
  }

  // ---------- what is refused ----------

  lemma TextIsAcceptedIff(k: TextKind, s: Text, p: nat)
    ensures FaultOf(Text(k), Txt(s), p) == if Code('\0') in s then Some(NulInText) else None
  {
  }

  /** Numbers are never refused; other elements are when they take 64 MiB, padding
      between them included, or when one of them is. */
  lemma ArrayIsAcceptedIff(e: Type, vs: seq<Value>, p: nat)
    ensures Accepts(Array(e), List(vs), p) <==>
            || (|Sig(e)| == 1 && FirstCharacter(e) in "ybnqiuxtd")
            || (var start := AlignUp(p + 4, AlignmentOf(e));
                AcceptsElems(e, vs, start) && |EncElems(e, vs, start)| < 67108864)
  {
    hide EncElems, FaultOfElems, PadLen;
    NumberCharacters(e);
    ArrayStep(e, vs, p);
  }

  lemma NumberCharacters(e: Type)
    ensures e.Fixed? <==> |Sig(e)| == 1 && FirstCharacter(e) in "ybnqiuxtd"
  {
  }
}
