/** The way of the flat interpreter through a payload of any type: how far it goes
    along with the encoding, and what it takes for the rest of the signature there. */
module VariantCourses {
  import opened Bytes
  import opened Options
  import opened Types
  import opened Signatures
  import opened Encoding
  import opened Decoding
  import opened Walking
  import opened VariantWalks
  import opened RoundTrip

  /** The codes that stand before those behind the value, and the cursor: at the end of
      a value that was read as it was written, or where the two first differ. */
  datatype Course = Course(left: Text, at: nat)

  /** The course over a value written at `q`, from the cursor `p` before its padding. */
  function CourseOf(t: Type, v: Value, p: nat, q: nat): Course
    decreases v
  {
    var end := q + |Enc(t, v, q)|;
    match v
    case List(vs) =>
      if !t.Array? || SingleCode(t.elem) then Course([], end)
      else if t.elem.Dict? then
        Course(BehindBrace(t.elem.val), AlignUp(q + 4 + |EncElems(t.elem, vs, AlignUp(q + 4, 8))|, 8))
      else Course(Sig(t.elem)[1..], end)
    case Map(_) =>
      if !t.Dict? then Course([], end)
      else Course(BehindBrace(t.val), if AlignUp(p, 4) == q then AlignUp(end, 8) else q)
    case Record(vs) =>
      if !t.Struct? then Course([], end)
      else
        var fields := CourseOfParts(t.fields, vs, q);
        if fields == Course([], end) then fields else Course(fields.left + [STRUCT_END], fields.at)
    case Boxed(u, w) => CourseOf(u, w, q + |EncText(Signature, Sig(u))|, PayloadStart(u, q))
    case _ => Course([], end)
  }

  /** Over the fields of a struct, from the cursor before the padding of the first. */
  function CourseOfParts(ts: seq<Type>, vs: seq<Value>, p: nat): Course
    decreases vs
  {
    if ts == [] || vs == [] then Course([], p)
    else
      var q := AlignUp(p, MemberAlignment(ts[0]));
      var end := q + |Enc(ts[0], vs[0], q)|;
      var head := CourseOf(ts[0], vs[0], p, q);
      if head == Course([], end) then CourseOfParts(ts[1..], vs[1..], end)
      else Course(head.left + Sigs(ts[1..]), head.at)
  }

  /** Signatures of at most 255 bytes wherever the interpreter itself reads one. */
  predicate Legible(t: Type, v: Value)
    decreases v
  {
    match v
    case Txt(s) => t == Text(TextKind.Signature) ==> |s| < 256
    case Record(vs) => t.Struct? ==> PartsLegible(t.fields, vs)
    case Boxed(u, w) => |Sig(u)| < 256 && Legible(u, w)
    case Slice(_, _) => false
    case _ => true
  }

  predicate PartsLegible(ts: seq<Type>, vs: seq<Value>)
    decreases vs
  {
    ts == [] || vs == [] || (Legible(ts[0], vs[0]) && PartsLegible(ts[1..], vs[1..]))
  }

  /** Where a value may have been written, seen from the cursor before its padding: as
      the member of a struct, or as the payload of a variant. */
  predicate MayStart(t: Type, p: nat, q: nat) {
    q == AlignUp(p, MemberAlignment(t)) || q == AlignUp(p, AlignmentOf(t))
  }

  /** The interpreter keeps to the course, whatever the type, the value, the codes
      behind them and the buffer. */
  lemma {:induction false} WalkKeepsToCourse(t: Type, v: Value, rest: Text, b: seq<byte>, p: nat, q: nat)
    requires WellFormed(t) && Typed(t, v) && Legible(t, v) && |b| < TWO_TO_THE_32
    requires MayStart(t, p, q) && At(b, p, Zeros(q - p) + Enc(t, v, q))
    ensures Walk(Sig(t) + rest, b, p) == Walk(CourseOf(t, v, p, q).left + rest, b, CourseOf(t, v, p, q).at)
    decreases v, 1
  {
    hide PadLen, Walk, Enc, At, Zeros, Sig, WellFormed, Typed;
    AtSplit(b, p, Zeros(q - p), Enc(t, v, q));
    if v.Record? {
      CourseOfStruct(t, v, rest, b, p, q);
    } else if v.Boxed? {
      CourseOfBoxed(t, v, rest, b, p, q);
    } else if v.List? {
      CourseOfArray(t, v, rest, b, p, q);
    } else if v.Map? {
      CourseOfDict(t, v, rest, b, p, q);
    } else {
      CourseOfBasic(t, v, rest, b, p, q);
    }
  }

  lemma Straight(rest: Text)
    ensures [] + rest == rest
  {
  }

  lemma NoPadding(s: seq<byte>)
    ensures Zeros(0) + s == s
  {
  }

  lemma CourseOfBasic(t: Type, v: Value, rest: Text, b: seq<byte>, p: nat, q: nat)
    requires (v.Num? || v.Txt?) && WellFormed(t) && Typed(t, v) && Legible(t, v) && |b| < TWO_TO_THE_32
    requires MayStart(t, p, q) && At(b, q, Enc(t, v, q))
    ensures Walk(Sig(t) + rest, b, p) == Walk(CourseOf(t, v, p, q).left + rest, b, CourseOf(t, v, p, q).at)
  {
    hide PadLen, Walk, Enc, At, Sig;
    Straight(rest);
    WalkSkips(t, v, rest, b, p);
  }

  lemma CourseOfArray(t: Type, v: Value, rest: Text, b: seq<byte>, p: nat, q: nat)
    requires v.List? && WellFormed(t) && Typed(t, v) && |b| < TWO_TO_THE_32
    requires MayStart(t, p, q) && At(b, q, Enc(t, v, q))
    ensures Walk(Sig(t) + rest, b, p) == Walk(CourseOf(t, v, p, q).left + rest, b, CourseOf(t, v, p, q).at)
  {
    hide PadLen, Walk, Enc, At, Sig, BehindBrace, EncElems, AllTyped;
    ArrayTypeIs(t, v);
    if SingleCode(t.elem) {
      Straight(rest);
      WalkSkips(t, v, rest, b, p);
    } else if t.elem.Dict? {
      var body := ArrayOfDictsWalk(t.elem.key, t.elem.val, v.elems, rest, b, p);
    } else {
      WalkPastArray(t.elem, v.elems, rest, b, p);
    }
  }

  lemma ArrayTypeIs(t: Type, v: Value)
    requires v.List? && WellFormed(t) && Typed(t, v)
    ensures t.Array? && t == Array(t.elem) && v == List(v.elems) && WellFormed(t.elem)
    ensures SingleCode(t.elem) ==> Walkable(t, v)
    ensures MemberAlignment(t) == AlignmentOf(t) == 4
  {
  }

  lemma CourseOfDict(t: Type, v: Value, rest: Text, b: seq<byte>, p: nat, q: nat)
    requires v.Map? && WellFormed(t) && Typed(t, v) && |b| < TWO_TO_THE_32
    requires MayStart(t, p, q) && At(b, p, Zeros(q - p)) && At(b, q, Enc(t, v, q))
    ensures Walk(Sig(t) + rest, b, p) == Walk(CourseOf(t, v, p, q).left + rest, b, CourseOf(t, v, p, q).at)
  {
    hide PadLen, Walk, Enc, At, Sig, BehindBrace, EntriesTyped, Zeros;
    var k, u := t.key, t.val;
    if AlignUp(p, 4) == q {
      DictWalkAligned(k, u, v.entries, rest, b, p);
    } else {
      DictWalkMisaligned(k, u, rest, b, p);
    }
  }

  lemma {:induction false} CourseOfBoxed(t: Type, v: Value, rest: Text, b: seq<byte>, p: nat, q: nat)
    requires v.Boxed? && Typed(t, v) && Legible(t, v) && |b| < TWO_TO_THE_32
    requires MayStart(t, p, q) && At(b, q, Enc(t, v, q))
    ensures Walk(Sig(t) + rest, b, p) == Walk(CourseOf(t, v, p, q).left + rest, b, CourseOf(t, v, p, q).at)
    decreases v, 0
  {
    hide PadLen, Walk, Enc, WellFormed, EncText, At, Zeros, AlignmentOf;
    VariantAnywhere(p);
    var u, w := v.t, v.v;
    var sig, start := EncText(Signature, Sig(u)), PayloadStart(u, p);
    BoxStep(u, w, p);
    Regroup(sig, Zeros(start - p - |sig|), Enc(u, w, start));
    AtSplit(b, p, sig, Zeros(start - p - |sig|) + Enc(u, w, start));
    WalkNested(Sig(u), rest, b, p);
    WalkKeepsToCourse(u, w, rest, b, p + |sig|, start);
  }

  lemma VariantAnywhere(p: nat)
    ensures AlignUp(p, MemberAlignment(Variant)) == p && AlignUp(p, AlignmentOf(Variant)) == p
  {
  }

  lemma {:induction false} CourseOfStruct(t: Type, v: Value, rest: Text, b: seq<byte>, p: nat, q: nat)
    requires v.Record? && WellFormed(t) && Typed(t, v) && Legible(t, v) && |b| < TWO_TO_THE_32
    requires MayStart(t, p, q) && At(b, q, Enc(t, v, q))
    ensures Walk(Sig(t) + rest, b, p) == Walk(CourseOf(t, v, p, q).left + rest, b, CourseOf(t, v, p, q).at)
    decreases v, 0
  {
    hide PadLen, Walk, Enc, EncParts, Typed, Legible, WellFormed, PartsTyped, PartsLegible, AllWellFormed, Sig, Sigs,
         MemberAlignment, At, Zeros, CourseOfParts, MayStart;
    StructIs(t, v, p, q);
    var ts, vs := t.fields, v.parts;
    FirstStartsStruct(ts, p, q);
    StructSig(ts, rest);
    WalkBracket(Sigs(ts) + ([STRUCT_END] + rest), b, p);
    NoPadding(EncParts(InStruct, ts, vs, q));
    WalkKeepsToParts(ts, vs, [STRUCT_END] + rest, b, q);
    var c := CourseOfParts(ts, vs, q);
    Regroup(c.left, [STRUCT_END], rest);
    Straight([STRUCT_END] + rest);
    Straight(rest);
    WalkBracket(rest, b, c.at);
  }

  lemma StructIs(t: Type, v: Value, p: nat, q: nat)
    requires v.Record? && WellFormed(t) && Typed(t, v) && Legible(t, v) && MayStart(t, p, q)
    ensures t.Struct? && t.fields != [] && AllWellFormed(t.fields)
    ensures PartsTyped(t.fields, v.parts) && PartsLegible(t.fields, v.parts)
    ensures Enc(t, v, q) == EncParts(InStruct, t.fields, v.parts, q)
    ensures q == AlignUp(p, 8)
  {
    hide EncParts, PartsTyped, PartsLegible, AllWellFormed, PadLen;
  }

  lemma FirstStartsStruct(ts: seq<Type>, p: nat, q: nat)
    requires ts != [] && q == AlignUp(p, 8)
    ensures AlignUp(q, MemberAlignment(ts[0])) == q
  {
    AlignUpIsAligned(p, 8);
    AlignedIsWeaker(q, 8, MemberAlignment(ts[0]));
  }

  lemma {:induction false} WalkKeepsToParts(ts: seq<Type>, vs: seq<Value>, rest: Text, b: seq<byte>, p: nat)
    requires ts != [] && AllWellFormed(ts) && PartsTyped(ts, vs) && PartsLegible(ts, vs) && |b| < TWO_TO_THE_32
    requires var q := AlignUp(p, MemberAlignment(ts[0])); At(b, p, Zeros(q - p) + EncParts(InStruct, ts, vs, q))
    ensures Walk(Sigs(ts) + rest, b, p) == Walk(CourseOfParts(ts, vs, p).left + rest, b, CourseOfParts(ts, vs, p).at)
    decreases vs, 0
  {
    hide PadLen, Walk, Enc, EncParts, MemberAlignment, Sig, Sigs, PartsLegible, PartsTyped, AllWellFormed, WellFormed,
         Typed, Legible, At, Zeros, CourseOf;
    FirstOfParts(ts, vs);
    var q := AlignUp(p, MemberAlignment(ts[0]));
    var end := q + |Enc(ts[0], vs[0], q)|;
    FirstInPlace(ts, vs, b, p);
    SigsHead(ts, rest);
    WalkKeepsToCourse(ts[0], vs[0], Sigs(ts[1..]) + rest, b, p, q);
    var head := CourseOf(ts[0], vs[0], p, q);
    Regroup(head.left, Sigs(ts[1..]), rest);
    Straight(Sigs(ts[1..]) + rest);
    Straight(rest);
    if head == Course([], end) && |ts| > 1 {
      WalkKeepsToParts(ts[1..], vs[1..], rest, b, end);
    }
  }

  lemma FirstOfParts(ts: seq<Type>, vs: seq<Value>)
    requires ts != [] && AllWellFormed(ts) && PartsTyped(ts, vs) && PartsLegible(ts, vs)
    ensures vs != [] && WellFormed(ts[0]) && Typed(ts[0], vs[0]) && Legible(ts[0], vs[0])
    ensures AllWellFormed(ts[1..]) && PartsTyped(ts[1..], vs[1..]) && PartsLegible(ts[1..], vs[1..])
    ensures |ts| == 1 ==> ts[1..] == [] && Sigs(ts[1..]) == []
  {
    hide WellFormed, Typed, Legible;
  }

  /** The first field with its padding, and behind it the others with theirs. */
  lemma FirstInPlace(ts: seq<Type>, vs: seq<Value>, b: seq<byte>, p: nat)
    requires ts != [] && vs != []
    requires var q := AlignUp(p, MemberAlignment(ts[0])); At(b, p, Zeros(q - p) + EncParts(InStruct, ts, vs, q))
    ensures var q := AlignUp(p, MemberAlignment(ts[0]));
            var end := q + |Enc(ts[0], vs[0], q)|;
            && At(b, p, Zeros(q - p) + Enc(ts[0], vs[0], q))
            && (|ts| > 1 ==>
                  var next := AlignUp(end, MemberAlignment(ts[1]));
                  At(b, end, Zeros(next - end) + EncParts(InStruct, ts[1..], vs[1..], next)))
  {
    hide PadLen, Enc, EncParts, MemberAlignment, At, Zeros;
    var q := AlignUp(p, MemberAlignment(ts[0]));
    var head, next := Enc(ts[0], vs[0], q), NextPart(InStruct, ts, vs, q);
    var pad, gap, tail := Zeros(q - p), Zeros(next - q - |head|), EncParts(InStruct, ts[1..], vs[1..], next);
    PartsStep(InStruct, ts, vs, q);
    FourPieces(b, p, pad, head, gap, tail);
  }

  lemma FourPieces(b: seq<byte>, p: nat, pad: seq<byte>, head: seq<byte>, gap: seq<byte>, tail: seq<byte>)
    requires At(b, p, pad + (head + gap + tail))
    ensures At(b, p, pad + head) && At(b, p + |pad| + |head|, gap + tail)
  {
    hide At;
    Regroup(pad, head + gap, tail);
    Regroup(pad, head, gap);
    Regroup(pad + head, gap, tail);
    AtSplit(b, p, pad + head, gap + tail);
  }

  // ---------- when a payload is delimited ----------

  lemma {:induction false} ResumesThen(codes: Text, rest: Text)
    requires Resumes(codes) && Resumes(rest)
    ensures Resumes(codes + rest)
  {
    if codes == [] {
      Straight(rest);
    } else if Closes(codes[0]) {
      ClosingStartsNoType(codes);
      ResumesThen(codes[1..], rest);
      assert (codes + rest)[1..] == codes[1..] + rest;
    } else {
      var t: Type, x: Text :| WellFormed(t) && codes == Sig(t) + x;
      Regroup(Sig(t), x, rest);
      assert StartsType(codes + rest);
    }
  }

  lemma SigsResume(ts: seq<Type>)
    requires AllWellFormed(ts)
    ensures Resumes(Sigs(ts)) && Resumes(Sigs(ts) + [STRUCT_END])
  {
    hide Sigs;
    TypesResume(ts, []);
    NothingBehind(Sigs(ts));
    assert [STRUCT_END][1..] == [];
    TypesResume(ts, [STRUCT_END]);
  }

  lemma ElementResumes(e: Type)
    requires WellFormed(e) && (e.Array? || e.Struct?)
    ensures Resumes(Sig(e)[1..])
  {
    hide Resumes, Sig;
    if e.Array? {
      ElementSig(e);
      NothingBehind(Sig(e.elem));
      AType(e.elem);
    } else {
      StructTail(e.fields);
      FieldsAre(e);
      SigsResume(e.fields);
    }
  }

  lemma AType(t: Type)
    requires WellFormed(t)
    ensures Resumes(Sig(t) + [])
  {
    assert StartsType(Sig(t) + []);
  }

  lemma FieldsAre(t: Type)
    requires t.Struct? && WellFormed(t)
    ensures t == Struct(t.fields) && AllWellFormed(t.fields)
  {
  }

  lemma {:induction false} CourseResumes(t: Type, v: Value, p: nat, q: nat)
    requires WellFormed(t) && Typed(t, v)
    ensures Resumes(CourseOf(t, v, p, q).left)
    decreases v, 1
  {
    hide Resumes, Sig, BehindBrace, Enc, EncElems, PadLen, CourseOfParts, PartsTyped, AllTyped, EntriesTyped,
         AllWellFormed;
    NothingResumes();
    match v {
      case Record(vs) =>
        FieldsAre(t);
        PartsResume(t.fields, vs, q);
        ClosingResumes(STRUCT_END, []);
        assert [STRUCT_END] + [] == [STRUCT_END];
        ResumesThen(CourseOfParts(t.fields, vs, q).left, [STRUCT_END]);
      case Boxed(u, w) => CourseResumes(u, w, q + |EncText(Signature, Sig(u))|, PayloadStart(u, q));
      case List(vs) =>
        if t.elem.Dict? {
          BehindBraceResumes(t.elem.val);
        } else if !SingleCode(t.elem) {
          ElementResumes(t.elem);
        }
      case Map(_) => BehindBraceResumes(t.val);
      case _ =>
    }
  }

  lemma NothingResumes()
    ensures Resumes([])
  {
  }

  lemma {:induction false} PartsResume(ts: seq<Type>, vs: seq<Value>, p: nat)
    requires AllWellFormed(ts) && PartsTyped(ts, vs)
    ensures Resumes(CourseOfParts(ts, vs, p).left)
    decreases vs, 0
  {
    hide Resumes, Sigs, Enc, PadLen, CourseOf, WellFormed, Typed, MemberAlignment;
    NothingResumes();
    if ts != [] && vs != [] {
      var q := AlignUp(p, MemberAlignment(ts[0]));
      CourseResumes(ts[0], vs[0], p, q);
      PartsResume(ts[1..], vs[1..], q + |Enc(ts[0], vs[0], q)|);
      SigsResume(ts[1..]);
      ResumesThen(CourseOf(ts[0], vs[0], p, q).left, Sigs(ts[1..]));
    }
  }

  /** A payload of any type is read exactly to its end if and only if its course ends
      there with nothing but closing codes left; or leaves the encoding before its
      end, and the codes left happen to read on to the end. */
  lemma PayloadIsDelimitedIff(u: Type, w: Value, b: seq<byte>, p: nat)
    requires WellFormed(u) && Typed(u, w) && Legible(u, w) && |b| < TWO_TO_THE_32
    requires var q := AlignUp(p, AlignmentOf(u)); At(b, p, Zeros(q - p) + Enc(u, w, q))
    ensures var q := AlignUp(p, AlignmentOf(u));
            var end, c := q + |Enc(u, w, q)|, CourseOf(u, w, p, q);
            Walk(Sig(u), b, p) == Ok((), end)
            <==> || (c.at == end && OnlyCloses(c.left))
                 || (c.at < end && !OnlyCloses(c.left) && Walk(c.left, b, c.at) == Ok((), end))
  {
    hide PadLen, Walk, Enc, At, Zeros, Sig, CourseOf, OnlyCloses, Resumes, Typed, Legible;
    var q := AlignUp(p, AlignmentOf(u));
    var c := CourseOf(u, w, p, q);
    WalkKeepsToCourse(u, w, [], b, p, q);
    NothingBehind(Sig(u));
    NothingBehind(c.left);
    CourseResumes(u, w, p, q);
    RestMoves(c.left, b, c.at);
  }

  // ---------- payloads the interpreter is made for ----------

  /** Basic values, variants, arrays whose element is one type code, and structs of these. */
  predicate IsPayload(u: Type) {
    match u
    case Fixed(_) => true
    case Text(_) => true
    case Variant => true
    case Array(e) => SingleCode(e) && e != Fixed(Bool)
    case Struct(ts) => ts != [] && ArePayloads(ts)
    case Dict(_, _) => false
  }

  predicate ArePayloads(ts: seq<Type>) {
    ts == [] || (IsPayload(ts[0]) && ArePayloads(ts[1..]))
  }

  /** Of any other type no value is walkable. */
  lemma {:induction false} WalkableIsPayload(u: Type, w: Value)
    requires WellFormed(u) && Typed(u, w) && Walkable(u, w)
    ensures IsPayload(u)
    decreases w, 1
  {
    if w.Record? {
      WalkableArePayloads(u.fields, w.parts);
    }
  }

  lemma {:induction false} WalkableArePayloads(ts: seq<Type>, vs: seq<Value>)
    requires AllWellFormed(ts) && PartsTyped(ts, vs) && PartsWalkable(ts, vs)
    ensures ArePayloads(ts)
    decreases vs, 0
  {
    if vs != [] {
      WalkableIsPayload(ts[0], vs[0]);
      WalkableArePayloads(ts[1..], vs[1..]);
    }
  }

  lemma {:induction false} PayloadIsWalkable(u: Type, w: Value)
    requires IsPayload(u) && Typed(u, w) && Readable(u, w)
    ensures WellFormed(u) && Walkable(u, w)
    decreases w, 1
  {
    if w.Record? {
      PayloadsAreWalkable(u.fields, w.parts);
    }
  }

  lemma {:induction false} PayloadsAreWalkable(ts: seq<Type>, vs: seq<Value>)
    requires ArePayloads(ts) && PartsTyped(ts, vs) && PartsReadable(ts, vs)
    ensures AllWellFormed(ts) && PartsWalkable(ts, vs)
    decreases vs, 0
  {
    if vs != [] {
      PayloadIsWalkable(ts[0], vs[0]);
      PayloadsAreWalkable(ts[1..], vs[1..]);
    }
  }

  /** Over a walkable value the course is the encoding. */
  lemma {:induction false} WalkableStaysOnCourse(t: Type, v: Value, p: nat, q: nat)
    requires WellFormed(t) && Typed(t, v) && Walkable(t, v) && MayStart(t, p, q)
    ensures CourseOf(t, v, p, q) == Course([], q + |Enc(t, v, q)|)
    decreases v, 1
  {
    hide PadLen, Enc, EncText, EncParts, AlignmentOf, CourseOfParts, Sig, WellFormed, Typed, PartsTyped, PartsWalkable,
         AllWellFormed;
    if v.Record? {
      WalkableIsLegible(t, v);
      StructIs(t, v, p, q);
      StructWalks(t, v);
      FirstStartsStruct(t.fields, p, q);
      WalkablePartsStay(t.fields, v.parts, q);
    } else if v.Boxed? {
      BoxedIs(t, v);
      WalkableStaysOnCourse(v.t, v.v, q + |EncText(Signature, Sig(v.t))|, PayloadStart(v.t, q));
      BoxStep(v.t, v.v, q);
    } else {
      NoCourse(t, v, p, q);
    }
  }

  lemma NoCourse(t: Type, v: Value, p: nat, q: nat)
    requires Typed(t, v) && Walkable(t, v) && !v.Record? && !v.Boxed?
    ensures CourseOf(t, v, p, q) == Course([], q + |Enc(t, v, q)|)
  {
    hide Enc;
  }

  lemma BoxedIs(t: Type, v: Value)
    requires v.Boxed? && Typed(t, v) && Walkable(t, v)
    ensures t.Variant? && WellFormed(v.t) && Typed(v.t, v.v) && Walkable(v.t, v.v) && v == Boxed(v.t, v.v)
  {
  }

  lemma StructWalks(t: Type, v: Value)
    requires v.Record? && t.Struct? && Walkable(t, v)
    ensures PartsWalkable(t.fields, v.parts)
  {
  }

  lemma {:induction false} WalkableIsLegible(t: Type, v: Value)
    requires Typed(t, v) && Walkable(t, v)
    ensures Legible(t, v)
    decreases v, 1
  {
    if v.Record? {
      WalkablePartsAreLegible(t.fields, v.parts);
    } else if v.Boxed? {
      WalkableIsLegible(v.t, v.v);
    }
  }

  lemma {:induction false} WalkablePartsAreLegible(ts: seq<Type>, vs: seq<Value>)
    requires PartsTyped(ts, vs) && PartsWalkable(ts, vs)
    ensures PartsLegible(ts, vs)
    decreases vs, 0
  {
    if vs != [] {
      WalkableIsLegible(ts[0], vs[0]);
      WalkablePartsAreLegible(ts[1..], vs[1..]);
    }
  }

  lemma {:induction false} WalkablePartsStay(ts: seq<Type>, vs: seq<Value>, p: nat)
    requires ts != [] && AllWellFormed(ts) && PartsTyped(ts, vs) && PartsWalkable(ts, vs)
    ensures var q := AlignUp(p, MemberAlignment(ts[0]));
            CourseOfParts(ts, vs, p) == Course([], q + |EncParts(InStruct, ts, vs, q)|)
    decreases vs, 0
  {
    hide PadLen, Enc, EncParts, MemberAlignment, CourseOf, Walkable, Typed, WellFormed;
    HeadPart(ts, vs);
    var q := AlignUp(p, MemberAlignment(ts[0]));
    WalkableStaysOnCourse(ts[0], vs[0], p, q);
    PartsEnd(ts, vs, q);
    StaysThen(ts, vs, p);
    if |ts| > 1 {
      WalkablePartsStay(ts[1..], vs[1..], q + |Enc(ts[0], vs[0], q)|);
    } else {
      NoFieldsNoCourse(ts[1..], vs[1..], q + |Enc(ts[0], vs[0], q)|);
    }
  }

  lemma StaysThen(ts: seq<Type>, vs: seq<Value>, p: nat)
    requires ts != [] && vs != []
    requires var q := AlignUp(p, MemberAlignment(ts[0]));
             CourseOf(ts[0], vs[0], p, q) == Course([], q + |Enc(ts[0], vs[0], q)|)
    ensures var q := AlignUp(p, MemberAlignment(ts[0]));
            CourseOfParts(ts, vs, p) == CourseOfParts(ts[1..], vs[1..], q + |Enc(ts[0], vs[0], q)|)
  {
    hide PadLen, Enc, MemberAlignment, CourseOf, Sigs;
  }

  lemma NoFieldsNoCourse(ts: seq<Type>, vs: seq<Value>, p: nat)
    requires ts == []
    ensures CourseOfParts(ts, vs, p) == Course([], p)
  {
    hide CourseOf;
  }

  /** Where the encoding of the fields ends, by its first. */
  lemma PartsEnd(ts: seq<Type>, vs: seq<Value>, q: nat)
    requires ts != [] && vs != []
    ensures var end := q + |Enc(ts[0], vs[0], q)|;
            q + |EncParts(InStruct, ts, vs, q)| ==
            if |ts| == 1 then end
            else
              var next := AlignUp(end, MemberAlignment(ts[1]));
              next + |EncParts(InStruct, ts[1..], vs[1..], next)|
  {
    hide PadLen, Enc, EncParts, MemberAlignment;
    PartsStep(InStruct, ts, vs, q);
    if |ts| == 1 {
      NoParts(InStruct, ts[1..], vs[1..], NextPart(InStruct, ts, vs, q));
    }
  }

  // ---------- structs that end in a dictionary ----------

  predicate AllButLastWalkable(ts: seq<Type>, vs: seq<Value>) {
    |ts| <= 1 || |vs| <= 1 || (Walkable(ts[0], vs[0]) && AllButLastWalkable(ts[1..], vs[1..]))
  }

  lemma {:induction false} LastDictCourse(ts: seq<Type>, vs: seq<Value>, p: nat)
    requires ts != [] && AllWellFormed(ts) && PartsTyped(ts, vs) && AllButLastWalkable(ts, vs) && ts[|ts| - 1].Dict?
    ensures var q := AlignUp(p, MemberAlignment(ts[0]));
            CourseOfParts(ts, vs, p) ==
            Course(BehindBrace(ts[|ts| - 1].val), AlignUp(q + |EncParts(InStruct, ts, vs, q)|, 8))
    decreases |ts|
  {
    hide PadLen, Enc, EncParts, MemberAlignment, CourseOf, CourseOfParts, Walkable, Typed, WellFormed, BehindBrace,
         PartsTyped, AllWellFormed, AllButLastWalkable;
    FirstIs(ts, vs);
    var q := AlignUp(p, MemberAlignment(ts[0]));
    PartsEnd(ts, vs, q);
    if |ts| > 1 {
      WalkableStaysOnCourse(ts[0], vs[0], p, q);
      StaysThen(ts, vs, p);
      LastDictCourse(ts[1..], vs[1..], q + |Enc(ts[0], vs[0], q)|);
    } else {
      DictMember(ts[0], vs[0], p);
      LastCourse(ts, vs, p);
    }
  }

  lemma LastCourse(ts: seq<Type>, vs: seq<Value>, p: nat)
    requires |ts| == 1 && vs != []
    ensures CourseOfParts(ts, vs, p) == CourseOf(ts[0], vs[0], p, AlignUp(p, MemberAlignment(ts[0])))
  {
    hide PadLen, Enc, MemberAlignment, CourseOf;
    var q := AlignUp(p, MemberAlignment(ts[0]));
    NoFieldsNoCourse(ts[1..], vs[1..], q + |Enc(ts[0], vs[0], q)|);
    NothingBehind(CourseOf(ts[0], vs[0], p, q).left);
  }

  lemma FirstIs(ts: seq<Type>, vs: seq<Value>)
    requires ts != [] && AllWellFormed(ts) && PartsTyped(ts, vs) && AllButLastWalkable(ts, vs)
    ensures vs != [] && WellFormed(ts[0]) && Typed(ts[0], vs[0]) && AllWellFormed(ts[1..]) &&
            PartsTyped(ts[1..], vs[1..])
    ensures |ts| > 1 ==> Walkable(ts[0], vs[0]) && AllButLastWalkable(ts[1..], vs[1..])
    ensures |ts| == 1 ==> ts[1..] == [] && Sigs(ts[1..]) == []
  {
    hide WellFormed, Typed, Walkable;
    if |ts| > 1 {
      assert ts[1..] != [];
      assert vs[1..] != [];
    }
  }

  lemma DictMember(t: Type, v: Value, p: nat)
    requires t.Dict? && Typed(t, v)
    ensures var q := AlignUp(p, MemberAlignment(t));
            CourseOf(t, v, p, q) == Course(BehindBrace(t.val), AlignUp(q + |Enc(t, v, q)|, 8))
  {
    hide PadLen, Enc, BehindBrace;
  }

  /** A struct payload whose last field is a dictionary, behind walkable fields: with
      nothing but closing codes behind the brace, it is read exactly to its end if
      and only if it ends at a multiple of 8. */
  lemma LastDictIsDelimitedIff(ts: seq<Type>, vs: seq<Value>, b: seq<byte>, p: nat)
    requires ts != [] && WellFormed(Struct(ts)) && PartsTyped(ts, vs) && PartsLegible(ts, vs)
    requires AllButLastWalkable(ts, vs) && ts[|ts| - 1].Dict? && OnlyCloses(BehindBrace(ts[|ts| - 1].val))
    requires |b| < TWO_TO_THE_32
    requires var q := AlignUp(p, 8); At(b, p, Zeros(q - p) + Enc(Struct(ts), Record(vs), q))
    ensures var end := AlignUp(p, 8) + |Enc(Struct(ts), Record(vs), AlignUp(p, 8))|;
            && (Walk(Sig(Struct(ts)), b, p) == Ok((), end) <==> end % 8 == 0)
            && Walk(Sig(Struct(ts)), b, p) == Ok((), AlignUp(end, 8))
  {
    hide PadLen, Walk, Enc, EncParts, At, Zeros, Sig, Resumes, CourseOf, PartsTyped, PartsLegible, OnlyCloses,
         WellFormed,
         AllButLastWalkable, BehindBrace;
    var u, w, q := Struct(ts), Record(vs), AlignUp(p, 8);
    StructIs(u, w, p, q);
    WalkKeepsToCourse(u, w, [], b, p, q);
    NothingBehind(Sig(u));
    var c := CourseOf(u, w, p, q);
    NothingBehind(c.left);
    CourseResumes(u, w, p, q);
    LastDictInStruct(ts, vs, p);
    StopsAtEight(q + |Enc(u, w, q)|);
    RestMoves(c.left, b, c.at);
  }

  lemma LastDictInStruct(ts: seq<Type>, vs: seq<Value>, p: nat)
    requires ts != [] && AllWellFormed(ts) && PartsTyped(ts, vs) && AllButLastWalkable(ts, vs)
    requires ts[|ts| - 1].Dict? && OnlyCloses(BehindBrace(ts[|ts| - 1].val))
    ensures var q := AlignUp(p, 8);
            var c := CourseOf(Struct(ts), Record(vs), p, q);
            OnlyCloses(c.left) && c.at == AlignUp(q + |Enc(Struct(ts), Record(vs), q)|, 8)
  {
    hide PadLen, EncParts, BehindBrace, CourseOfParts, PartsTyped, OnlyCloses, AllWellFormed, AllButLastWalkable;
    FirstStartsStruct(ts, p, AlignUp(p, 8));
    LastDictCourse(ts, vs, AlignUp(p, 8));
    ClosesThenClose(BehindBrace(ts[|ts| - 1].val));
  }

  lemma {:induction false} ClosesThenClose(codes: Text)
    requires OnlyCloses(codes)
    ensures OnlyCloses(codes + [STRUCT_END])
    ensures OnlyCloses([])
  {
    if codes == [] {
      assert codes + [STRUCT_END] == [STRUCT_END] && [STRUCT_END][1..] == [];
    } else {
      ClosesThenClose(codes[1..]);
      assert (codes + [STRUCT_END])[1..] == codes[1..] + [STRUCT_END];
    }
  }

  // ---------- a concrete input ----------

  lemma OneEntryBytes(n: nat, m: nat, q: nat)
    requires q % 8 == 0
    ensures |Enc(Dict(Fixed(Byte), Fixed(Byte)), Map([Entry(Num(n), Num(m))]), q)| == 10
  {
    hide LE, Enc, EncEntries, EncEntry;
    var k, es := Fixed(Byte), [Entry(Num(n), Num(m))];
    DictStep(k, k, es, q);
    assert AlignUp(q + 4, 8) == q + 8;
    EntriesStep(k, k, es, q + 8);
    assert es[1..] == [];
    NoEntries(k, k, NextEntry(k, k, es, q + 8));
    EntryStep(k, k, es[0], q + 8);
    TwoBytes(n, m, q + 8);
  }

  lemma TwoBytes(n: nat, m: nat, p: nat)
    ensures |Enc(Fixed(Byte), Num(n), p)| == 1 &&
            EntryValueAt(Fixed(Byte), Fixed(Byte), Entry(Num(n), Num(m)), p) == p + 1
    ensures |Enc(Fixed(Byte), Num(m), p + 1)| == 1
  {
  }

  predicate IsStructOfDict(n: nat, m: nat, u: Type, w: Value) {
    n < 256 && m < 256
    && u == Struct([Dict(Fixed(Byte), Fixed(Byte))]) && w == Record([Map([Entry(Num(n), Num(m))])])
  }

  lemma ByteIsTyped(n: nat)
    requires n < 256
    ensures Typed(Fixed(Byte), Num(n))
  {
    Pow256Values();
  }

  lemma EntryIsTyped(n: nat, m: nat, es: seq<Entry>, p: nat)
    requires n < 256 && m < 256 && es == [Entry(Num(n), Num(m))]
    ensures Typed(Dict(Fixed(Byte), Fixed(Byte)), Map(es)) && WellFormed(Dict(Fixed(Byte), Fixed(Byte)))
    ensures FaultOf(Dict(Fixed(Byte), Fixed(Byte)), Map(es), p) == None
  {
    Pow256Values();
    assert es[1..] == [];
    ByteIsTyped(n);
    ByteIsTyped(m);
    assert EntryTyped(Fixed(Byte), Fixed(Byte), es[0]);
    var q := AlignUp(p + 4, 8);
    DictStep(Fixed(Byte), Fixed(Byte), es, p);
    EntriesStep(Fixed(Byte), Fixed(Byte), es, q);
    NoEntries(Fixed(Byte), Fixed(Byte), NextEntry(Fixed(Byte), Fixed(Byte), es, q));
    EntryStep(Fixed(Byte), Fixed(Byte), es[0], q);
  }

  lemma StructOfDictIsTyped(n: nat, m: nat, u: Type, w: Value, p: nat)
    requires IsStructOfDict(n, m, u, w)
    ensures WellFormed(u) && Typed(u, w) && PartsTyped(u.fields, w.parts) && FaultOf(u, w, p) == None
    ensures PartsLegible(u.fields, w.parts) && AllButLastWalkable(u.fields, w.parts)
    ensures OnlyCloses(BehindBrace(u.fields[0].val))
  {
    hide Enc, PadLen;
    var ts, vs := u.fields, w.parts;
    EntryIsTyped(n, m, vs[0].entries, p);
    assert ts[1..] == [] && vs[1..] == [];
    PartsStep(InStruct, ts, vs, p);
    NoParts(InStruct, ts[1..], vs[1..], NextPart(InStruct, ts, vs, p));
    assert FaultOfParts(InStruct, ts, vs, p) == FaultOf(ts[0], vs[0], p);
    assert vs[0] == Map(vs[0].entries) && PartsTyped(ts[1..], vs[1..]) && PartsTyped(ts, vs);
    assert AllWellFormed(ts[1..]) && AllWellFormed(ts);
    NothingBehindBrace(ts[0].val);
  }

  lemma StructOfDictBytes(n: nat, m: nat, u: Type, w: Value, q: nat)
    requires IsStructOfDict(n, m, u, w) && q % 8 == 0
    ensures |Enc(u, w, q)| == 10
  {
    hide Enc, PadLen, EncParts;
    var ts, vs := u.fields, w.parts;
    assert ts[1..] == [] && vs[1..] == [];
    StructIsParts(u, w, q);
    PartsStep(InStruct, ts, vs, q);
    NoParts(InStruct, ts[1..], vs[1..], NextPart(InStruct, ts, vs, q));
    OneEntryBytes(n, m, q);
  }

  lemma StructIsParts(u: Type, w: Value, q: nat)
    requires u.Struct? && w.Record?
    ensures Enc(u, w, q) == EncParts(InStruct, u.fields, w.parts, q)
  {
    hide EncParts;
  }

  lemma StructOfDictSig(u: Type)
    requires u == Struct([Dict(Fixed(Byte), Fixed(Byte))])
    ensures |Sig(u)| == 7 && |EncText(Signature, Sig(u))| == 9 && AlignmentOf(u) == 8
    ensures AlignUp(9, 8) == 16 && AlignUp(26, 8) == 32
  {
    var ts := u.fields;
    assert ts[1..] == [];
    assert |Sig(ts[0])| == 5;
    assert |Sigs(ts)| == 5;
  }

  /** A variant of the struct of a dictionary with one entry of two bytes, at position
      0: its 26 bytes are accepted by the marshaller, and the interpreter leaves them
      at 32, so that the variant cannot be read at all. */
  lemma StructOfDictIsRefused(n: nat, m: nat, u: Type, w: Value)
    requires IsStructOfDict(n, m, u, w)
    ensures WellFormed(u) && Typed(u, w) && Accepts(Variant, Boxed(u, w), 0)
    ensures |Enc(Variant, Boxed(u, w), 0)| == 26
    ensures Dec(Variant, Enc(Variant, Boxed(u, w), 0), 0) == Err(DecodeError.Malformed)
  {
    hide PadLen, Walk, Enc, At, LE, EncText, FaultOf, BehindBrace, ReadText, AlignmentOfCode, Zeros, Typed, PartsTyped,
         PartsLegible, AllButLastWalkable, OnlyCloses, Sig, AlignmentOf, IsStructOfDict;
    var b, sig := Enc(Variant, Boxed(u, w), 0), EncText(Signature, Sig(u));
    StructShape(n, m, u, w);
    StructOfDictIsTyped(n, m, u, w, 16);
    StructOfDictSig(u);
    StructOfDictBytes(n, m, u, w, 16);
    BoxStep(u, w, 0);
    WholeAt(b);
    Regroup(sig, Zeros(7), Enc(u, w, 16));
    AtSplit(b, 0, sig, Zeros(7) + Enc(u, w, 16));
    LastDictIsDelimitedIff(u.fields, w.parts, b, 9);
    RefusedWhenPastTheEnd(u, b);
  }

  lemma StructShape(n: nat, m: nat, u: Type, w: Value)
    requires IsStructOfDict(n, m, u, w)
    ensures u.Struct? && w.Record? && u == Struct(u.fields) && w == Record(w.parts) && |u.fields| == 1
    ensures u.fields[0].Dict? && u == Struct([Dict(Fixed(Byte), Fixed(Byte))])
  {
  }

  lemma RefusedWhenPastTheEnd(u: Type, b: seq<byte>)
    requires At(b, 0, EncText(Signature, Sig(u))) && |EncText(Signature, Sig(u))| == 9 && |Sig(u)| < 256
    requires |b| == 26 && Walk(Sig(u), b, 9) == Ok((), 32)
    ensures Dec(Variant, b, 0) == Err(DecodeError.Malformed)
  {
    hide EncText, ReadText, Walk, AlignmentOfCode, Sig, At, PadLen;
    ReadTextBack(Signature, Sig(u), b, 0);
    AlignmentTablesAgree(u);
  }

  lemma WholeAt(b: seq<byte>)
    ensures At(b, 0, b)
  {
    assert b[0..|b|] == b;
  }
}
