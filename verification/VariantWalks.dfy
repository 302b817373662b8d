/** Payloads outside the fragment the flat interpreter is made for: exactly which of
    them it finds the end of all the same. */
module VariantWalks {
  import opened Bytes
  import opened Types
  import opened Signatures
  import opened Encoding
  import opened Decoding
  import opened Walking

  // ---------- what is left of a signature behind a brace ----------

  /** Consuming a complete type always moves the cursor. */
  lemma {:induction false} WalkMoves(t: Type, rest: Text, b: seq<byte>, p: nat)
    requires WellFormed(t) && Walk(Sig(t) + rest, b, p).Ok?
    ensures p < Walk(Sig(t) + rest, b, p).next
    decreases t
  {
    hide PadLen, ReadNumber, ReadText;
    if t.Struct? {
      var fs := t.fields;
      StructSig(fs, rest);
      WalkBracket(Sigs(fs) + ([STRUCT_END] + rest), b, p);
      SigsHead(fs, [STRUCT_END] + rest);
      WalkMoves(fs[0], Sigs(fs[1..]) + ([STRUCT_END] + rest), b, AlignUp(p, 8));
    } else {
      assert (Sig(t) + rest)[0] == Sig(t)[0];
    }
  }

  predicate Closes(c: byte) {
    c == STRUCT_END || c == DICT_END
  }

  predicate OnlyCloses(codes: Text) {
    codes == [] || (Closes(codes[0]) && OnlyCloses(codes[1..]))
  }

  ghost predicate StartsType(codes: Text) {
    exists t: Type, rest: Text :: WellFormed(t) && codes == Sig(t) + rest
  }

  /** Closing codes, and behind them a complete type or nothing. */
  ghost predicate Resumes(codes: Text) {
    codes == [] || (Closes(codes[0]) && Resumes(codes[1..])) || StartsType(codes)
  }

  /** The interpreter goes on behind the first closing brace; for a dictionary with
      values of type `t`, this is what it finds there. */
  function BehindBrace(t: Type): Text {
    AfterDict(Sig(t) + [DICT_END])
  }

  /** Walking such a rest stays where it is if there are only closing codes, and
      moves on otherwise. */
  lemma {:induction false} RestMoves(codes: Text, b: seq<byte>, p: nat)
    requires Resumes(codes)
    ensures OnlyCloses(codes) ==> Walk(codes, b, p) == Ok((), p)
    ensures !OnlyCloses(codes) && Walk(codes, b, p).Ok? ==> p < Walk(codes, b, p).next
    decreases |codes|
  {
    hide PadLen, ReadNumber, ReadText;
    if codes == [] {
      WalkOfNothing(b, p);
    } else if Closes(codes[0]) {
      ClosingStartsNoType(codes);
      RestMoves(codes[1..], b, p);
    } else {
      var t: Type, rest: Text :| WellFormed(t) && codes == Sig(t) + rest;
      if Walk(codes, b, p).Ok? {
        WalkMoves(t, rest, b, p);
      }
    }
  }

  lemma ClosingStartsNoType(codes: Text)
    requires codes != [] && Closes(codes[0])
    ensures !StartsType(codes)
  {
    forall t: Type, rest: Text ensures codes != Sig(t) + rest {
      SigIsNotClosing(t);
      assert (Sig(t) + rest)[0] == Sig(t)[0];
    }
  }

  lemma ClosingResumes(c: byte, codes: Text)
    requires Closes(c) && Resumes(codes)
    ensures Resumes([c] + codes)
  {
    FrontCode(c, codes);
  }

  /** Behind the first closing brace of a type and what follows it, a rest resumes. */
  lemma {:induction false} BraceResumes(t: Type, rest: Text)
    requires WellFormed(t) && Resumes(rest) && Resumes(AfterDict(rest))
    ensures Resumes(AfterDict(Sig(t) + rest))
    decreases t, 1
  {
    hide Resumes;
    match t {
      case Array(e) =>
        BraceResumes(e, rest);
        Regroup([ARRAY], Sig(e), rest);
        FrontCode(ARRAY, Sig(e) + rest);
      case Struct(fs) =>
        StructSig(fs, rest);
        FrontCode(STRUCT_BEGIN, Sigs(fs) + ([STRUCT_END] + rest));
        FrontCode(STRUCT_END, rest);
        ClosingResumes(STRUCT_END, rest);
        BracesResume(fs, [STRUCT_END] + rest);
      case Dict(k, v) => DictResumes(k, v, rest);
      case Fixed(k) => FrontCode(FixedCode(k), rest);
      case Text(k) => FrontCode(TextCode(k), rest);
      case Variant => FrontCode(VARIANT, rest);
    }
  }

  lemma {:induction false} DictResumes(k: Type, v: Type, rest: Text)
    requires WellFormed(Dict(k, v)) && Resumes(rest)
    ensures Resumes(AfterDict(Sig(Dict(k, v)) + rest))
    decreases Dict(k, v), 0
  {
    hide Resumes;
    var inside := Sig(v) + ([DICT_END] + rest);
    DictSigThen(k, v, rest);
    FrontCode(ARRAY, [DICT_BEGIN] + (Sig(k) + inside));
    FrontCode(DICT_BEGIN, Sig(k) + inside);
    FrontCode(DICT_END, rest);
    ClosingResumes(DICT_END, rest);
    BraceResumes(v, [DICT_END] + rest);
    BasicIsDictFree(k);
    SkipsSig(k, inside);
  }

  lemma {:induction false} BracesResume(ts: seq<Type>, rest: Text)
    requires AllWellFormed(ts) && Resumes(rest) && Resumes(AfterDict(rest))
    ensures Resumes(AfterDict(Sigs(ts) + rest))
    decreases ts, 1
  {
    hide Resumes;
    if ts == [] {
      assert Sigs(ts) + rest == rest;
    } else {
      SigsHead(ts, rest);
      BracesResume(ts[1..], rest);
      TypesResume(ts[1..], rest);
      BraceResumes(ts[0], Sigs(ts[1..]) + rest);
    }
  }

  lemma TypesResume(ts: seq<Type>, rest: Text)
    requires AllWellFormed(ts) && Resumes(rest)
    ensures Resumes(Sigs(ts) + rest)
  {
    if ts == [] {
      assert Sigs(ts) + rest == rest;
    } else {
      SigsHead(ts, rest);
      assert StartsType(Sigs(ts) + rest);
    }
  }

  lemma BehindBraceResumes(t: Type)
    requires WellFormed(t)
    ensures Resumes(BehindBrace(t))
  {
    assert [DICT_END][1..] == [];
    BraceResumes(t, [DICT_END]);
  }

  /** No dictionary anywhere inside. */
  predicate DictFree(t: Type) {
    match t
    case Fixed(_) => true
    case Text(_) => true
    case Array(e) => DictFree(e)
    case Struct(ts) => AllDictFree(ts)
    case Dict(_, _) => false
    case Variant => true
  }

  predicate AllDictFree(ts: seq<Type>) {
    ts == [] || (DictFree(ts[0]) && AllDictFree(ts[1..]))
  }

  lemma BasicIsDictFree(k: Type)
    requires IsBasic(k)
    ensures DictFree(k)
  {
  }

  /** A signature without braces is skipped on the way to the closing brace. */
  lemma {:induction false} SkipsSig(t: Type, rest: Text)
    requires DictFree(t)
    ensures AfterDict(Sig(t) + rest) == AfterDict(rest)
    decreases t, 0
  {
    match t {
      case Array(e) =>
        SkipsSig(e, rest);
        Regroup([ARRAY], Sig(e), rest);
        FrontCode(ARRAY, Sig(e) + rest);
      case Struct(fs) =>
        StructSig(fs, rest);
        FrontCode(STRUCT_BEGIN, Sigs(fs) + ([STRUCT_END] + rest));
        SkipsSigs(fs, [STRUCT_END] + rest);
        FrontCode(STRUCT_END, rest);
      case Fixed(k) => FrontCode(FixedCode(k), rest);
      case Text(k) => FrontCode(TextCode(k), rest);
      case Variant => FrontCode(VARIANT, rest);
    }
  }

  lemma {:induction false} SkipsSigs(ts: seq<Type>, rest: Text)
    requires AllDictFree(ts)
    ensures AfterDict(Sigs(ts) + rest) == AfterDict(rest)
    decreases ts, 1
  {
    if ts == [] {
      assert Sigs(ts) + rest == rest;
    } else {
      SigsHead(ts, rest);
      SkipsSig(ts[0], Sigs(ts[1..]) + rest);
      SkipsSigs(ts[1..], rest);
    }
  }

  lemma NothingBehindBrace(t: Type)
    requires DictFree(t)
    ensures BehindBrace(t) == []
  {
    SkipsSig(t, [DICT_END]);
    assert [DICT_END][1..] == [];
  }

  /** Where a walk that goes on behind a brace at `at` can end. */
  lemma RestEnds(t: Type, b: seq<byte>, at: nat, end: nat)
    requires WellFormed(t)
    ensures OnlyCloses(BehindBrace(t)) ==> (Walk(BehindBrace(t), b, at) == Ok((), end) <==> at == end)
    ensures at == end ==> (Walk(BehindBrace(t), b, at) == Ok((), end) <==> OnlyCloses(BehindBrace(t)))
    ensures at > end ==> Walk(BehindBrace(t), b, at) != Ok((), end)
  {
    hide BehindBrace, Walk, OnlyCloses, Resumes;
    BehindBraceResumes(t);
    RestMoves(BehindBrace(t), b, at);
  }

  // ---------- arrays ----------

  lemma ElementSig(t: Type)
    requires t.Array?
    ensures Sig(t)[1..] == Sig(t.elem)
  {
  }

  lemma StructTail(fs: seq<Type>)
    ensures Sig(Struct(fs))[1..] == Sigs(fs) + [STRUCT_END]
  {
    StructSig(fs, []);
    assert Sig(Struct(fs)) + [] == Sig(Struct(fs));
    FrontCode(STRUCT_BEGIN, Sigs(fs) + [STRUCT_END]);
    assert [STRUCT_END] + [] == [STRUCT_END];
  }

  lemma ArraySig(e: Type)
    ensures Sig(Array(e)) == [ARRAY] + Sig(e)
    ensures AlignmentOf(Array(e)) == 4
  {
  }

  /** One step of the interpreter on the codes that open an array and an entry. */
  lemma WalkOpening(rest: Text, b: seq<byte>, p: nat)
    ensures Walk([ARRAY] + rest, b, p) == WalkArray(rest, b, AlignUp(p, 4))
    ensures Walk([DICT_BEGIN] + rest, b, p) == Walk(AfterDict(rest), b, AlignUp(p, 8))
  {
    hide PadLen, WalkArray, AfterDict;
    FrontCode(ARRAY, rest);
    FrontCode(DICT_BEGIN, rest);
  }

  lemma WalkOver(c: byte, rest: Text, a: Alignment, n: nat, b: seq<byte>, q: nat)
    requires AlignmentOfCode(c) == Known(a) && ReadNumber(b, q, 4) == Ok(n, q + 4)
    ensures WalkArray([c] + rest, b, q) == Walk(if c == DICT_BEGIN then [c] + rest else rest, b, AlignUp(q + 4, a) + n)
  {
    hide PadLen, Walk, ReadNumber, AlignmentOfCode;
    FrontCode(c, rest);
  }

  /** After the bytes of an array, the interpreter goes on with what its element's
      signature has after its first code. */
  lemma WalkPastArray(e: Type, vs: seq<Value>, rest: Text, b: seq<byte>, p: nat)
    requires !e.Dict? && |b| < TWO_TO_THE_32
    requires At(b, AlignUp(p, 4), Enc(Array(e), List(vs), AlignUp(p, 4)))
    ensures Walk(Sig(Array(e)) + rest, b, p) ==
            Walk(Sig(e)[1..] + rest, b, AlignUp(p, 4) + |Enc(Array(e), List(vs), AlignUp(p, 4))|)
  {
    hide PadLen, LE, Enc, EncElems, Sig, At, Zeros, AlignmentOf, ReadNumber, AlignmentOfCode, Walk, FaultOf,
         FaultOfElems;
    var q := AlignUp(p, 4);
    var start := AlignUp(q + 4, AlignmentOf(e));
    var body := EncElems(e, vs, start);
    ArrayStep(e, vs, q);
    AtSplit3(b, q, LE(|body|, 4), Zeros(start - q - 4), body);
    FitsIn(b, start, body);
    ReadLengthBack(|body|, b, q);
    WalkOverElement(e, |body|, rest, b, p);
  }

  lemma WalkOverElement(e: Type, n: nat, rest: Text, b: seq<byte>, p: nat)
    requires !e.Dict? && ReadNumber(b, AlignUp(p, 4), 4) == Ok(n, AlignUp(p, 4) + 4)
    ensures Walk(Sig(Array(e)) + rest, b, p) ==
            Walk(Sig(e)[1..] + rest, b, AlignUp(AlignUp(p, 4) + 4, AlignmentOf(e)) + n)
  {
    hide PadLen, Sig, AlignmentOf, ReadNumber, AlignmentOfCode, Walk, WalkArray;
    var c, codes := Sig(e)[0], Sig(e)[1..] + rest;
    AlignmentTablesAgree(e);
    SigIsNotClosing(e);
    ElementFirst(e, rest);
    WalkOpening([c] + codes, b, p);
    WalkOver(c, codes, AlignmentOf(e), n, b, AlignUp(p, 4));
  }

  lemma ElementFirst(e: Type, rest: Text)
    ensures Sig(Array(e)) + rest == [ARRAY] + ([Sig(e)[0]] + (Sig(e)[1..] + rest))
  {
    hide Sig;
    ArraySig(e);
    assert Sig(e) == [Sig(e)[0]] + Sig(e)[1..];
    Regroup([ARRAY], Sig(e), rest);
    Regroup([Sig(e)[0]], Sig(e)[1..], rest);
  }

  /** With several codes in its element, an array payload that is not an array of
      dictionaries is never read to its end: the rest of the element's signature is
      taken for further data. */
  lemma ManyCodesOvershoot(e: Type, vs: seq<Value>, b: seq<byte>, p: nat)
    requires WellFormed(e) && !e.Dict? && !SingleCode(e) && |b| < TWO_TO_THE_32
    requires At(b, AlignUp(p, 4), Enc(Array(e), List(vs), AlignUp(p, 4)))
    ensures var end := AlignUp(p, 4) + |Enc(Array(e), List(vs), AlignUp(p, 4))|;
            Walk(Sig(Array(e)), b, p).Ok? ==> end < Walk(Sig(Array(e)), b, p).next
  {
    hide PadLen, Enc, Walk, Sig, At, Zeros;
    var end := AlignUp(p, 4) + |Enc(Array(e), List(vs), AlignUp(p, 4))|;
    WalkPastArray(e, vs, [], b, p);
    NothingBehind(Sig(Array(e)));
    NothingBehind(Sig(e)[1..]);
    var codes := Sig(e)[1..];
    match e {
      case Array(x) =>
        ElementSig(e);
        assert Sig(x) + [] == codes;
        if Walk(codes, b, end).Ok? { WalkMoves(x, [], b, end); }
      case Struct(fs) =>
        StructSig(fs, []);
        SigsHead(fs, [STRUCT_END]);
        StructTail(fs);
        if Walk(codes, b, end).Ok? { WalkMoves(fs[0], Sigs(fs[1..]) + [STRUCT_END], b, end); }
    }
  }

  /** The element of an array in an array is aligned to 4, and its first code skipped. */
  lemma WalkArrayOfArrays(codes: Text, n: nat, b: seq<byte>, p: nat)
    requires ReadNumber(b, AlignUp(p, 4), 4) == Ok(n, AlignUp(p, 4) + 4)
    ensures Walk([ARRAY] + ([ARRAY] + codes), b, p) == Walk(codes, b, AlignUp(p, 4) + 4 + n)
  {
    hide PadLen, ReadNumber, AlignmentOfCode, Walk, WalkArray;
    CodeFacts();
    FourIsAligned(p);
    WalkOpening([ARRAY] + codes, b, p);
    WalkOver(ARRAY, codes, 4, n, b, AlignUp(p, 4));
  }

  /** For an element that is a dictionary the interpreter takes the length from its
      place, but not the padding to 8 behind it, and pads when it meets the brace. */
  lemma WalkArrayOfDicts(k: Type, t: Type, n: nat, rest: Text, b: seq<byte>, p: nat)
    requires WellFormed(Dict(k, t)) && ReadNumber(b, AlignUp(p, 4), 4) == Ok(n, AlignUp(p, 4) + 4)
    ensures Walk(Sig(Array(Dict(k, t))) + rest, b, p) ==
            Walk(BehindBrace(t) + rest, b, AlignUp(AlignUp(p, 4) + 4 + n, 8))
  {
    hide PadLen, ReadNumber, Sig, BehindBrace, Walk, AfterDict;
    var inside := Sig(k) + (Sig(t) + ([DICT_END] + rest));
    DictSigThen(k, t, rest);
    ArraySig(Dict(k, t));
    Regroup([ARRAY], Sig(Dict(k, t)), rest);
    WalkArrayOfArrays([DICT_BEGIN] + inside, n, b, p);
    WalkOpening(inside, b, AlignUp(p, 4) + 4 + n);
    BehindTheKey(k, t, rest);
  }

  lemma BasicKey(k: Type, t: Type)
    requires WellFormed(Dict(k, t))
    ensures IsBasic(k)
  {
  }

  lemma BehindTheKey(k: Type, t: Type, rest: Text)
    requires IsBasic(k)
    ensures AfterDict(Sig(k) + (Sig(t) + ([DICT_END] + rest))) == BehindBrace(t) + rest
  {
    hide Sig;
    BasicIsDictFree(k);
    SkipsSig(k, Sig(t) + ([DICT_END] + rest));
    Regroup(Sig(t), [DICT_END], rest);
    AfterDictThen(Sig(t) + [DICT_END], rest);
  }

  /** Where there is a closing brace, what follows does not matter. */
  lemma {:induction false} AfterDictThen(codes: Text, rest: Text)
    requires DICT_END in codes
    ensures AfterDict(codes + rest) == AfterDict(codes) + rest
  {
    assert (codes + rest)[1..] == codes[1..] + rest;
    if codes[0] != DICT_END {
      AfterDictThen(codes[1..], rest);
    }
  }

  lemma NothingBehind(codes: Text)
    ensures codes + [] == codes
  {
  }

  lemma FourIsAligned(p: nat)
    ensures AlignUp(AlignUp(p, 4) + 4, 4) == AlignUp(p, 4) + 4
  {
  }

  lemma WholeEights(q: nat, n: nat)
    requires q % 4 == 0
    ensures AlignUp(q + 4 + n, 8) == AlignUp(q + 4, 8) + n <==> n % 8 == 0
  {
  }

  lemma FourthsAreFourths(p: nat)
    ensures AlignUp(p, 4) % 4 == 0
  {
    PadLenIsLeast(p, 4);
  }

  /** What the interpreter makes of an array of dictionaries, whose bytes without
      length and padding are `body`. */
  lemma ArrayOfDictsWalk(k: Type, t: Type, vs: seq<Value>, rest: Text, b: seq<byte>, p: nat) returns (body: seq<byte>)
    requires WellFormed(Dict(k, t)) && |b| < TWO_TO_THE_32
    requires At(b, AlignUp(p, 4), Enc(Array(Dict(k, t)), List(vs), AlignUp(p, 4)))
    ensures body == EncElems(Dict(k, t), vs, AlignUp(AlignUp(p, 4) + 4, 8))
    ensures AlignUp(p, 4) + |Enc(Array(Dict(k, t)), List(vs), AlignUp(p, 4))| == AlignUp(AlignUp(p, 4) + 4, 8) + |body|
    ensures Walk(Sig(Array(Dict(k, t))) + rest, b, p) ==
            Walk(BehindBrace(t) + rest, b, AlignUp(AlignUp(p, 4) + 4 + |body|, 8))
  {
    hide PadLen, LE, Enc, EncElems, Sig, At, Zeros, ReadNumber, BehindBrace, Walk;
    var q := AlignUp(p, 4);
    var start := AlignUp(q + 4, 8);
    body := EncElems(Dict(k, t), vs, start);
    ArrayStep(Dict(k, t), vs, q);
    AtSplit3(b, q, LE(|body|, 4), Zeros(start - q - 4), body);
    FitsIn(b, start, body);
    ReadLengthBack(|body|, b, q);
    WalkArrayOfDicts(k, t, |body|, rest, b, p);
  }

  /** An array payload is read exactly to its end if and only if one code is all its
      element has; or the element is a dictionary, the elements take a multiple of
      8 bytes, and only closing codes stand behind the first closing brace; or the
      interpreter meets that brace too early, and the codes behind it happen to read
      on to the end. */
  lemma ArrayPayloadIsWalkedIff(e: Type, vs: seq<Value>, b: seq<byte>, p: nat)
    requires WellFormed(e) && e != Fixed(Bool) && AllTyped(e, vs) && |b| < TWO_TO_THE_32
    requires At(b, AlignUp(p, 4), Enc(Array(e), List(vs), AlignUp(p, 4)))
    ensures var end := AlignUp(p, 4) + |Enc(Array(e), List(vs), AlignUp(p, 4))|;
            var n := |EncElems(e, vs, AlignUp(AlignUp(p, 4) + 4, AlignmentOf(e)))|;
            var brace := AlignUp(AlignUp(p, 4) + 4 + n, 8);
            Walk(Sig(Array(e)), b, p) == Ok((), end)
            <==> || SingleCode(e)
                 || (e.Dict? && n % 8 == 0 && OnlyCloses(BehindBrace(e.val)))
                 || (e.Dict? && brace < end && Walk(BehindBrace(e.val), b, brace) == Ok((), end))
  {
    hide PadLen, Enc, EncElems, Walk, Sig, AllTyped, At, Zeros, BehindBrace, OnlyCloses;
    var end := AlignUp(p, 4) + |Enc(Array(e), List(vs), AlignUp(p, 4))|;
    if SingleCode(e) {
      assert Sig(Array(e)) + [] == Sig(Array(e));
      WalkSkips(Array(e), List(vs), [], b, p);
      WalkOfNothing(b, end);
    } else if e.Dict? {
      var body := ArrayOfDictsWalk(e.key, e.val, vs, [], b, p);
      NothingBehind(Sig(Array(e)));
      NothingBehind(BehindBrace(e.val));
      FourthsAreFourths(p);
      WholeEights(AlignUp(p, 4), |body|);
      RestEnds(e.val, b, AlignUp(AlignUp(p, 4) + 4 + |body|, 8), end);
    } else {
      ManyCodesOvershoot(e, vs, b, p);
    }
  }

  /** With nothing but closing codes behind the brace, as whenever the values hold no
      further dictionary, the size alone decides. */
  lemma ArrayOfDictsIsWalkedIffWholeEights(k: Type, t: Type, vs: seq<Value>, b: seq<byte>, p: nat)
    requires WellFormed(Dict(k, t)) && OnlyCloses(BehindBrace(t)) && |b| < TWO_TO_THE_32
    requires At(b, AlignUp(p, 4), Enc(Array(Dict(k, t)), List(vs), AlignUp(p, 4)))
    ensures var end := AlignUp(p, 4) + |Enc(Array(Dict(k, t)), List(vs), AlignUp(p, 4))|;
            Walk(Sig(Array(Dict(k, t))), b, p) == Ok((), end)
            <==> |EncElems(Dict(k, t), vs, AlignUp(AlignUp(p, 4) + 4, 8))| % 8 == 0
  {
    hide PadLen, Enc, EncElems, Walk, Sig, At, Zeros, BehindBrace, OnlyCloses;
    var body := ArrayOfDictsWalk(k, t, vs, [], b, p);
    NothingBehind(Sig(Array(Dict(k, t))));
    NothingBehind(BehindBrace(t));
    FourthsAreFourths(p);
    WholeEights(AlignUp(p, 4), |body|);
    RestEnds(t, b, AlignUp(AlignUp(p, 4) + 4 + |body|, 8), AlignUp(AlignUp(p, 4) + 4, 8) + |body|);
  }

  // ---------- dictionaries ----------

  lemma DictLengthBytes(k: Type, t: Type, es: seq<Entry>, q: nat)
    ensures |Enc(Dict(k, t), Map(es), q)| >= 4
  {
    hide Enc, EncEntries, LE, PadLen;
    DictStep(k, t, es, q);
  }

  lemma NextEight(p: nat)
    ensures AlignUp(p, 8) % 8 == 0
    ensures AlignUp(p, 4) == AlignUp(p, 8) || (p <= AlignUp(p, 4) && AlignUp(p, 4) + 4 == AlignUp(p, 8))
  {
  }

  lemma EightIsAligned(q: nat)
    requires q % 8 == 0
    ensures AlignUp(q, 8) == q
  {
  }

  lemma StopsAtEight(end: nat)
    ensures AlignUp(end, 8) == end <==> end % 8 == 0
  {
  }

  lemma PaddingReadsAsZero(b: seq<byte>, p: nat, q: nat, r: nat)
    requires p <= q && At(b, p, Zeros(q - p)) && p <= r && r + 4 == q
    ensures ReadNumber(b, r, 4) == Ok(0, r + 4)
  {
    hide LE;
    assert b[r..r + 4] == Zeros(q - p)[r - p..];
    assert b[r..r + 4] == [0, 0, 0, 0];
    ZerosAreZero();
  }

  lemma ZerosAreZero()
    ensures FromLE([0, 0, 0, 0]) == 0
  {
    assert [0, 0, 0, 0][1..] == [0, 0, 0];
    assert [0, 0, 0][1..] == [0, 0];
    assert [0, 0][1..] == [0];
  }

  lemma CodeFacts()
    ensures AlignmentOfCode(ARRAY) == Known(4) && AlignmentOfCode(DICT_BEGIN) == Known(8)
  {
  }

  lemma WalkDict(k: Type, t: Type, n: nat, rest: Text, b: seq<byte>, p: nat)
    requires WellFormed(Dict(k, t)) && ReadNumber(b, AlignUp(p, 4), 4) == Ok(n, AlignUp(p, 4) + 4)
    ensures Walk(Sig(Dict(k, t)) + rest, b, p) ==
            Walk(BehindBrace(t) + rest, b, AlignUp(AlignUp(AlignUp(p, 4) + 4, 8) + n, 8))
  {
    hide PadLen, ReadNumber, Sig, AlignmentOfCode, BehindBrace, Walk, WalkArray, AfterDict, WellFormed, IsBasic;
    BasicKey(k, t);
    var inside := Sig(k) + (Sig(t) + ([DICT_END] + rest));
    DictSigThen(k, t, rest);
    CodeFacts();
    WalkOpening([DICT_BEGIN] + inside, b, p);
    WalkOver(DICT_BEGIN, inside, 8, n, b, AlignUp(p, 4));
    WalkOpening(inside, b, AlignUp(AlignUp(p, 4) + 4, 8) + n);
    BehindTheKey(k, t, rest);
  }

  lemma DictWalkAligned(k: Type, t: Type, es: seq<Entry>, rest: Text, b: seq<byte>, p: nat)
    requires WellFormed(Dict(k, t)) && |b| < TWO_TO_THE_32
    requires At(b, AlignUp(p, 4), Enc(Dict(k, t), Map(es), AlignUp(p, 4)))
    ensures Walk(Sig(Dict(k, t)) + rest, b, p) ==
            Walk(BehindBrace(t) + rest, b, AlignUp(AlignUp(p, 4) + |Enc(Dict(k, t), Map(es), AlignUp(p, 4))|, 8))
  {
    hide Enc, EncEntries, LE, ReadNumber, At, Zeros, Sig, Walk, PadLen, BehindBrace;
    var q := AlignUp(p, 4);
    var start := AlignUp(q + 4, 8);
    var body := EncEntries(k, t, es, start);
    DictStep(k, t, es, q);
    AtSplit3(b, q, LE(|body|, 4), Zeros(start - q - 4), body);
    FitsIn(b, start, body);
    ReadLengthBack(|body|, b, q);
    WalkDict(k, t, |body|, rest, b, p);
  }

  lemma DictWalkMisaligned(k: Type, t: Type, rest: Text, b: seq<byte>, p: nat)
    requires WellFormed(Dict(k, t)) && AlignUp(p, 4) != AlignUp(p, 8)
    requires At(b, p, Zeros(AlignUp(p, 8) - p))
    ensures Walk(Sig(Dict(k, t)) + rest, b, p) == Walk(BehindBrace(t) + rest, b, AlignUp(p, 8))
  {
    hide At, Zeros, Sig, Walk, PadLen, BehindBrace, ReadNumber;
    NextEight(p);
    PaddingReadsAsZero(b, p, AlignUp(p, 8), AlignUp(p, 4));
    WalkDict(k, t, 0, rest, b, p);
    EightIsAligned(AlignUp(p, 8));
  }

  /** The interpreter reads the dictionary at `q`, after the padding behind `p`, exactly to its end. */
  predicate DictIsDelimited(k: Type, t: Type, es: seq<Entry>, b: seq<byte>, p: nat, q: nat)
    requires WellFormed(Dict(k, t))
  {
    Walk(Sig(Dict(k, t)), b, p) == Ok((), q + |Enc(Dict(k, t), Map(es), q)|)
  }

  lemma AlignedDictIsDelimitedIff(k: Type, t: Type, es: seq<Entry>, b: seq<byte>, p: nat)
    requires WellFormed(Dict(k, t)) && |b| < TWO_TO_THE_32 && AlignUp(p, 4) == AlignUp(p, 8)
    requires At(b, AlignUp(p, 8), Enc(Dict(k, t), Map(es), AlignUp(p, 8)))
    ensures DictIsDelimited(k, t, es, b, p, AlignUp(p, 8))
            <==> (AlignUp(p, 8) + |Enc(Dict(k, t), Map(es), AlignUp(p, 8))|) % 8 == 0 && OnlyCloses(BehindBrace(t))
  {
    hide Enc, At, Sig, Walk, PadLen, BehindBrace, OnlyCloses;
    var end := AlignUp(p, 8) + |Enc(Dict(k, t), Map(es), AlignUp(p, 8))|;
    DictWalkAligned(k, t, es, [], b, p);
    NothingBehind(Sig(Dict(k, t)));
    NothingBehind(BehindBrace(t));
    StopsAtEight(end);
    RestEnds(t, b, AlignUp(end, 8), end);
  }

  lemma MisalignedDictIsDelimitedIff(k: Type, t: Type, es: seq<Entry>, b: seq<byte>, p: nat)
    requires WellFormed(Dict(k, t)) && AlignUp(p, 4) != AlignUp(p, 8)
    requires At(b, p, Zeros(AlignUp(p, 8) - p))
    ensures var q := AlignUp(p, 8);
            var end := q + |Enc(Dict(k, t), Map(es), q)|;
            DictIsDelimited(k, t, es, b, p, q) <==> Walk(BehindBrace(t), b, q) == Ok((), end)
    ensures OnlyCloses(BehindBrace(t)) ==> !DictIsDelimited(k, t, es, b, p, AlignUp(p, 8))
  {
    hide Enc, At, Zeros, Sig, Walk, PadLen, BehindBrace, OnlyCloses, ReadNumber;
    var q := AlignUp(p, 8);
    DictLengthBytes(k, t, es, q);
    DictWalkMisaligned(k, t, [], b, p);
    NothingBehind(Sig(Dict(k, t)));
    NothingBehind(BehindBrace(t));
    RestEnds(t, b, q, q + |Enc(Dict(k, t), Map(es), q)|);
  }

  /** The writer aligns a dictionary payload to 8, the reader to 4, and the reader
      pads to 8 once more when it meets the brace. If the first two agree, the
      payload is read exactly to its end if and only if that is a multiple of 8 and
      only closing codes are left. If they do not, a length of 0 is read from the
      padding, and only the codes behind the brace can carry the cursor to the end. */
  lemma DictPayloadIsWalkedIff(k: Type, t: Type, es: seq<Entry>, b: seq<byte>, p: nat)
    requires WellFormed(Dict(k, t)) && |b| < TWO_TO_THE_32
    requires var q := AlignUp(p, 8); At(b, p, Zeros(q - p) + Enc(Dict(k, t), Map(es), q))
    ensures var q := AlignUp(p, 8);
            var end := q + |Enc(Dict(k, t), Map(es), q)|;
            Walk(Sig(Dict(k, t)), b, p) == Ok((), end)
            <==> if AlignUp(p, 4) == q then end % 8 == 0 && OnlyCloses(BehindBrace(t))
                 else !OnlyCloses(BehindBrace(t)) && Walk(BehindBrace(t), b, q) == Ok((), end)
  {
    hide Enc, At, Zeros, Sig, Walk, PadLen, BehindBrace, OnlyCloses;
    var q := AlignUp(p, 8);
    AtSplit(b, p, Zeros(q - p), Enc(Dict(k, t), Map(es), q));
    assert DictIsDelimited(k, t, es, b, p, q) <==>
        Walk(Sig(Dict(k, t)), b, p) == Ok((), q + |Enc(Dict(k, t), Map(es), q)|);
    if AlignUp(p, 4) == q {
      AlignedDictIsDelimitedIff(k, t, es, b, p);
    } else {
      MisalignedDictIsDelimitedIff(k, t, es, b, p);
    }
  }

  // ---------- concrete inputs ----------

  lemma EmptyArrayBytes(e: Type)
    ensures Enc(Array(e), List([]), 0) == LE(0, 4) + Zeros(AlignUp(4, AlignmentOf(e)) - 4)
    ensures |Enc(Array(e), List([]), 0)| <= 8
  {
    hide LE, Enc;
    ArrayStep(e, [], 0);
    NoElems(e, AlignUp(4, AlignmentOf(e)));
    assert Zeros(AlignUp(4, AlignmentOf(e)) - 4) + [] == Zeros(AlignUp(4, AlignmentOf(e)) - 4);
  }

  /** The empty a(y), as a payload at 0, is not read to its end. */
  lemma EmptyArrayOfStructsIsMissed()
    ensures WellFormed(Struct([Fixed(Byte)]))
    ensures var e := Struct([Fixed(Byte)]);
            var b := Enc(Array(e), List([]), 0); Walk(Sig(Array(e)), b, 0) != Ok((), |b|)
  {
    hide Walk, Enc, Sig;
    StructOfByte(Struct([Fixed(Byte)]));
    EmptyArrayIsMissed(Struct([Fixed(Byte)]));
  }

  lemma StructOfByte(e: Type)
    requires e == Struct([Fixed(Byte)])
    ensures WellFormed(e) && !SingleCode(e)
  {
    assert [Fixed(Byte)][1..] == [];
  }

  lemma EmptyArrayIsMissed(e: Type)
    requires WellFormed(e) && !SingleCode(e) && !e.Dict?
    ensures var b := Enc(Array(e), List([]), 0); Walk(Sig(Array(e)), b, 0) != Ok((), |b|)
  {
    hide Walk, Enc, Sig, LE, AlignmentOf, WellFormed;
    var b := Enc(Array(e), List([]), 0);
    EmptyArrayBytes(e);
    assert AlignUp(0, 4) == 0 && At(b, 0, b);
    ManyCodesOvershoot(e, [], b, 0);
  }

  /** The empty aa{yy} is, although the element has even more codes. */
  lemma EmptyArrayOfDictsIsHit()
    ensures WellFormed(Dict(Fixed(Byte), Fixed(Byte)))
    ensures var e := Dict(Fixed(Byte), Fixed(Byte));
            var b := Enc(Array(e), List([]), 0); Walk(Sig(Array(e)), b, 0) == Ok((), |b|)
  {
    hide Walk, Enc, Sig, LE, BehindBrace;
    var e := Dict(Fixed(Byte), Fixed(Byte));
    var b := Enc(Array(e), List([]), 0);
    EmptyArrayBytes(e);
    assert AlignUp(0, 4) == 0 && At(b, 0, b);
    NoElems(e, AlignUp(AlignUp(0, 4) + 4, 8));
    NothingBehindBrace(Fixed(Byte));
    ArrayOfDictsIsWalkedIffWholeEights(Fixed(Byte), Fixed(Byte), [], b, 0);
  }

  lemma EmptyDictBytes(k: Type, t: Type, q: nat)
    requires q % 8 == 0
    ensures Enc(Dict(k, t), Map([]), q) == LE(0, 4) + Zeros(4)
  {
    hide LE, Enc;
    DictStep(k, t, [], q);
    NoEntries(k, t, q + 8);
    assert AlignUp(q + 4, 8) == q + 8;
    assert Zeros(4) + [] == Zeros(4);
  }

  /** With the cursor at 1 before its padding, the empty a{yy} is not read to its end. */
  lemma MisalignedDictIsMissed()
    ensures WellFormed(Dict(Fixed(Byte), Fixed(Byte)))
    ensures var b := [0] + (Zeros(7) + Enc(Dict(Fixed(Byte), Fixed(Byte)), Map([]), 8));
            Walk(Sig(Dict(Fixed(Byte), Fixed(Byte))), b, 1) != Ok((), |b|)
  {
    hide Enc, Walk, Sig, LE, BehindBrace;
    var k, s := Fixed(Byte), Zeros(7) + Enc(Dict(Fixed(Byte), Fixed(Byte)), Map([]), 8);
    EmptyDictBytes(k, k, 8);
    assert [0] + s + [] == [0] + s;
    AtInContext([0], s, []);
    NothingBehindBrace(k);
    DictPayloadIsWalkedIff(k, k, [], [0] + s, 1);
  }

  /** The empty a{s(a{sv}x)} is, from the same place: what stands behind the first
      brace, "x)}", takes the cursor from 8 to 16. */
  lemma MisalignedDictIsHitByChance()
    ensures WellFormed(Dict(Text(String), Struct([Dict(Text(String), Variant), Fixed(Int64)])))
    ensures var t := Struct([Dict(Text(String), Variant), Fixed(Int64)]);
            var b := [0] + (Zeros(7) + Enc(Dict(Text(String), t), Map([]), 8));
            Walk(Sig(Dict(Text(String), t)), b, 1) == Ok((), |b|)
  {
    hide Enc, Walk, Sig, LE, BehindBrace, OnlyCloses;
    var k, ts := Text(String), [Dict(Text(String), Variant), Fixed(Int64)];
    var t, s := Struct(ts), Zeros(7) + Enc(Dict(Text(String), Struct(ts)), Map([]), 8);
    assert ts[1..] == [Fixed(Int64)] && ts[1..][1..] == [];
    assert AllWellFormed(ts[1..]) && AllWellFormed(ts);
    EmptyDictBytes(k, t, 8);
    assert [0] + s + [] == [0] + s;
    AtInContext([0], s, []);
    LongBehindBrace();
    LongRestWalks([0] + s);
    DictPayloadIsWalkedIff(k, t, [], [0] + s, 1);
  }

  lemma LongRestWalks(b: seq<byte>)
    ensures Walk([FixedCode(Int64)] + [STRUCT_END, DICT_END], b, 8) == Ok((), 16)
    ensures !OnlyCloses([FixedCode(Int64)] + [STRUCT_END, DICT_END])
  {
    hide Walk;
    WalkFixed(Int64, [STRUCT_END, DICT_END], b, 8);
    assert [STRUCT_END, DICT_END] == [STRUCT_END] + [DICT_END];
    WalkBracket([DICT_END], b, 16);
    LastBraceWalks(b, 16);
  }

  lemma LastBraceWalks(b: seq<byte>, p: nat)
    ensures Walk([DICT_END], b, p) == Ok((), p)
  {
    assert [DICT_END][1..] == [];
  }

  lemma DictThenRest(k: Type, v: Type, rest: Text)
    requires IsBasic(k) && DictFree(v)
    ensures AfterDict(Sig(Dict(k, v)) + rest) == rest
  {
    hide Sig;
    var inside := Sig(v) + ([DICT_END] + rest);
    DictSigThen(k, v, rest);
    FrontCode(ARRAY, [DICT_BEGIN] + (Sig(k) + inside));
    FrontCode(DICT_BEGIN, Sig(k) + inside);
    FrontCode(DICT_END, rest);
    BasicIsDictFree(k);
    SkipsSig(k, inside);
    SkipsSig(v, [DICT_END] + rest);
  }

  lemma LongBehindBrace()
    ensures BehindBrace(Struct([Dict(Text(String), Variant), Fixed(Int64)])) ==
            [FixedCode(Int64)] + [STRUCT_END, DICT_END]
  {
    hide AfterDict, Sig;
    var ts := [Dict(Text(String), Variant), Fixed(Int64)];
    var rest := [FixedCode(Int64)] + [STRUCT_END, DICT_END];
    SigsHead(ts, [STRUCT_END] + [DICT_END]);
    SigsHead(ts[1..], [STRUCT_END] + [DICT_END]);
    NumberSig();
    assert ts[1..] == [Fixed(Int64)] && Sigs(ts[1..]) + ([STRUCT_END] + [DICT_END]) == rest;
    StructSig(ts, [DICT_END]);
    DictThenRest(Text(String), Variant, rest);
    OpeningIsSkipped(Sigs(ts) + ([STRUCT_END] + [DICT_END]));
  }

  lemma NumberSig()
    ensures Sig(Fixed(Int64)) == [FixedCode(Int64)]
  {
  }

  lemma OpeningIsSkipped(rest: Text)
    ensures AfterDict([STRUCT_BEGIN] + rest) == AfterDict(rest)
  {
    FrontCode(STRUCT_BEGIN, rest);
  }
}
