/** Collecting a message's texts for match rules: a second, untyped walk over the
    body, which must find what the typed decoder would. */
module ArgumentWalk {
  import opened Bytes
  import opened Types
  import opened ObjectPaths
  import opened Options
  import opened Signatures
  import opened Encoding
  import opened Decoding
  import opened Walking
  import opened MatchRules
  import V = VariantWalks

  /** The texts found, by argument index: strings, and object paths. */
  datatype Found = Found(strings: Arguments, paths: Arguments)

  /** `Undefined` stands for reading a signature behind its terminating NUL. */
  datatype Outcome = Collected(found: Found, pointer: nat) | Failed(error: DecodeError) | Undefined

  const NOTHING_FOUND := Found(map[], map[])

  /** An index already present is left alone. */
  function Insert(m: Arguments, i: byte, s: Text): Arguments {
    if i in m then m else m[i := s]
  }

  /** Argument indices are kept in one byte. */
  function Next(argIndex: byte): byte {
    (argIndex + 1) % 256
  }

  // ---------- the walk ----------

  /** A signature is followed by a NUL. */
  function CodeAt(codes: Text, k: nat): byte {
    if k < |codes| then codes[k] else 0
  }

  function Drop(codes: Text, k: nat): Text {
    if k <= |codes| then codes[k..] else []
  }

  /** What one turn of the loop leaves: the codes still to come, the cursor, and what was found. */
  datatype Stride = Stride(rest: Text, pointer: nat, found: Found) | Halt(outcome: Outcome)

  function Collect(codes: Text, b: seq<byte>, pointer: nat, i: byte, found: Found, allowed: bool): (r: Outcome)
    ensures r.Collected? ==> pointer <= r.pointer
    decreases Unread(b, pointer), |codes|, 1
  {
    if codes == [] then Collected(found, pointer)
    else
      match StrideOver(codes, b, pointer, i, found, allowed)
      case Halt(outcome) => outcome
      case Stride(rest, q, more) => Collect(rest, b, q, Next(i), more, allowed)
  }

  function StrideOver(codes: Text, b: seq<byte>, pointer: nat, i: byte, found: Found, allowed: bool): (r: Stride)
    requires codes != []
    ensures r.Stride? ==> |r.rest| < |codes| && pointer <= r.pointer
    ensures r.Halt? ==> !r.outcome.Collected?
    decreases Unread(b, pointer), |codes|, 0
  {
    match AlignmentOfCode(codes[0])
    case Unknown => Halt(Failed(UnknownCode))
    case Known(a) =>
      var c, p := codes[0], AlignUp(pointer, a);
      if IsFixedCode(c) then Stride(codes[1..], p + a, found)
      else if IsTextCode(c) then TextStride(codes, b, p, i, found, allowed)
      else if c == ARRAY then ArrayStride(codes, b, p, found)
      else if c == DICT_BEGIN then DictStride(codes, b, p, found)
      else if c == STRUCT_BEGIN then
        match StructFields(codes, 1, b, p)
        case Stopped(outcome) => Halt(outcome)
        case Done(k, q) => Stride(Drop(codes, k + 2), q, found)
      else
        match NestedSignature(b, p)
        case Err(e) => Halt(Failed(e))
        case Ok((s, a'), q) =>
          match Collect(s, b, AlignUp(q, a'), i, found, false)
          case Collected(_, end) => Stride(codes[1..], end, found)
          case other => Halt(other)
  }

  function TextStride(codes: Text, b: seq<byte>, p: nat, i: byte, found: Found, allowed: bool): (r: Stride)
    requires codes != []
    ensures r.Stride? ==> |r.rest| < |codes| && p <= r.pointer
    ensures r.Halt? ==> !r.outcome.Collected?
  {
    if codes[0] == SIGNATURE || !allowed then
      match ReadNumber(b, p, if codes[0] == SIGNATURE then 1 else 4)
      case Err(e) => Halt(Failed(e))
      case Ok(n, q) => Stride(codes[1..], q + n + 1, found)
    else
      match ReadText(String, b, p)
      case Err(e) => Halt(Failed(e))
      case Ok(s, q) =>
        if codes[0] == STRING then Stride(codes[1..], q, found.(strings := Insert(found.strings, i, s)))
        else if IsValidPath(s) then Stride(codes[1..], q, found.(paths := Insert(found.paths, i, s)))
        else Halt(Failed(BadPath))
  }

  /** The code of a dictionary's array is passed over; another array is skipped by its length. */
  function ArrayStride(codes: Text, b: seq<byte>, p: nat, found: Found): (r: Stride)
    requires codes != []
    ensures r.Stride? ==> |r.rest| < |codes| && p <= r.pointer
    ensures r.Halt? ==> !r.outcome.Collected?
  {
    if CodeAt(codes, 1) == DICT_BEGIN then Stride(codes[1..], p, found)
    else
      match ReadNumber(b, p, 4)
      case Err(e) => Halt(Failed(e))
      case Ok(n, q) =>
        match AlignmentOfCode(CodeAt(codes, 1))
        case Unknown => Halt(Failed(UnknownCode))
        case Known(a) => Stride(Drop(codes, 2), AlignUp(q, a) + n, found)
  }

  /** At the brace, which is aligned to 8, the length of the dictionary is read. */
  function DictStride(codes: Text, b: seq<byte>, p: nat, found: Found): (r: Stride)
    requires codes != []
    ensures r.Stride? ==> |r.rest| < |codes| && p <= r.pointer
    ensures r.Halt? ==> !r.outcome.Collected?
  {
    match ReadNumber(b, p, 4)
    case Err(e) => Halt(Failed(e))
    case Ok(n, q) =>
      match Behind(codes[1..], 1)
      case None => Halt(Undefined)
      case Some(rest) => Stride(rest, AlignUp(q, 8) + n, found)
  }

  /** The codes behind the brace that closes `depth` open ones. */
  function Behind(codes: Text, depth: nat): (r: Option<Text>)
    ensures r.Some? ==> |r.value| <= |codes|
  {
    if depth == 0 then Some(codes)
    else if codes == [] then None
    else if codes[0] == DICT_END then Behind(codes[1..], depth - 1)
    else if codes[0] == DICT_BEGIN then Behind(codes[1..], depth + 1)
    else Behind(codes[1..], depth)
  }

  datatype Fields = Done(k: nat, pointer: nat) | Stopped(outcome: Outcome)

  /** The fields of a struct are walked one code at a time, each as a signature of
      its own; the loop ends one field early when the closing bracket is next but one. */
  function StructFields(codes: Text, k: nat, b: seq<byte>, p: nat): (r: Fields)
    requires 1 <= k <= |codes|
    ensures r.Done? ==> p <= r.pointer && k <= r.k
    ensures r.Stopped? ==> !r.outcome.Collected?
    decreases Unread(b, p), |codes| - k, 2
  {
    if k == |codes| then Stopped(Failed(UnknownCode))
    else if codes[k] == STRUCT_END then Done(k, p)
    else
      match Collect([codes[k]], b, p, 0, NOTHING_FOUND, false)
      case Collected(_, q) =>
        if k + 2 > |codes| then Stopped(Undefined)
        else if CodeAt(codes, k + 2) == STRUCT_END then Done(k + 1, q)
        else
          (match AlignmentOfCode(CodeAt(codes, k + 2))
           case Unknown => Stopped(Failed(UnknownCode))
           case Known(a) => StructFields(codes, k + 1, b, AlignUp(q, a)))
      case other => Stopped(other)
  }

  /** A variant's signature, its alignment, and the position behind it. The bytes of
      the signature are decoded as if they began with a length of their own. */
  function NestedSignature(b: seq<byte>, p: nat): (r: Step<(Text, Alignment)>)
    ensures r.Ok? ==> p < r.next && p < |b|
  {
    match ReadNumber(b, p, 1)
    case Err(e) => Err(e)
    case Ok(n, q) =>
      if q + n > |b| then Err(Malformed)
      else
        match ReadText(Signature, b[q..q + n], 0)
        case Err(e) => Err(e)
        case Ok(s, end) =>
          if end != n then Err(Malformed)
          else
            match AlignmentOfCode(CodeAt(s, 0))
            case Unknown => Err(UnknownCode)
            case Known(a) => Ok((s, a), q + n)
  }

  // ---------- the walk as loops ----------

  /** The walk over a signature. A struct's fields and a variant's payload are walked
      by calls of the same routine that may not add arguments. `codes` is what the
      loop's index has not passed yet. */
  method WalkSignature(signature: Text, messageBody: seq<byte>, start: nat, firstIndex: byte, before: Found,
                       allowed: bool)
    returns (r: Outcome)
    ensures r == Collect(signature, messageBody, start, firstIndex, before, allowed)
    decreases Unread(messageBody, start), |signature|, 1
  {
    var codes, pointer, argIndex, found := signature, start, firstIndex, before;
    while codes != []
      invariant |codes| <= |signature| && start <= pointer
      invariant Collect(codes, messageBody, pointer, argIndex, found, allowed)
             == Collect(signature, messageBody, start, firstIndex, before, allowed)
      decreases |codes|
    {
      hide StrideOver, Collect, Unread;
      UnreadShrinks(messageBody, start, pointer);
      CollectStep(codes, messageBody, pointer, argIndex, found, allowed);
      var stride := WalkCode(codes, messageBody, pointer, argIndex, found, allowed);
      if stride.Halt? {
        return stride.outcome;
      }
      codes, pointer, found := stride.rest, stride.pointer, stride.found;
      argIndex := Next(argIndex);
    }
    return Collected(found, pointer);
  }

  lemma UnreadShrinks(b: seq<byte>, p: nat, q: nat)
    requires p <= q
    ensures Unread(b, q) <= Unread(b, p)
  {
  }

  lemma CollectStep(codes: Text, b: seq<byte>, pointer: nat, i: byte, found: Found, allowed: bool)
    requires codes != []
    ensures Collect(codes, b, pointer, i, found, allowed) ==
            match StrideOver(codes, b, pointer, i, found, allowed)
            case Halt(outcome) => outcome
            case Stride(rest, q, more) => Collect(rest, b, q, Next(i), more, allowed)
  {
    hide StrideOver;
  }

  /** The loop's body. */
  method WalkCode(codes: Text, b: seq<byte>, pointer: nat, i: byte, found: Found, allowed: bool) returns (r: Stride)
    requires codes != []
    ensures r == StrideOver(codes, b, pointer, i, found, allowed)
    decreases Unread(b, pointer), |codes|, 0
  {
    hide Collect, PadLen, ReadNumber, ReadText, NestedSignature, Behind, TextStride, ArrayStride, DictStride,
         StructFields;
    var c, alignment := codes[0], AlignmentOfCode(codes[0]);
    if alignment.Unknown? {
      return Halt(Failed(UnknownCode));
    }
    var p := AlignUp(pointer, alignment.a);
    if IsFixedCode(c) {
      return Stride(codes[1..], p + alignment.a, found);
    }
    if IsTextCode(c) {
      r := WalkText(codes, b, p, i, found, allowed);
    } else if c == ARRAY {
      r := WalkArray(codes, b, p, found);
    } else if c == DICT_BEGIN {
      r := WalkDict(codes, b, p, found);
    } else if c == STRUCT_BEGIN {
      var fields := WalkStruct(codes, b, p);
      match fields {
        case Stopped(outcome) => return Halt(outcome);
        case Done(k, q) => return Stride(Drop(codes, k + 2), q, found);
      }
    } else {
      var nested := NestedSignature(b, p);
      if nested.Err? {
        return Halt(Failed(nested.error));
      }
      var payload := WalkSignature(nested.value.0, b, AlignUp(nested.next, nested.value.1), i, found, false);
      match payload {
        case Collected(_, end) => return Stride(codes[1..], end, found);
        case other => return Halt(other);
      }
    }
  }

  method WalkText(codes: Text, b: seq<byte>, p: nat, i: byte, found: Found, allowed: bool) returns (r: Stride)
    requires codes != []
    ensures r == TextStride(codes, b, p, i, found, allowed)
  {
    if codes[0] == SIGNATURE || !allowed {
      var length := ReadNumber(b, p, if codes[0] == SIGNATURE then 1 else 4);
      if length.Err? {
        return Halt(Failed(length.error));
      }
      return Stride(codes[1..], length.next + length.value + 1, found);
    }
    var text := ReadText(String, b, p);
    if text.Err? {
      return Halt(Failed(text.error));
    }
    if codes[0] == STRING {
      return Stride(codes[1..], text.next, found.(strings := Insert(found.strings, i, text.value)));
    }
    var verdict := Validate(text.value);
    if verdict.Invalid? {
      return Halt(Failed(BadPath));
    }
    return Stride(codes[1..], text.next, found.(paths := Insert(found.paths, i, text.value)));
  }

  method WalkArray(codes: Text, b: seq<byte>, p: nat, found: Found) returns (r: Stride)
    requires codes != []
    ensures r == ArrayStride(codes, b, p, found)
  {
    if CodeAt(codes, 1) == DICT_BEGIN {
      return Stride(codes[1..], p, found);
    }
    var arrSize := ReadNumber(b, p, 4);
    if arrSize.Err? {
      return Halt(Failed(arrSize.error));
    }
    var alignment := AlignmentOfCode(CodeAt(codes, 1));
    if alignment.Unknown? {
      return Halt(Failed(UnknownCode));
    }
    return Stride(Drop(codes, 2), AlignUp(arrSize.next, alignment.a) + arrSize.value, found);
  }

  method WalkDict(codes: Text, b: seq<byte>, p: nat, found: Found) returns (r: Stride)
    requires codes != []
    ensures r == DictStride(codes, b, p, found)
  {
    var dictSize := ReadNumber(b, p, 4);
    if dictSize.Err? {
      return Halt(Failed(dictSize.error));
    }
    var i, bracketCounter: nat := 0, 1;
    while bracketCounter > 0
      invariant i < |codes|
      invariant Behind(codes[i + 1..], bracketCounter) == Behind(codes[1..], 1)
      decreases |codes| - i
    {
      i := i + 1;
      if i == |codes| {
        return Halt(Undefined);
      }
      assert codes[i..][0] == codes[i] && codes[i..][1..] == codes[i + 1..];
      if codes[i] == DICT_END {
        bracketCounter := bracketCounter - 1;
      } else if codes[i] == DICT_BEGIN {
        bracketCounter := bracketCounter + 1;
      }
    }
    return Stride(codes[i + 1..], AlignUp(dictSize.next, 8) + dictSize.value, found);
  }

  method WalkStruct(codes: Text, b: seq<byte>, start: nat) returns (r: Fields)
    requires codes != []
    ensures r == StructFields(codes, 1, b, start)
    decreases Unread(b, start), |codes| - 1, 2
  {
    var k, pointer := 1, start;
    while CodeAt(codes, k) != STRUCT_END
      invariant 1 <= k <= |codes| && start <= pointer
      invariant StructFields(codes, k, b, pointer) == StructFields(codes, 1, b, start)
      decreases |codes| - k
    {
      hide Collect, PadLen, AlignmentOfCode;
      if k == |codes| {
        return Stopped(Failed(UnknownCode));
      }
      var field := WalkSignature([codes[k]], b, pointer, 0, NOTHING_FOUND, false);
      if !field.Collected? {
        return Stopped(field);
      }
      pointer := field.pointer;
      if k + 2 > |codes| {
        return Stopped(Undefined);
      }
      if CodeAt(codes, k + 2) == STRUCT_END {
        return Done(k + 1, pointer);
      }
      var alignment := AlignmentOfCode(CodeAt(codes, k + 2));
      if alignment.Unknown? {
        return Stopped(Failed(UnknownCode));
      }
      pointer := AlignUp(pointer, alignment.a);
      k := k + 1;
    }
    return Done(k, pointer);
  }

  // ---------- what is never added ----------

  /** Only a string or a path at the top level is added, at most one a turn, and under
      an index not taken before. */
  lemma OnlyTextsAreAdded(codes: Text, b: seq<byte>, p: nat, i: byte, found: Found, allowed: bool)
    requires codes != [] && StrideOver(codes, b, p, i, found, allowed).Stride?
    ensures var more := StrideOver(codes, b, p, i, found, allowed).found;
            && (!allowed ==> more == found)
            && (codes[0] as char != 's' ==> more.strings == found.strings)
            && (codes[0] as char != 'o' ==> more.paths == found.paths)
            && more.strings.Keys <= found.strings.Keys + {i} && more.paths.Keys <= found.paths.Keys + {i}
            && (forall k :: k in found.strings ==> more.strings[k] == found.strings[k])
            && (forall k :: k in found.paths ==> more.paths[k] == found.paths[k])
  {
    hide PadLen, ReadText, ReadNumber, NestedSignature, StructFields, Collect, Behind, AlignmentOfCode, IsValidPath;
  }

  /** So the walk over a struct's field or a variant's payload adds nothing. */
  lemma {:induction false} NestedWalksAddNothing(codes: Text, b: seq<byte>, p: nat, i: byte, found: Found)
    ensures Collect(codes, b, p, i, found, false).Collected? ==> Collect(codes, b, p, i, found, false).found == found
    decreases Unread(b, p), |codes|
  {
    hide StrideOver, Unread;
    if codes != [] {
      CollectStep(codes, b, p, i, found, false);
      match StrideOver(codes, b, p, i, found, false) {
        case Halt(_) =>
        case Stride(rest, q, more) =>
          OnlyTextsAreAdded(codes, b, p, i, found, false);
          UnreadShrinks(b, p, q);
          NestedWalksAddNothing(rest, b, q, Next(i), more);
      }
    }
  }

  /** A path argument that is no path ends the walk with an error. */
  lemma InvalidPathFails(s: Text, rest: Text, b: seq<byte>, p: nat, i: byte, found: Found)
    requires At(b, AlignUp(p, 4), EncText(Path, s)) && |b| < TWO_TO_THE_32 && !IsGrammatical(s)
    ensures Collect([Code('o')] + rest, b, p, i, found, true) == Failed(BadPath)
  {
    hide PadLen, EncText, ReadText, ReadNumber, IsGrammatical, IsValidPath;
    ValidPathIsGrammatical(s);
    ReadTextBack(Path, s, b, AlignUp(p, 4));
    PathsAreReadAsStrings(s, b, AlignUp(p, 4));
    FrontCode(Code('o'), rest);
  }

  // ---------- one argument ----------

  /** Basic arguments, and arrays whose element is one type code. */
  predicate IsPlain(t: Type) {
    IsBasic(t) || (t.Array? && SingleCode(t.elem))
  }

  predicate AllPlain(ts: seq<Type>) {
    forall i :: 0 <= i < |ts| ==> IsPlain(ts[i])
  }

  predicate PlainOrDict(t: Type) {
    IsPlain(t) || t.Dict?
  }

  predicate AllPlainOrDict(ts: seq<Type>) {
    forall i :: 0 <= i < |ts| ==> PlainOrDict(ts[i])
  }

  function Noted(t: Type, v: Value, i: byte, found: Found): Found
    requires Typed(t, v)
  {
    if t == Text(String) then found.(strings := Insert(found.strings, i, v.s))
    else if t == Text(Path) then found.(paths := Insert(found.paths, i, v.s))
    else found
  }

  lemma TextIsStepped(t: Type, v: Value, rest: Text, b: seq<byte>, p: nat, i: byte, found: Found)
    requires t.Text? && Typed(t, v) && ShortText(t, v) && |b| < TWO_TO_THE_32
    requires var q := AlignUp(p, AlignmentOf(t)); At(b, q, Enc(t, v, q))
    ensures StrideOver(Sig(t) + rest, b, p, i, found, true) ==
            var q := AlignUp(p, AlignmentOf(t)); Stride(rest, q + |Enc(t, v, q)|, Noted(t, v, i, found))
  {
    hide PadLen, EncText, ReadText, ReadNumber;
    var q := AlignUp(p, AlignmentOf(t));
    ReadTextBack(t.text, v.s, b, q);
    FrontCode(TextCode(t.text), rest);
    assert Enc(t, v, q) == EncText(t.text, v.s);
    if t.text.Path? {
      PathsAreReadAsStrings(v.s, b, q);
    }
  }

  lemma PathsAreReadAsStrings(s: Text, b: seq<byte>, q: nat)
    ensures ReadText(Path, b, q) == ReadText(String, b, q) && EncText(Path, s) == EncText(String, s)
  {
  }

  lemma NumberIsStepped(t: Type, v: Value, rest: Text, b: seq<byte>, p: nat, i: byte, found: Found)
    requires t.Fixed? && Typed(t, v)
    ensures StrideOver(Sig(t) + rest, b, p, i, found, true) ==
            var q := AlignUp(p, AlignmentOf(t)); Stride(rest, q + |Enc(t, v, q)|, found)
  {
    hide PadLen, LE;
    FrontCode(FixedCode(t.fixed), rest);
    AlignmentTablesAgree(t);
  }

  lemma ArrayIsStepped(t: Type, v: Value, rest: Text, b: seq<byte>, p: nat, i: byte, found: Found)
    requires t.Array? && SingleCode(t.elem) && Typed(t, v) && |b| < TWO_TO_THE_32
    requires At(b, AlignUp(p, 4), Enc(t, v, AlignUp(p, 4)))
    ensures StrideOver(Sig(t) + rest, b, p, i, found, true) ==
            Stride(rest, AlignUp(p, 4) + |Enc(t, v, AlignUp(p, 4))|, found)
  {
    hide PadLen, LE, ReadNumber, Enc, EncElems, At, Zeros, Typed, AlignmentOf, ArrayStride;
    ArrayIsList(t, v);
    var e, q := t.elem, AlignUp(p, 4);
    var start := AlignUp(q + 4, AlignmentOf(e));
    var body := EncElems(e, v.elems, start);
    ArrayStep(e, v.elems, q);
    AtSplit3(b, q, LE(|body|, 4), Zeros(start - q - 4), body);
    FitsIn(b, start, body);
    ReadLengthBack(|body|, b, q);
    SingleArrayCodes(e, rest);
    OverArray(Sig(t) + rest, AlignmentOf(e), |body|, b, q, found);
  }

  lemma SingleArrayCodes(e: Type, rest: Text)
    requires SingleCode(e)
    ensures var codes := Sig(Array(e)) + rest;
            && |codes| >= 2 && codes[0] == ARRAY && codes[1] != DICT_BEGIN && codes[2..] == rest
            && AlignmentOfCode(codes[1]) == Known(AlignmentOf(e))
  {
    AlignmentTablesAgree(e);
    SigIsNotClosing(e);
  }

  lemma OverArray(codes: Text, a: Alignment, n: nat, b: seq<byte>, q: nat, found: Found)
    requires |codes| >= 2 && codes[1] != DICT_BEGIN && AlignmentOfCode(codes[1]) == Known(a)
    requires ReadNumber(b, q, 4) == Ok(n, q + 4)
    ensures ArrayStride(codes, b, q, found) == Stride(codes[2..], AlignUp(q + 4, a) + n, found)
  {
    hide PadLen, ReadNumber, AlignmentOfCode;
  }

  lemma ArrayIsList(t: Type, v: Value)
    requires t.Array? && Typed(t, v)
    ensures v.List?
  {
  }

  lemma PlainIsStepped(t: Type, v: Value, rest: Text, b: seq<byte>, p: nat, i: byte, found: Found)
    requires IsPlain(t) && Typed(t, v) && ShortText(t, v) && |b| < TWO_TO_THE_32
    requires var q := AlignUp(p, AlignmentOf(t)); At(b, q, Enc(t, v, q))
    ensures Collect(Sig(t) + rest, b, p, i, found, true) ==
            var q := AlignUp(p, AlignmentOf(t));
            Collect(rest, b, q + |Enc(t, v, q)|, Next(i), Noted(t, v, i, found), true)
  {
    hide PadLen, Enc, At, StrideOver, Sig, Typed, AlignmentOf;
    if t.Array? {
      ArraysAreFours(t);
      ArrayIsStepped(t, v, rest, b, p, i, found);
    } else if t.Text? {
      TextIsStepped(t, v, rest, b, p, i, found);
    } else {
      NumberIsStepped(t, v, rest, b, p, i, found);
    }
  }

  lemma ArraysAreFours(t: Type)
    requires t.Array?
    ensures AlignmentOf(t) == 4
  {
  }

  /** Signature values have the length their wire format allows. */
  predicate ShortText(t: Type, v: Value) {
    t == Text(TextKind.Signature) && v.Txt? ==> |v.s| < 256
  }

  predicate AllShort(ts: seq<Type>, vs: seq<Value>)
    requires |ts| == |vs|
  {
    forall i :: 0 <= i < |ts| ==> ShortText(ts[i], vs[i])
  }

  // ---------- a dictionary ----------

  lemma BehindStep(c: byte, rest: Text, depth: nat)
    requires depth >= 1
    ensures Behind([c] + rest, depth) ==
            Behind(rest, if c == DICT_END then depth - 1 else if c == DICT_BEGIN then depth + 1 else depth)
  {
    FrontCode(c, rest);
  }

  lemma {:induction false} BehindSkips(t: Type, rest: Text, depth: nat)
    requires depth >= 1
    ensures Behind(Sig(t) + rest, depth) == Behind(rest, depth)
    decreases t, 0
  {
    hide Behind;
    match t {
      case Array(e) =>
        BehindSkips(e, rest, depth);
        Regroup([ARRAY], Sig(e), rest);
        BehindStep(ARRAY, Sig(e) + rest, depth);
      case Struct(fs) =>
        StructSig(fs, rest);
        BehindStep(STRUCT_BEGIN, Sigs(fs) + ([STRUCT_END] + rest), depth);
        BehindSkipsAll(fs, [STRUCT_END] + rest, depth);
        BehindStep(STRUCT_END, rest, depth);
      case Dict(k, v) =>
        var inside := Sig(k) + (Sig(v) + ([DICT_END] + rest));
        DictSigThen(k, v, rest);
        BehindStep(ARRAY, [DICT_BEGIN] + inside, depth);
        BehindStep(DICT_BEGIN, inside, depth);
        BehindSkips(k, Sig(v) + ([DICT_END] + rest), depth + 1);
        BehindSkips(v, [DICT_END] + rest, depth + 1);
        BehindStep(DICT_END, rest, depth + 1);
      case Fixed(k) => BehindStep(FixedCode(k), rest, depth);
      case Text(k) => BehindStep(TextCode(k), rest, depth);
      case Variant => BehindStep(VARIANT, rest, depth);
    }
  }

  lemma {:induction false} BehindSkipsAll(ts: seq<Type>, rest: Text, depth: nat)
    requires depth >= 1
    ensures Behind(Sigs(ts) + rest, depth) == Behind(rest, depth)
    decreases ts, 1
  {
    if ts == [] {
      assert Sigs(ts) + rest == rest;
    } else {
      SigsHead(ts, rest);
      BehindSkips(ts[0], Sigs(ts[1..]) + rest, depth);
      BehindSkipsAll(ts[1..], rest, depth);
    }
  }

  /** A dictionary is walked over in two turns of the loop, so it counts as two arguments. */
  lemma DictTakesTwoTurns(k: Type, t: Type, v: Value, rest: Text, b: seq<byte>, p: nat, i: byte, found: Found)
    requires v.Map? && |b| < TWO_TO_THE_32
    requires At(b, AlignUp(p, 8), Enc(Dict(k, t), v, AlignUp(p, 8)))
    ensures Collect(Sig(Dict(k, t)) + rest, b, p, i, found, true) ==
            Collect(rest, b, AlignUp(p, 8) + |Enc(Dict(k, t), v, AlignUp(p, 8))|, Next(Next(i)), found, true)
  {
    hide PadLen, LE, ReadNumber, Enc, EncEntries, At, Zeros, Sig, StrideOver, Behind, AlignmentOfCode;
    var q := AlignUp(p, 8);
    var start := AlignUp(q + 4, 8);
    var body := EncEntries(k, t, v.entries, start);
    DictStep(k, t, v.entries, q);
    AtSplit3(b, q, LE(|body|, 4), Zeros(start - q - 4), body);
    FitsIn(b, start, body);
    ReadLengthBack(|body|, b, q);
    var inside := Sig(k) + (Sig(t) + ([DICT_END] + rest));
    DictSigThen(k, t, rest);
    FourThenEight(p);
    OverArrayCode(inside, b, p, i, found);
    OverBrace(inside, rest, |body|, b, AlignUp(p, 4), Next(i), found) by {
      BehindKey(k, t, rest);
    }
  }

  lemma BehindKey(k: Type, t: Type, rest: Text)
    ensures Behind(Sig(k) + (Sig(t) + ([DICT_END] + rest)), 1) == Some(rest)
  {
    hide Sig;
    BehindSkips(k, Sig(t) + ([DICT_END] + rest), 1);
    BehindSkips(t, [DICT_END] + rest, 1);
    FrontCode(DICT_END, rest);
  }

  lemma FourThenEight(p: nat)
    ensures AlignUp(AlignUp(p, 4), 8) == AlignUp(p, 8)
  {
  }

  lemma OverArrayCode(inside: Text, b: seq<byte>, p: nat, i: byte, found: Found)
    ensures Collect([ARRAY] + ([DICT_BEGIN] + inside), b, p, i, found, true) ==
            Collect([DICT_BEGIN] + inside, b, AlignUp(p, 4), Next(i), found, true)
  {
    hide PadLen;
    FrontCode(ARRAY, [DICT_BEGIN] + inside);
    FrontCode(DICT_BEGIN, inside);
    assert CodeAt([ARRAY] + ([DICT_BEGIN] + inside), 1) == DICT_BEGIN;
  }

  lemma OverBrace(inside: Text, rest: Text, n: nat, b: seq<byte>, p: nat, i: byte, found: Found)
    requires Behind(inside, 1) == Some(rest)
    requires ReadNumber(b, AlignUp(p, 8), 4) == Ok(n, AlignUp(p, 8) + 4)
    ensures Collect([DICT_BEGIN] + inside, b, p, i, found, true) ==
            Collect(rest, b, AlignUp(AlignUp(p, 8) + 4, 8) + n, Next(i), found, true)
  {
    hide PadLen, ReadNumber, Behind;
    FrontCode(DICT_BEGIN, inside);
  }

  // ---------- all arguments ----------

  function Turns(t: Type): nat {
    if t.Dict? then 2 else 1
  }

  /** The index under which argument `n` is looked for. */
  function Index(ts: seq<Type>, n: nat): nat
    requires n <= |ts|
  {
    if n == 0 then 0 else Index(ts, n - 1) + Turns(ts[n - 1])
  }

  lemma {:induction false} IndicesGrow(ts: seq<Type>, j: nat, n: nat)
    requires j < n <= |ts|
    ensures Index(ts, j) < Index(ts, n)
  {
    if j < n - 1 {
      IndicesGrow(ts, j, n - 1);
    }
  }

  /** An argument is found under its own index exactly when no dictionary precedes it. */
  lemma {:induction false} OwnIndexIffNoDictBefore(ts: seq<Type>, n: nat)
    requires n <= |ts|
    ensures Index(ts, n) >= n
    ensures Index(ts, n) == n <==> forall i :: 0 <= i < n ==> !ts[i].Dict?
  {
    if n > 0 {
      OwnIndexIffNoDictBefore(ts, n - 1);
    }
  }

  /** `m` holds exactly the texts of type `t` among the first `n` arguments, each
      under its index. */
  ghost predicate HoldsExactly(m: Arguments, t: Type, ts: seq<Type>, vs: seq<Value>, n: nat)
    requires |ts| == |vs| && n <= |ts|
  {
    && (forall j :: 0 <= j < n && ts[j] == t ==> IsUnder(m, vs[j], Index(ts, j)))
    && (forall k :: k in m ==> exists j :: 0 <= j < n && ts[j] == t && Index(ts, j) == k)
  }

  predicate IsUnder(m: Arguments, v: Value, k: nat) {
    k < 256 && k in m && v == Txt(m[k])
  }

  ghost predicate IsExact(found: Found, ts: seq<Type>, vs: seq<Value>, n: nat)
    requires |ts| == |vs| && n <= |ts|
  {
    HoldsExactly(found.strings, Text(String), ts, vs, n) && HoldsExactly(found.paths, Text(Path), ts, vs, n)
  }

  lemma AddingIsExact(m: Arguments, t: Type, ts: seq<Type>, vs: seq<Value>, n: nat)
    requires |ts| == |vs| && n < |ts| && Index(ts, n) < 256 && HoldsExactly(m, t, ts, vs, n)
    ensures ts[n] != t ==> HoldsExactly(m, t, ts, vs, n + 1)
    ensures ts[n] == t && vs[n].Txt? ==> HoldsExactly(Insert(m, Index(ts, n), vs[n].s), t, ts, vs, n + 1)
  {
    hide Index;
    forall j | 0 <= j < n ensures Index(ts, j) < Index(ts, n) {
      IndicesGrow(ts, j, n);
    }
  }

  lemma NotingIsExact(found: Found, ts: seq<Type>, vs: seq<Value>, n: nat)
    requires |ts| == |vs| && n < |ts| && Index(ts, n) < 256 && IsExact(found, ts, vs, n) && Typed(ts[n], vs[n])
    ensures IsExact(Noted(ts[n], vs[n], Index(ts, n), found), ts, vs, n + 1)
  {
    hide HoldsExactly, Index;
    AddingIsExact(found.strings, Text(String), ts, vs, n);
    AddingIsExact(found.paths, Text(Path), ts, vs, n);
  }

  lemma {:induction false} CollectsTheRest(ts: seq<Type>, vs: seq<Value>, n: nat, b: seq<byte>, p: nat, found: Found)
    returns (all: Found)
    requires |ts| == |vs| && n < |ts| && Index(ts, |ts|) < 256 && IsExact(found, ts, vs, n)
    requires AllPlainOrDict(ts) && AllShort(ts, vs) && |b| < TWO_TO_THE_32
    requires PartsTyped(ts[n..], vs[n..])
    requires var q := AlignUp(p, AlignmentOf(ts[n])); At(b, q, EncParts(TopLevel, ts[n..], vs[n..], q))
    requires Index(ts, n) < 256
    ensures IsExact(all, ts, vs, |ts|)
    ensures var q := AlignUp(p, AlignmentOf(ts[n]));
            Collect(Sigs(ts[n..]), b, p, Index(ts, n), found, true) ==
            Collected(all, q + |EncParts(TopLevel, ts[n..], vs[n..], q)|)
    decreases |ts| - n
  {
    hide PadLen, Enc, EncParts, At, Sig, Sigs, Typed, PartsTyped, AlignmentOf, Collect, Noted, IsExact, PlainOrDict,
         Zeros, ShortText, Index, Next;
    var us, ws, t, v := ts[n..], vs[n..], ts[n], vs[n];
    var q := AlignUp(p, AlignmentOf(t));
    var end := q + |Enc(t, v, q)|;
    HeadIsTyped(us, ws);
    HeadBytes(us, ws, b, q);
    SigsHead(us, []);
    NoMore(Sigs(us), Sigs(us[1..]));
    NotingIsExact(found, ts, vs, n);
    NextIndexFits(ts, n);
    all := Noted(t, v, Index(ts, n), found);
    OneArgument(ts, n, v, Sigs(us[1..]), b, p, found);
    if |us| == 1 {
      LastArgument(us, b, end, Index(ts, n + 1), all);
    } else {
      assert us[1..] == ts[n + 1..] && ws[1..] == vs[n + 1..] && us[1] == ts[n + 1];
      all := CollectsTheRest(ts, vs, n + 1, b, end, all);
    }
  }

  /** Where the first of several arguments stands, and the others behind it. */
  lemma HeadBytes(us: seq<Type>, ws: seq<Value>, b: seq<byte>, q: nat)
    requires us != [] && ws != [] && At(b, q, EncParts(TopLevel, us, ws, q))
    ensures At(b, q, Enc(us[0], ws[0], q))
    ensures |us| == 1 ==> |EncParts(TopLevel, us, ws, q)| == |Enc(us[0], ws[0], q)|
    ensures |us| > 1 ==>
              var next := AlignUp(q + |Enc(us[0], ws[0], q)|, AlignmentOf(us[1]));
              && At(b, next, EncParts(TopLevel, us[1..], ws[1..], next))
              && q + |EncParts(TopLevel, us, ws, q)| == next + |EncParts(TopLevel, us[1..], ws[1..], next)|
  {
    hide PadLen, Enc, EncParts, At, AlignmentOf, Zeros;
    var head, next := Enc(us[0], ws[0], q), NextPart(TopLevel, us, ws, q);
    PartsStep(TopLevel, us, ws, q);
    AtSplit3(b, q, head, Zeros(next - q - |head|), EncParts(TopLevel, us[1..], ws[1..], next));
    if |us| == 1 {
      NoParts(TopLevel, us[1..], ws[1..], next);
    }
  }

  lemma HeadIsTyped(ts: seq<Type>, vs: seq<Value>)
    requires ts != [] && PartsTyped(ts, vs)
    ensures vs != [] && Typed(ts[0], vs[0]) && PartsTyped(ts[1..], vs[1..])
  {
    hide Typed;
  }

  lemma NextIndexFits(ts: seq<Type>, n: nat)
    requires n < |ts| && Index(ts, |ts|) < 256
    ensures Index(ts, n + 1) == Index(ts, n) + Turns(ts[n]) < 256
  {
    if n + 1 < |ts| {
      IndicesGrow(ts, n + 1, |ts|);
    }
  }

  lemma OneArgument(ts: seq<Type>, n: nat, v: Value, rest: Text, b: seq<byte>, p: nat, found: Found)
    requires n < |ts| && Index(ts, n + 1) == Index(ts, n) + Turns(ts[n]) < 256
    requires PlainOrDict(ts[n]) && Typed(ts[n], v) && ShortText(ts[n], v) && |b| < TWO_TO_THE_32
    requires var q := AlignUp(p, AlignmentOf(ts[n])); At(b, q, Enc(ts[n], v, q))
    ensures var q := AlignUp(p, AlignmentOf(ts[n]));
            Collect(Sig(ts[n]) + rest, b, p, Index(ts, n), found, true) ==
            Collect(rest, b, q + |Enc(ts[n], v, q)|, Index(ts, n + 1), Noted(ts[n], v, Index(ts, n), found), true)
  {
    hide PadLen, Enc, At, Sig, Collect, Index, ShortText, IsPlain, EncEntries;
    var t := ts[n];
    if t.Dict? {
      DictTakesTwoTurns(t.key, t.val, v, rest, b, p, Index(ts, n), found);
    } else {
      PlainIsStepped(t, v, rest, b, p, Index(ts, n), found);
    }
  }

  lemma NoMore(x: Text, y: Text)
    ensures x + [] == x && y + [] == y
  {
  }

  lemma LastArgument(us: seq<Type>, b: seq<byte>, p: nat, i: byte, found: Found)
    requires |us| == 1
    ensures Collect(Sigs(us[1..]), b, p, i, found, true) == Collected(found, p)
  {
  }

  /** On a body of plain arguments and dictionaries the walk consumes every byte, and
      finds exactly the strings and the object paths, each under its index; but each
      dictionary shifts the indices behind it by one. */
  lemma WalkFindsExactlyTheTexts(ts: seq<Type>, vs: seq<Value>, body: seq<byte>) returns (found: Found)
    requires |ts| == |vs| && PartsTyped(ts, vs) && AllPlainOrDict(ts) && AllShort(ts, vs)
    requires |Sigs(ts)| < 256 && body == EncParts(TopLevel, ts, vs, 0) && |body| < TWO_TO_THE_32
    ensures Collect(Sigs(ts), body, 0, 0, NOTHING_FOUND, true) == Collected(found, |body|)
    ensures IsExact(found, ts, vs, |ts|)
  {
    hide EncParts, Sigs, PartsTyped, AlignmentOf, Collect, AllPlainOrDict, AllShort, PadLen, FaultOfParts;
    ShortSignature(ts, |ts|);
    assert ts[..|ts|] == ts;
    if ts == [] {
      found := NOTHING_FOUND;
      NoParts(TopLevel, ts, vs, 0);
      NoArguments(ts, body);
    } else {
      assert ts[0..] == ts && vs[0..] == vs;
      NothingBefore(AlignmentOf(ts[0]));
      found := CollectsTheRest(ts, vs, 0, body, 0, NOTHING_FOUND);
    }
  }

  lemma NothingBefore(a: Alignment)
    ensures AlignUp(0, a) == 0
  {
  }

  lemma NoArguments(ts: seq<Type>, b: seq<byte>)
    requires ts == []
    ensures Collect(Sigs(ts), b, 0, 0, NOTHING_FOUND, true) == Collected(NOTHING_FOUND, 0)
  {
  }

  lemma {:induction false} ShortSignature(ts: seq<Type>, n: nat)
    requires n <= |ts|
    ensures Index(ts, n) <= |Sigs(ts[..n])|
  {
    hide Sig;
    if n > 0 {
      ShortSignature(ts, n - 1);
      SigsPush(ts[..n - 1], ts[n - 1]);
      assert ts[..n] == ts[..n - 1] + [ts[n - 1]];
      DictSigIsLong(ts[n - 1]);
    }
  }

  lemma DictSigIsLong(t: Type)
    ensures Turns(t) <= |Sig(t)|
  {
  }

  lemma {:induction false} SigsPush(ts: seq<Type>, t: Type)
    ensures Sigs(ts + [t]) == Sigs(ts) + Sig(t)
  {
    hide Sig;
    if ts == [] {
      assert [t][1..] == [];
    } else {
      assert (ts + [t])[1..] == ts[1..] + [t];
      SigsPush(ts[1..], t);
      Regroup(Sig(ts[0]), Sigs(ts[1..]), Sig(t));
    }
  }

  /** So, with no dictionary among the arguments, an argument condition holds exactly
      when that argument is a string with that text, and an argument-path condition
      exactly when it is a string or an object path that the definition in section
      "Match Rules" accepts. */
  lemma RulesSeeTheArguments(ts: seq<Type>, vs: seq<Value>, found: Found, rule: ArgInfo)
    requires |ts| == |vs| && PartsTyped(ts, vs) && IsExact(found, ts, vs, |ts|) && AllPlain(ts)
    ensures TextHolds(rule, found.strings) <==>
            rule.index < |ts| && ts[rule.index] == Text(String) && vs[rule.index] == Txt(rule.name)
    ensures PathHolds(rule, found.strings, found.paths) <==>
            && rule.index < |ts| && (ts[rule.index] == Text(String) || ts[rule.index] == Text(Path))
            && vs[rule.index].Txt? && PathsMatch(rule.name, vs[rule.index].s)
    ensures ArgNamespaceHolds(Some(rule.name), found.strings) <==>
            ts != [] && ts[0] == Text(String) && vs[0].Txt? && rule.name <= vs[0].s
  {
    hide PathsMatch, PartsTyped, HoldsExactly, Index;
    OwnIndices(ts, vs, found.strings, Text(String), 0);
    OwnIndices(ts, vs, found.strings, Text(String), rule.index);
    OwnIndices(ts, vs, found.paths, Text(Path), rule.index);
  }

  lemma OwnIndices(ts: seq<Type>, vs: seq<Value>, m: Arguments, t: Type, k: byte)
    requires |ts| == |vs| && HoldsExactly(m, t, ts, vs, |ts|) && AllPlain(ts)
    ensures k in m <==> k < |ts| && ts[k] == t
    ensures k in m ==> vs[k] == Txt(m[k])
  {
    hide Index;
    forall j | 0 <= j < |ts| ensures Index(ts, j) == j {
      OwnIndexIffNoDictBefore(ts, j);
    }
  }

  // ---------- variants ----------

  /** The signature of a variant is read without its own length, so its first code is
      taken for one: it is readable exactly when the rest is that long, counting a
      terminator that is its last code. */
  lemma VariantSignatureIsReadIff(sig: Text, b: seq<byte>, p: nat)
    requires sig != [] && |sig| < 256 && At(b, p, EncText(Signature, sig)) && |b| < TWO_TO_THE_32
    ensures NestedSignature(b, p).Ok? ==> |sig| == sig[0] as int + 2
    ensures |sig| != sig[0] as int + 2 ==> NestedSignature(b, p) == Err(Malformed)
    ensures |sig| == sig[0] as int + 2 ==>
              NestedSignature(b, p) == match AlignmentOfCode(CodeAt(sig[1..|sig| - 1], 0))
                                       case Unknown => Err(UnknownCode)
                                       case Known(a) => Ok((sig[1..|sig| - 1], a), p + 1 + |sig|)
  {
    hide ReadNumber, LE, At, AlignmentOfCode;
    AtSplit3(b, p, LE(|sig|, 1), sig, [0]);
    Pow256Values();
    ReadNumberBack(|sig|, 1, b, p);
    FitsIn(b, p + 1, sig);
    SliceIs(b, p + 1, sig);
    ReadItself(sig);
  }

  lemma SliceIs(b: seq<byte>, p: nat, s: seq<byte>)
    requires At(b, p, s)
    ensures b[p..p + |s|] == s
  {
  }

  lemma ReadItself(sig: Text)
    requires sig != []
    ensures ReadText(Signature, sig, 0) == if 1 + sig[0] as int >= |sig| then Err(Malformed)
            else Ok(sig[1..1 + sig[0] as int], 2 + sig[0] as int)
  {
    assert sig[0..1] == [sig[0]];
    assert FromLE([sig[0]]) == sig[0] by { assert [sig[0]][1..] == []; }
  }

  /** A variant whose signature is not of that length ends the walk with an error,
      wherever among the arguments it stands. */
  lemma VariantArgumentFails(u: Type, w: Value, rest: Text, b: seq<byte>, p: nat, i: byte, found: Found, allowed: bool)
    requires |Sig(u)| < 256 && |Sig(u)| != Sig(u)[0] as int + 2 && |b| < TWO_TO_THE_32
    requires At(b, p, Enc(Variant, Boxed(u, w), p))
    ensures Collect(Sig(Variant) + rest, b, p, i, found, allowed) == Failed(Malformed)
  {
    hide EncText, Enc, At, NestedSignature, PadLen;
    var start := PayloadStart(u, p);
    var sig := EncText(Signature, Sig(u));
    BoxStep(u, w, p);
    AtSplit3(b, p, sig, Zeros(start - p - |sig|), Enc(u, w, start));
    VariantSignatureIsReadIff(Sig(u), b, p);
    FrontCode(VARIANT, rest);
    Unpadded(p);
  }

  lemma Unpadded(p: nat)
    ensures AlignUp(p, 1) == p
  {
  }

  // ---------- structs ----------

  function Numbers(ks: seq<FixedKind>): (ts: seq<Type>)
    ensures |ts| == |ks|
    ensures forall i :: 0 <= i < |ks| ==> ts[i] == Fixed(ks[i])
  {
    if ks == [] then [] else [Fixed(ks[0])] + Numbers(ks[1..])
  }

  function Codes(ks: seq<FixedKind>): (s: Text)
    ensures |s| == |ks|
    ensures forall i :: 0 <= i < |ks| ==> s[i] == FixedCode(ks[i])
  {
    if ks == [] then [] else [FixedCode(ks[0])] + Codes(ks[1..])
  }

  lemma {:induction false} NumbersHaveCodes(ks: seq<FixedKind>)
    ensures Sigs(Numbers(ks)) == Codes(ks)
  {
    if ks != [] {
      NumbersHaveCodes(ks[1..]);
      assert Numbers(ks)[1..] == Numbers(ks[1..]);
    }
  }

  lemma StructOfNumbers(ks: seq<FixedKind>, rest: Text)
    ensures Sig(Struct(Numbers(ks))) + rest == [STRUCT_BEGIN] + (Codes(ks) + ([STRUCT_END] + rest))
  {
    hide Sig, Sigs;
    NumbersHaveCodes(ks);
    StructSig(Numbers(ks), rest);
  }

  /** Where the walk leaves a struct of two or more numbers: before each but the first
      two it has padded for the number after the next, and the last it never reaches. */
  function LeftAt(ks: seq<FixedKind>, p: nat): nat
    requires |ks| >= 2
  {
    var q := AlignUp(p, Width(ks[0])) + Width(ks[0]);
    if |ks| == 2 then q else LeftAt(ks[1..], AlignUp(q, Width(ks[2])))
  }

  /** Where such a struct ends. */
  function EndOf(ks: seq<FixedKind>, p: nat): nat {
    if ks == [] then p else EndOf(ks[1..], AlignUp(p, Width(ks[0])) + Width(ks[0]))
  }

  lemma OneNumberWalked(k: FixedKind, b: seq<byte>, p: nat)
    ensures Collect([FixedCode(k)], b, p, 0, NOTHING_FOUND, false) ==
            Collected(NOTHING_FOUND, AlignUp(p, Width(k)) + Width(k))
  {
    hide PadLen;
    AlignmentTablesAgree(Fixed(k));
    assert [FixedCode(k)][1..] == [];
  }

  predicate FieldsFrom(codes: Text, k: nat, ks: seq<FixedKind>) {
    && k + |ks| < |codes| && codes[k + |ks|] == STRUCT_END
    && forall j :: 0 <= j < |ks| ==> codes[k + j] == FixedCode(ks[j])
  }

  lemma {:induction false} FieldsOfNumbers(codes: Text, k: nat, ks: seq<FixedKind>, b: seq<byte>, p: nat)
    requires k >= 1 && |ks| >= 2 && FieldsFrom(codes, k, ks)
    ensures StructFields(codes, k, b, p) == Done(k + |ks| - 1, LeftAt(ks, p))
    decreases |ks|
  {
    hide PadLen, Collect, FixedCode;
    var q := AlignUp(p, Width(ks[0])) + Width(ks[0]);
    assert codes[k + 0] == FixedCode(ks[0]) && codes[k + 1] == FixedCode(ks[1]);
    OneNumberWalked(ks[0], b, p);
    NumberCodes(ks[0]);
    if |ks| > 2 {
      assert codes[k + 2] == FixedCode(ks[2]);
      NumberCodes(ks[2]);
      assert FieldsFrom(codes, k + 1, ks[1..]) by {
        forall j | 0 <= j < |ks[1..]| ensures codes[k + 1 + j] == FixedCode(ks[1..][j]) {
          assert codes[k + (j + 1)] == FixedCode(ks[j + 1]);
        }
      }
      FieldsOfNumbers(codes, k + 1, ks[1..], b, AlignUp(q, Width(ks[2])));
    }
  }

  lemma NumberCodes(k: FixedKind)
    ensures FixedCode(k) != STRUCT_END && AlignmentOfCode(FixedCode(k)) == Known(Width(k))
  {
  }

  /** Of a struct of two or more numbers the last is never read: the walk goes on,
      with the next argument, from where it left the struct. */
  lemma LastFieldIsLeft(ks: seq<FixedKind>, rest: Text, b: seq<byte>, p: nat, i: byte, found: Found)
    requires |ks| >= 2
    ensures Collect(Sig(Struct(Numbers(ks))) + rest, b, p, i, found, true) ==
            Collect(rest, b, LeftAt(ks, AlignUp(p, 8)), Next(i), found, true)
  {
    hide PadLen, Sig, StructFields, Codes, LeftAt;
    var inside := Codes(ks) + ([STRUCT_END] + rest);
    var codes := [STRUCT_BEGIN] + inside;
    StructOfNumbers(ks, rest);
    forall j | 0 <= j < |ks| ensures codes[1 + j] == FixedCode(ks[j]) {
      assert codes[1 + j] == inside[j] == Codes(ks)[j];
    }
    assert codes[1 + |ks|] == inside[|ks|] == STRUCT_END;
    FieldsOfNumbers(codes, 1, ks, b, AlignUp(p, 8));
    assert Drop(codes, |ks| + 2) == rest;
    BracketIsEight();
    FrontCode(STRUCT_BEGIN, inside);
  }

  lemma BracketIsEight()
    ensures AlignmentOfCode(STRUCT_BEGIN) == Known(8)
  {
  }

  /** Its bytes end elsewhere. */
  lemma {:induction false} NumbersEnd(ks: seq<FixedKind>, vs: seq<Value>, p: nat)
    requires ks != [] && PartsTyped(Numbers(ks), vs)
    ensures var q := AlignUp(p, Width(ks[0])); q + |EncParts(InStruct, Numbers(ks), vs, q)| == EndOf(ks, p)
    decreases |ks|
  {
    hide PadLen, Enc, EncParts;
    var q, ts := AlignUp(p, Width(ks[0])), Numbers(ks);
    HeadIsTyped(ts, vs);
    NumberLength(ks[0], vs[0], q);
    PartsStep(InStruct, ts, vs, q);
    assert ts[1..] == Numbers(ks[1..]);
    if |ks| > 1 {
      assert ts[1] == Fixed(ks[1]);
      NumbersEnd(ks[1..], vs[1..], q + Width(ks[0]));
    } else {
      NoParts(InStruct, ts[1..], vs[1..], NextPart(InStruct, ts, vs, q));
    }
  }

  lemma NumberLength(k: FixedKind, v: Value, q: nat)
    requires Typed(Fixed(k), v)
    ensures |Enc(Fixed(k), v, q)| == Width(k)
  {
  }

  /** So the struct is skipped to its end exactly when the two places happen to be the
      same: never for two numbers, but for yyqq, for one, at a multiple of 8. */
  lemma StructIsSkippedIff(ks: seq<FixedKind>, vs: seq<Value>, q: nat)
    requires |ks| >= 2 && Typed(Struct(Numbers(ks)), Record(vs)) && Aligned(q, 8)
    ensures LeftAt(ks, q) == q + |Enc(Struct(Numbers(ks)), Record(vs), q)| <==> LeftAt(ks, q) == EndOf(ks, q)
    ensures |ks| == 2 ==> LeftAt(ks, q) < EndOf(ks, q)
    ensures ks == [Byte, Byte, UInt16, UInt16] ==> LeftAt(ks, q) == EndOf(ks, q)
  {
    hide Enc, EncParts, PadLen, LeftAt, EndOf;
    AlignedIsWeaker(q, 8, Width(ks[0]));
    NumbersEnd(ks, vs, q);
    StructBytes(Numbers(ks), vs, q);
    if |ks| == 2 {
      PairEnds(ks, q);
    } else if ks == [Byte, Byte, UInt16, UInt16] {
      FourEnd(ks, q);
    }
  }

  lemma LeftStep(ks: seq<FixedKind>, p: nat)
    requires |ks| >= 2
    ensures var q := AlignUp(p, Width(ks[0])) + Width(ks[0]);
            LeftAt(ks, p) == if |ks| == 2 then q else LeftAt(ks[1..], AlignUp(q, Width(ks[2])))
  {
    hide PadLen;
  }

  lemma EndStep(ks: seq<FixedKind>, p: nat)
    ensures EndOf(ks, p) == if ks == [] then p else EndOf(ks[1..], AlignUp(p, Width(ks[0])) + Width(ks[0]))
  {
    hide PadLen;
  }

  lemma PairEnds(ks: seq<FixedKind>, q: nat)
    requires |ks| == 2
    ensures LeftAt(ks, q) < EndOf(ks, q)
  {
    hide PadLen, LeftAt, EndOf;
    LeftStep(ks, q);
    EndStep(ks, q);
    EndStep(ks[1..], LeftAt(ks, q));
    assert ks[1..][1..] == [];
    EndStep(ks[1..][1..], AlignUp(LeftAt(ks, q), Width(ks[1])) + Width(ks[1]));
  }

  lemma FourEnd(ks: seq<FixedKind>, q: nat)
    requires ks == [Byte, Byte, UInt16, UInt16] && Aligned(q, 8)
    ensures LeftAt(ks, q) == EndOf(ks, q) == q + 6
  {
    hide LeftAt, EndOf, PadLen;
    var k1, k2, k3, k4 := ks[1..], ks[2..], ks[3..], ks[4..];
    assert ks[1..] == k1 && k1[1..] == k2 && k2[1..] == k3 && k3[1..] == k4;
    SmallSteps(q);
    LeftStep(ks, q);
    LeftStep(k1, q + 2);
    LeftStep(k2, q + 4);
    EndStep(ks, q);
    EndStep(k1, q + 1);
    EndStep(k2, q + 2);
    EndStep(k3, q + 4);
    EndStep(k4, q + 6);
  }

  lemma SmallSteps(q: nat)
    requires Aligned(q, 8)
    ensures forall n: nat :: AlignUp(n, 1) == n
    ensures AlignUp(q + 1, 2) == q + 2 && AlignUp(q + 2, 2) == q + 2 && AlignUp(q + 3, 2) == q + 4 &&
            AlignUp(q + 4, 2) == q + 4
  {
  }

  lemma StructBytes(ts: seq<Type>, vs: seq<Value>, q: nat)
    ensures Enc(Struct(ts), Record(vs), q) == EncParts(InStruct, ts, vs, q)
  {
    hide EncParts;
  }

  /** Behind a struct of one number the next code is dropped, after padding for it;
      with no code there, the walk fails. */
  lemma CodeBehindIsDropped(k: FixedKind, rest: Text, b: seq<byte>, p: nat, i: byte, found: Found)
    requires rest == [] || rest[0] != STRUCT_END
    ensures Collect(Sig(Struct(Numbers([k]))) + rest, b, p, i, found, true) ==
            match AlignmentOfCode(CodeAt(rest, 0))
            case Unknown => Failed(UnknownCode)
            case Known(a) => Collect(rest[1..], b, AlignUp(AlignUp(p, 8) + Width(k), a), Next(i), found, true)
  {
    hide PadLen, Sig, StructFields, AlignmentOfCode;
    var inside := Codes([k]) + ([STRUCT_END] + rest);
    var codes := [STRUCT_BEGIN] + inside;
    StructOfNumbers([k], rest);
    assert Codes([k])[0] == FixedCode(k);
    assert codes[1] == FixedCode(k) && codes[2] == STRUCT_END && CodeAt(codes, 3) == CodeAt(rest, 0);
    AlignUpIsAligned(p, 8);
    FieldOfOne(codes, k, b, AlignUp(p, 8));
    BracketIsEight();
    FrontCode(STRUCT_BEGIN, inside);
    NothingAtNul();
    if rest != [] {
      assert Drop(codes, 4) == rest[1..];
    }
  }

  lemma NothingAtNul()
    ensures AlignmentOfCode(0) == Unknown
  {
  }

  lemma FieldOfOne(codes: Text, k: FixedKind, b: seq<byte>, p: nat)
    requires |codes| >= 3 && codes[1] == FixedCode(k) && codes[2] == STRUCT_END && CodeAt(codes, 3) != STRUCT_END
    requires Aligned(p, 8)
    ensures StructFields(codes, 1, b, p) ==
            match AlignmentOfCode(CodeAt(codes, 3))
            case Unknown => Stopped(Failed(UnknownCode))
            case Known(a) => Done(2, AlignUp(p + Width(k), a))
  {
    hide PadLen, Collect, AlignmentOfCode;
    AlignedIsWeaker(p, 8, Width(k));
    OneNumberWalked(k, b, p);
    NumberCodes(k);
  }

  /** In (y)s the string is lost without a trace, whatever the body. */
  lemma StringBehindStructIsLost(ts: seq<Type>, b: seq<byte>)
    requires ts == [Struct(Numbers([Byte])), Text(String)]
    ensures Collect(Sigs(ts), b, 0, 0, NOTHING_FOUND, true) == Collected(NOTHING_FOUND, 4)
  {
    hide Sig, Sigs, Collect, Numbers;
    StringSigs(ts);
    CodeBehindIsDropped(Byte, [STRING], b, 0, 0, NOTHING_FOUND);
    StringIsFour();
    NothingLeft(b, 4, Next(0), NOTHING_FOUND);
  }

  lemma StringIsFour()
    ensures AlignmentOfCode(CodeAt([STRING], 0)) == Known(4) && [STRING][1..] == []
    ensures AlignUp(AlignUp(0, 8) + Width(Byte), 4) == 4
  {
  }

  lemma NothingLeft(b: seq<byte>, p: nat, i: byte, found: Found)
    ensures Collect([], b, p, i, found, true) == Collected(found, p)
  {
  }

  lemma StringSigs(ts: seq<Type>)
    requires |ts| == 2 && ts[1] == Text(String)
    ensures Sigs(ts) == Sig(ts[0]) + [STRING]
  {
    assert ts[1..][1..] == [];
    assert Sigs(ts[1..]) == [STRING];
  }

  // ---------- arrays of anything else ----------

  /** An array is skipped to its end, but of its element only the first code: what
      other codes the element has are taken for arguments that follow. */
  lemma ElementCodesAreLeft(e: Type, vs: seq<Value>, rest: Text, b: seq<byte>, p: nat, i: byte, found: Found)
    requires !e.Dict? && |b| < TWO_TO_THE_32
    requires At(b, AlignUp(p, 4), Enc(Array(e), List(vs), AlignUp(p, 4)))
    ensures Collect(Sig(Array(e)) + rest, b, p, i, found, true) ==
            Collect(Sig(e)[1..] + rest, b, AlignUp(p, 4) + |Enc(Array(e), List(vs), AlignUp(p, 4))|, Next(i), found,
                    true)
  {
    hide PadLen, LE, ReadNumber, Enc, EncElems, At, Zeros, AlignmentOf, ArrayStride, Sig;
    var q := AlignUp(p, 4);
    var start := AlignUp(q + 4, AlignmentOf(e));
    var body := EncElems(e, vs, start);
    ArrayStep(e, vs, q);
    AtSplit3(b, q, LE(|body|, 4), Zeros(start - q - 4), body);
    FitsIn(b, start, body);
    ReadLengthBack(|body|, b, q);
    AlignmentTablesAgree(e);
    SigIsNotClosing(e);
    V.ElementFirst(e, rest);
    var codes := [ARRAY] + ([Sig(e)[0]] + (Sig(e)[1..] + rest));
    assert codes[0] == ARRAY && codes[1] == Sig(e)[0] && codes[2..] == Sig(e)[1..] + rest;
    OverArray(codes, AlignmentOf(e), |body|, b, q, found);
  }

  /** So behind an array of arrays of strings that ends the body, the walk goes on
      reading where no byte is left, whatever strings there are. */
  lemma ArraysOfStringArraysAreOverrun(e: Type, vs: seq<Value>, b: seq<byte>, p: nat, i: byte, found: Found)
    requires e == Array(Text(String)) && |b| < TWO_TO_THE_32
    requires At(b, AlignUp(p, 4), Enc(Array(e), List(vs), AlignUp(p, 4)))
    requires AlignUp(p, 4) + |Enc(Array(e), List(vs), AlignUp(p, 4))| == |b|
    ensures Collect(Sig(Array(e)) + [], b, p, i, found, true) == Failed(Malformed)
  {
    hide Collect, Enc, At, PadLen;
    ElementCodesAreLeft(e, vs, [], b, p, i, found);
    assert Sig(e) == [ARRAY, STRING] && Sig(e)[1..] + [] == [STRING];
    NoStringLeft(b, |b|, Next(i), found);
  }

  lemma NoStringLeft(b: seq<byte>, p: nat, i: byte, found: Found)
    requires p >= |b|
    ensures Collect([STRING], b, p, i, found, true) == Failed(Malformed)
  {
  }

  /** The element of an array of dictionaries is taken for a dictionary behind it. */
  lemma DictElementIsLeft(k: Type, t: Type, n: nat, rest: Text, b: seq<byte>, p: nat, i: byte, found: Found)
    requires ReadNumber(b, AlignUp(p, 4), 4) == Ok(n, AlignUp(p, 4) + 4)
    ensures Collect(Sig(Array(Dict(k, t))) + rest, b, p, i, found, true) ==
            Collect(Sig(Dict(k, t))[1..] + rest, b, AlignUp(p, 4) + 4 + n, Next(i), found, true)
  {
    hide PadLen, ReadNumber, ArrayStride, Sig;
    V.ElementFirst(Dict(k, t), rest);
    DictSig(k, t);
    var codes := [ARRAY] + ([ARRAY] + (Sig(Dict(k, t))[1..] + rest));
    assert codes[0] == ARRAY && codes[1] == ARRAY && codes[2..] == Sig(Dict(k, t))[1..] + rest;
    OverArray(codes, 4, n, b, AlignUp(p, 4), found);
    V.FourIsAligned(p);
  }

  // ---------- when an argument is found under its own index ----------

  /** A value of a type that can be walked over. */
  function DefaultValue(t: Type): Value {
    match t
    case Fixed(_) => Num(0)
    case Text(k) => Txt(if k.Path? then [SLASH] else [])
    case Array(_) => List([])
    case Dict(_, _) => Map([])
    case _ => Num(0)
  }

  lemma DefaultIsTyped(t: Type)
    requires PlainOrDict(t)
    ensures Typed(t, DefaultValue(t)) && ShortText(t, DefaultValue(t))
  {
  }

  /** All defaults, but for the text "a" as argument `j`. */
  function Marked(ts: seq<Type>, j: int): (vs: seq<Value>)
    ensures |vs| == |ts|
    ensures forall i :: 0 <= i < |ts| ==> vs[i] == if i == j then Txt([97]) else DefaultValue(ts[i])
  {
    if ts == [] then []
    else [if j == 0 then Txt([97]) else DefaultValue(ts[0])] + Marked(ts[1..], j - 1)
  }

  lemma {:induction false} MarkedIsTyped(ts: seq<Type>, j: int)
    requires AllPlainOrDict(ts) && (0 <= j < |ts| ==> ts[j] == Text(String))
    ensures PartsTyped(ts, Marked(ts, j))
  {
    hide Typed;
    if ts != [] {
      DefaultIsTyped(ts[0]);
      MarkIsTyped();
      MarkedIsTyped(ts[1..], j - 1);
      MarkedTail(ts, j);
    }
  }

  lemma MarkIsTyped()
    ensures Typed(Text(String), Txt([97]))
  {
  }

  lemma DefaultIsSmall(t: Type, p: nat)
    requires PlainOrDict(t)
    ensures |Enc(t, DefaultValue(t), p)| <= 16
  {
    hide PadLen, LE;
    match t {
      case Fixed(k) => NumberLength(k, Num(0), p);
      case Text(k) => {}
      case Array(e) => {}
      case Dict(k, u) => {}
    }
  }

  lemma MarkIsSmall(p: nat)
    ensures |Enc(Text(String), Txt([97]), p)| <= 16
  {
  }

  lemma FirstIsSmall(ts: seq<Type>, vs: seq<Value>, p: nat)
    requires ts != [] && vs != [] && |Enc(ts[0], vs[0], p)| <= 16
    ensures |EncParts(TopLevel, ts, vs, p)| <=
            24 + |EncParts(TopLevel, ts[1..], vs[1..], NextPart(TopLevel, ts, vs, p))|
  {
    hide Enc, EncParts, PadLen, AlignmentOf;
    PartsStep(TopLevel, ts, vs, p);
  }

  lemma MarkedTail(ts: seq<Type>, j: int)
    requires ts != []
    ensures Marked(ts, j) != [] && Marked(ts, j)[1..] == Marked(ts[1..], j - 1)
    ensures Marked(ts, j)[0] == if j == 0 then Txt([97]) else DefaultValue(ts[0])
  {
    hide DefaultValue;
  }

  lemma {:induction false} MarkedIsSmall(ts: seq<Type>, j: int, p: nat)
    requires AllPlainOrDict(ts) && (0 <= j < |ts| ==> ts[j] == Text(String))
    ensures |EncParts(TopLevel, ts, Marked(ts, j), p)| <= 24 * |ts|
  {
    hide Enc, EncParts, PadLen, DefaultValue, PlainOrDict, Marked, NextPart;
    if ts == [] {
      NoParts(TopLevel, ts, Marked(ts, j), p);
    } else {
      MarkIsSmall(p);
      DefaultIsSmall(ts[0], p);
      MarkedTail(ts, j);
      FirstIsSmall(ts, Marked(ts, j), p);
      MarkedIsSmall(ts[1..], j - 1, NextPart(TopLevel, ts, Marked(ts, j), p));
    }
  }

  /** What the argument list of a body may be. */
  ghost predicate IsBodyOf(vs: seq<Value>, ts: seq<Type>) {
    |ts| == |vs| && PartsTyped(ts, vs) && AllShort(ts, vs) && |EncParts(TopLevel, ts, vs, 0)| < TWO_TO_THE_32
  }

  /** The walk over the body of these arguments leaves argument `j` under index `j`. */
  ghost predicate IsFoundAt(ts: seq<Type>, vs: seq<Value>, j: nat)
    requires j < |vs|
  {
    var r := Collect(Sigs(ts), EncParts(TopLevel, ts, vs, 0), 0, 0, NOTHING_FOUND, true);
    r.Collected? && IsUnder(r.found.strings, vs[j], j)
  }

  /** Whatever the arguments' values, a string is found under its own index exactly
      when no dictionary precedes it. */
  lemma FoundUnderOwnIndexIff(ts: seq<Type>, j: nat)
    requires AllPlainOrDict(ts) && |Sigs(ts)| < 256 && j < |ts| && ts[j] == Text(String)
    ensures (forall vs :: IsBodyOf(vs, ts) ==> IsFoundAt(ts, vs, j)) <==> forall i :: 0 <= i < j ==> !ts[i].Dict?
  {
    hide Collect, EncParts, Sigs, PartsTyped, AllShort, PlainOrDict;
    OwnIndexIffNoDictBefore(ts, j);
    if Index(ts, j) == j {
      forall vs | IsBodyOf(vs, ts) ensures IsFoundAt(ts, vs, j) {
        var found := WalkFindsExactlyTheTexts(ts, vs, EncParts(TopLevel, ts, vs, 0));
      }
    } else {
      MarkIsMissed(ts, j);
    }
  }

  lemma MarkIsMissed(ts: seq<Type>, j: nat)
    requires AllPlainOrDict(ts) && |Sigs(ts)| < 256 && j < |ts| && ts[j] == Text(String) && Index(ts, j) > j
    ensures IsBodyOf(Marked(ts, j), ts) && !IsFoundAt(ts, Marked(ts, j), j)
  {
    hide Collect, EncParts, Sigs, PartsTyped, PlainOrDict;
    var vs := Marked(ts, j);
    MarkedIsTyped(ts, j);
    MarkedIsSmall(ts, j, 0);
    MarkedIsShort(ts, j);
    OneCodeEach(ts);
    var found := WalkFindsExactlyTheTexts(ts, vs, EncParts(TopLevel, ts, vs, 0));
    assert forall i :: 0 <= i < |ts| && ts[i] == Text(String) && Index(ts, i) == j ==> vs[i] == Txt([]);
  }

  lemma MarkedIsShort(ts: seq<Type>, j: nat)
    requires AllPlainOrDict(ts) && (0 <= j < |ts| ==> ts[j] == Text(String))
    ensures AllShort(ts, Marked(ts, j))
  {
    forall i | 0 <= i < |ts| ensures ShortText(ts[i], Marked(ts, j)[i]) {
      DefaultIsTyped(ts[i]);
    }
  }

  lemma {:induction false} OneCodeEach(ts: seq<Type>)
    ensures |ts| <= |Sigs(ts)|
  {
    hide Sig;
    if ts != [] {
      OneCodeEach(ts[1..]);
      DictSigIsLong(ts[0]);
    }
  }
}
