/** The unmarshaller: methods that advance one cursor through a buffer, with
    loops driven by byte counts, and the interpreter loop that edits the signature
    it is scanning. */
module Unmarshaller {
  import opened Bytes
  import opened Types
  import opened ObjectPaths
  import opened Signatures
  import opened Encoding
  import opened Decoding

  datatype Result<+T> = Success(value: T) | Failure(error: DecodeError)

  /** A method's outcome and final cursor are those of the decoding step. */
  predicate Follows<T(==)>(r: Result<T>, pos: nat, step: Step<T>) {
    match step
    case Ok(v, q) => r == Success(v) && pos == q
    case Err(e) => r == Failure(e)
  }

  class Reader {
    const bytes: seq<byte>
    var pos: nat

    constructor (bytes: seq<byte>, pos: nat)
      ensures this.bytes == bytes && this.pos == pos
    {
      this.bytes := bytes;
      this.pos := pos;
    }

    method SkipPadding(alignment: Alignment)
      modifies this
      ensures pos == AlignUp(old(pos), alignment)
    {
      PadLenIsLeast(pos, alignment);
      var result := pos % alignment;
      if result != 0 {
        pos := pos + (alignment - result);
      }
    }

    method UnmarshalNumber(w: nat) returns (r: Result<nat>)
      modifies this
      ensures Follows(r, pos, ReadNumber(bytes, old(pos), w))
      ensures r.Success? <==> old(pos) + w <= |bytes|
      ensures r.Success? ==> pos == old(pos) + w && r.value == Weighted(bytes[old(pos)..pos], w)
    {
      hide FromLE, Weighted;
      if pos + w > |bytes| {
        return Failure(Malformed);
      }
      FromLEIsWeighted(bytes[pos..pos + w]);
      r := Success(FromLE(bytes[pos..pos + w]));
      pos := pos + w;
    }

    method UnmarshalText(k: TextKind) returns (r: Result<Text>)
      modifies this
      ensures Follows(r, pos, ReadText(k, bytes, old(pos)))
    {
      hide Weighted;
      var length := UnmarshalNumber(if k.Signature? then 1 else 4);
      if length.Failure? {
        return Failure(length.error);
      }
      if length.value >= |bytes| - pos {
        return Failure(Malformed);
      }
      r := Success(bytes[pos..pos + length.value]);
      pos := pos + length.value + 1;
    }

    method Unmarshal(t: Type) returns (r: Result<Value>)
      requires WellFormed(t)
      modifies this
      ensures Follows(r, pos, Dec(t, bytes, old(pos)))
      ensures t.Fixed? && t.fixed != Bool && r.Success? ==>
                pos == old(pos) + Width(t.fixed) && r.value == Num(Weighted(bytes[old(pos)..pos], Width(t.fixed)))
      decreases t, 2
    {
      hide Weighted, ReadNumber, ReadText, DecElems, DecParts, DecEntries, DecVariant, PadLen;
      match t
      case Fixed(k) =>
        var n := UnmarshalNumber(Width(k));
        match n {
          case Failure(e) => r := Failure(e);
          case Success(x) => r := Success(Num(if k.Bool? then (if x == 1 then 1 else 0) else x));
        }
      case Text(k) =>
        var s := UnmarshalText(k);
        match s {
          case Failure(e) => r := Failure(e);
          case Success(x) =>
            if k.Path? {
              var verdict := Validate(x);
              if verdict.Invalid? {
                return Failure(BadPath);
              }
            }
            r := Success(Txt(x));
        }
      case Array(_) =>
        r := UnmarshalArray(t);
      case Struct(ts) =>
        var vs := UnmarshalParts(InStruct, ts);
        r := match vs case Failure(e) => Failure(e) case Success(xs) => Success(Record(xs));
      case Dict(_, _) =>
        r := UnmarshalDict(t);
      case Variant =>
        r := UnmarshalVariant();
    }

    method UnmarshalArray(t: Type) returns (r: Result<Value>)
      requires WellFormed(t) && t.Array?
      modifies this
      ensures Follows(r, pos, Dec(t, bytes, old(pos)))
      decreases t, 1
    {
      hide Weighted, ReadNumber, DecParts, DecEntries, DecVariant, PadLen, Numbers;
      var length := UnmarshalNumber(4);
      if length.Failure? {
        return Failure(length.error);
      }
      var arrLength := length.value;
      if arrLength >= MAX_ARRAY_LENGTH {
        return Failure(ArrayTooLong);
      }
      SkipPadding(AlignmentOf(t.elem));
      if t.elem.Fixed? {
        if pos + arrLength > |bytes| {
          return Failure(Malformed);
        }
        r := Success(List(Numbers(bytes[pos..pos + arrLength], Width(t.elem.fixed))));
        pos := pos + arrLength;
        return;
      }
      ghost var start := pos;
      var vec: seq<Value> := [];
      var bytesRead := 0;
      while bytesRead < arrLength
        invariant DecElems(t, bytes, pos, bytesRead, arrLength, vec) == DecElems(t, bytes, start, 0, arrLength, [])
        decreases arrLength - bytesRead
      {
        hide Dec, AlignmentOf;
        if pos >= |bytes| {
          return Failure(Malformed);
        }
        var oldPointer := pos;
        var elem := Unmarshal(t.elem);
        if elem.Failure? {
          return Failure(elem.error);
        }
        vec := vec + [elem.value];
        bytesRead := bytesRead + (pos - oldPointer);
        if bytesRead < arrLength {
          oldPointer := pos;
          SkipPadding(AlignmentOf(t.elem));
          bytesRead := bytesRead + (pos - oldPointer);
        }
      }
      r := Success(List(vec));
    }

    method UnmarshalParts(layout: Layout, ts: seq<Type>) returns (r: Result<seq<Value>>)
      requires AllWellFormed(ts)
      modifies this
      ensures Follows(r, pos, DecParts(layout, ts, bytes, old(pos)))
      decreases ts, 0
    {
      hide Dec, PadLen, PartAlignment;
      if ts == [] {
        return Success([]);
      }
      var head := Unmarshal(ts[0]);
      if head.Failure? {
        return Failure(head.error);
      }
      if |ts| == 1 {
        return Success([head.value]);
      }
      SkipPadding(PartAlignment(layout, ts[1]));
      var rest := UnmarshalParts(layout, ts[1..]);
      r := match rest case Failure(e) => Failure(e) case Success(vs) => Success([head.value] + vs);
    }

    method UnmarshalDict(t: Type) returns (r: Result<Value>)
      requires WellFormed(t) && t.Dict?
      modifies this
      ensures Follows(r, pos, Dec(t, bytes, old(pos)))
      decreases t, 1
    {
      hide Weighted, ReadNumber, DecElems, DecEntries, DecParts, DecVariant, PadLen;
      var length := UnmarshalNumber(4);
      if length.Failure? {
        return Failure(length.error);
      }
      SkipPadding(8);
      if length.value == 0 {
        PaddingIsIdempotent(old(pos) + 4, 8);
        SkipPadding(8);
        NoEntriesToRead(t, bytes, pos);
        return Success(Map([]));
      }
      var entries := UnmarshalEntries(t, length.value);
      r := match entries case Failure(e) => Failure(e) case Success(es) => Success(Map(es));
    }

    /** The loop over the bytes of a dictionary. */
    method UnmarshalEntries(t: Type, mapLength: nat) returns (r: Result<seq<Entry>>)
      requires WellFormed(t) && t.Dict?
      modifies this
      ensures Follows(r, pos, DecEntries(t, bytes, old(pos), 0, mapLength, []))
      decreases t, 0, 1
    {
      hide DecEntry, Emplace, PadLen, WellFormed;
      var entries: seq<Entry> := [];
      var bytesRead := 0;
      while bytesRead < mapLength
        invariant DecEntries(t, bytes, pos, bytesRead, mapLength, entries) ==
                  DecEntries(t, bytes, old(pos), 0, mapLength, [])
        decreases mapLength - bytesRead
      {
        var oldPointer := pos;
        var entry := UnmarshalEntry(t);
        if entry.Failure? {
          return Failure(entry.error);
        }
        entries := Emplace(entries, entry.value.key, entry.value.val);
        bytesRead := bytesRead + (pos - oldPointer);
        if bytesRead < mapLength {
          oldPointer := pos;
          SkipPadding(8);
          bytesRead := bytesRead + (pos - oldPointer);
        }
      }
      r := Success(entries);
    }

    method UnmarshalEntry(t: Type) returns (r: Result<Entry>)
      requires WellFormed(t) && t.Dict?
      modifies this
      ensures Follows(r, pos, DecEntry(t, bytes, old(pos)))
      decreases t, 0, 0
    {
      hide Dec, PadLen, MemberAlignment;
      var key := Unmarshal(t.key);
      if key.Failure? {
        return Failure(key.error);
      }
      SkipPadding(MemberAlignment(t.val));
      var val := Unmarshal(t.val);
      r := match val case Failure(e) => Failure(e) case Success(v) => Success(Entry(key.value, v));
    }

    /** The interpreter loop. `sig` is edited in place: a nested variant's signature
        is inserted after the code that announced it. */
    method UnmarshalVariant() returns (r: Result<Value>)
      modifies this
      ensures Follows(r, pos, DecVariant(bytes, old(pos)))
    {
      hide Weighted, ReadNumber, ReadText, PadLen, AlignmentOfCode, Walk;
      var signature := UnmarshalText(Signature);
      if signature.Failure? {
        return Failure(signature.error);
      }
      var sig := signature.value;
      if sig == [] || AlignmentOfCode(sig[0]).Unknown? {
        return Failure(UnknownCode);
      }
      var payload := AlignUp(pos, AlignmentOfCode(sig[0]).a);
      ghost var start := pos;
      var i: nat := 0;
      assert From(sig, 0) == sig;
      while i < |sig|
        invariant Walk(From(sig, i), bytes, pos) == Walk(signature.value, bytes, start)
        decreases Unread(bytes, pos), |sig| - i
      {
        var step := InterpretCode(sig, i);
        if step.Failure? {
          return Failure(step.error);
        }
        sig, i := step.value.0, step.value.1;
      }
      assert From(sig, i) == [];
      WalkOfNothing(bytes, pos);
      if pos > |bytes| {
        return Failure(Malformed);
      }
      WalkStartsAligned(signature.value, bytes, start);
      r := Success(Slice(signature.value, bytes[payload..pos]));
    }

    /** The loop's body: the signature as edited, and the index to go on from. */
    method InterpretCode(sig: Text, i: nat) returns (r: Result<(Text, nat)>)
      requires i < |sig|
      modifies this
      ensures r.Failure? ==> Walk(From(sig, i), bytes, old(pos)) == Err(r.error)
      ensures r.Success? ==> var (sig', i') := r.value;
                             && Walk(From(sig', i'), bytes, pos) == Walk(From(sig, i), bytes, old(pos))
                             && (Unread(bytes, pos) < Unread(bytes, old(pos))
                                 || (Unread(bytes, pos) == Unread(bytes, old(pos)) && |sig'| - i' < |sig| - i))
    {
      hide Weighted, ReadNumber, ReadText, PadLen, AlignmentOfCode, Walk;
      ghost var codes := From(sig, i);
      WalkStep(codes, bytes, pos);
      assert codes[0] == sig[i] && codes[1..] == From(sig, i + 1);
      var code := sig[i];
      if AlignmentOfCode(code).Known? { KnownCodes(code); }
      if code != STRUCT_END && code != DICT_END {
        if AlignmentOfCode(code).Unknown? {
          return Failure(UnknownCode);
        }
        SkipPadding(AlignmentOfCode(code).a);
      }
      if IsFixedCode(code) {
        pos := pos + AlignmentOfCode(code).a;
      } else if IsTextCode(code) {
        var strSize := UnmarshalNumber(if code == SIGNATURE then 1 else 4);
        if strSize.Failure? {
          return Failure(strSize.error);
        }
        pos := pos + strSize.value + 1;
      } else if code == ARRAY {
        var arrSize := UnmarshalNumber(4);
        if arrSize.Failure? {
          return Failure(arrSize.error);
        }
        if i + 1 == |sig| || AlignmentOfCode(sig[i + 1]).Unknown? {
          return Failure(UnknownCode);
        }
        SkipPadding(AlignmentOfCode(sig[i + 1]).a);
        pos := pos + arrSize.value;
        if sig[i + 1] != DICT_BEGIN {
          assert codes[1..][1..] == From(sig, i + 2);
          return Success((sig, i + 2));
        }
      } else if code == DICT_BEGIN {
        var j := SkipDict(sig, i);
        assert From(sig, j) == AfterDict(codes);
        return Success((sig, j));
      } else if code == VARIANT {
        var nested := UnmarshalText(Signature);
        if nested.Failure? {
          return Failure(nested.error);
        }
        var spliced := sig[..i + 1] + nested.value + sig[i + 1..];
        assert From(spliced, i + 1) == nested.value + codes[1..];
        return Success((spliced, i + 1));
      }
      r := Success((sig, i + 1));
    }

    /** Past the first closing brace, or past the end. */
    method SkipDict(sig: Text, first: nat) returns (j: nat)
      requires first < |sig|
      ensures From(sig, j) == AfterDict(From(sig, first)) && first < j
    {
      j := first;
      while j < |sig| && sig[j] != DICT_END
        invariant first <= j <= |sig|
        invariant AfterDict(From(sig, first)) == AfterDict(From(sig, j))
      {
        assert From(sig, j)[1..] == From(sig, j + 1);
        j := j + 1;
      }
      assert j < |sig| ==> From(sig, j)[1..] == From(sig, j + 1);
      j := j + 1;
    }
  }

  /** The signature codes still to be scanned. */
  function From(sig: Text, i: nat): Text {
    if i <= |sig| then sig[i..] else []
  }

  lemma NoEntriesToRead(t: Type, b: seq<byte>, p: nat)
    requires WellFormed(t) && t.Dict?
    ensures DecEntries(t, b, p, 0, 0, []) == Ok([], p)
  {
  }

  lemma KnownCodes(c: byte)
    requires AlignmentOfCode(c).Known?
    ensures IsFixedCode(c) || IsTextCode(c) || c == STRUCT_BEGIN || c == DICT_BEGIN || c == ARRAY || c == VARIANT
  {
  }

  lemma WalkStartsAligned(codes: Text, b: seq<byte>, p: nat)
    requires Walk(codes, b, p).Ok? && codes != [] && AlignmentOfCode(codes[0]).Known?
    ensures AlignUp(p, AlignmentOfCode(codes[0]).a) <= Walk(codes, b, p).next
  {
  }

  /** One iteration of the interpreter. */
  lemma WalkStep(codes: Text, b: seq<byte>, p: nat)
    requires codes != []
    ensures var c, rest := codes[0], codes[1..];
            Walk(codes, b, p) ==
            if c == STRUCT_END || c == DICT_END then Walk(rest, b, p)
            else
              match AlignmentOfCode(c)
              case Unknown => Err(UnknownCode)
              case Known(a) =>
                var q := AlignUp(p, a);
                if IsFixedCode(c) then Walk(rest, b, q + a)
                else if IsTextCode(c) then
                  (match ReadNumber(b, q, if c == SIGNATURE then 1 else 4)
                   case Err(x) => Err(x)
                   case Ok(n, q') => Walk(rest, b, q' + n + 1))
                else if c == STRUCT_BEGIN then Walk(rest, b, q)
                else if c == DICT_BEGIN then Walk(AfterDict(codes), b, q)
                else if c == ARRAY then WalkArray(rest, b, q)
                else
                  match ReadText(Signature, b, q)
                  case Err(x) => Err(x)
                  case Ok(nested, q') => Walk(nested + rest, b, q')
  {
    hide ReadNumber, ReadText, PadLen, AlignmentOfCode, WalkArray;
  }

  // ---------- block copy ----------

  /** Reading an aligned array of numbers as one block gives the values, the cursor
      and the failures of the element loop, when the length is a whole number of elements. */
  lemma BlockReadIsElementwise(k: FixedKind, b: seq<byte>, p: nat, count: nat)
    requires k != Bool && Aligned(p, Width(k)) && (count > 0 || p <= |b|)
    ensures DecElems(Array(Fixed(k)), b, p, 0, count * Width(k), []) == ReadBlock(b, p, count * Width(k), Width(k))
  {
    hide DecElems;
    LoopReadsBlock(k, b, p, 0, count, []);
    if p + count * Width(k) <= |b| {
      assert [] + Numbers(b[p..p + count * Width(k)], Width(k)) == Numbers(b[p..p + count * Width(k)], Width(k));
    }
  }

  lemma {:induction false} LoopReadsBlock(k: FixedKind, b: seq<byte>, p: nat, bytesRead: nat, count: nat,
                                          acc: seq<Value>)
    requires k != Bool && Aligned(p, Width(k)) && (count > 0 || p <= |b|)
    ensures DecElems(Array(Fixed(k)), b, p, bytesRead, bytesRead + count * Width(k), acc) ==
            if p + count * Width(k) > |b| then Err(Malformed)
            else Ok(acc + Numbers(b[p..p + count * Width(k)], Width(k)), p + count * Width(k))
    decreases count
  {
    hide PadLen, FromLE, ReadNumber, DecElems, Aligned, Numbers;
    var w := Width(k);
    if count == 0 {
      NothingToRead(Array(Fixed(k)), b, p, bytesRead, acc);
      NoNumbers(w);
      assert b[p..p] == [] && acc + [] == acc;
    } else {
      var more := (count - 1) * w;
      assert count * w == w + more;
      LoopStep(k, b, p, bytesRead, bytesRead + count * w, acc);
      if p + w <= |b| {
        var v := Num(FromLE(b[p..p + w]));
        LoopReadsBlock(k, b, p + w, bytesRead + w, count - 1, acc + [v]);
        if p + count * w <= |b| {
          NumbersHead(b, p, w, more);
          var rest := Numbers(b[p + w..p + w + more], w);
          assert acc + [v] + rest == acc + ([v] + rest);
        }
      }
    }
  }

  lemma NothingToRead(t: Type, b: seq<byte>, p: nat, bytesRead: nat, acc: seq<Value>)
    requires WellFormed(t) && t.Array?
    ensures DecElems(t, b, p, bytesRead, bytesRead, acc) == Ok(acc, p)
  {
  }

  lemma NumbersHead(b: seq<byte>, p: nat, w: nat, more: nat)
    requires w > 0 && p + w + more <= |b|
    ensures Numbers(b[p..p + w + more], w) == [Num(FromLE(b[p..p + w]))] + Numbers(b[p + w..p + w + more], w)
  {
    var s := b[p..p + w + more];
    assert s[..w] == b[p..p + w] && s[w..] == b[p + w..p + w + more];
  }

  lemma LoopStep(k: FixedKind, b: seq<byte>, p: nat, bytesRead: nat, len: nat, acc: seq<Value>)
    requires k != Bool && Aligned(p, Width(k)) && bytesRead < len
    ensures Aligned(p + Width(k), Width(k))
    ensures DecElems(Array(Fixed(k)), b, p, bytesRead, len, acc) ==
            if p + Width(k) > |b| then Err(Malformed)
            else DecElems(Array(Fixed(k)), b, p + Width(k), bytesRead + Width(k), len,
                          acc + [Num(FromLE(b[p..p + Width(k)]))])
  {
    hide FromLE, PadLen;
    StepKeepsAlignment(p, Width(k));
  }
}
