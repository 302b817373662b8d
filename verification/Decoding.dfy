/** Reading a value back: the typed decoder and the flat signature interpreter
    that finds the end of a variant's payload, as functions of the buffer and the
    cursor. They are the specification the unmarshaller is proved against.

    A cursor is a natural number. Skipping may carry it past the end of the
    buffer, as it may in the library; reading there is an error. */
module Decoding {
  import opened Bytes
  import opened Types
  import opened ObjectPaths
  import opened Signatures
  import opened Encoding

  datatype DecodeError = Malformed | ArrayTooLong | UnknownCode | BadPath

  datatype Step<+T> = Ok(value: T, next: nat) | Err(error: DecodeError)

  function ReadNumber(b: seq<byte>, p: nat, w: nat): (r: Step<nat>)
    ensures r.Ok? <==> p + w <= |b|
    ensures r.Ok? ==> r.next == p + w
  {
    if p + w > |b| then Err(Malformed) else Ok(FromLE(b[p..p + w]), p + w)
  }

  /** A length, that many bytes, and a terminating NUL. */
  function ReadText(k: TextKind, b: seq<byte>, p: nat): (r: Step<Text>)
    ensures r.Ok? ==> p + 2 <= r.next <= |b|
  {
    match ReadNumber(b, p, if k.Signature? then 1 else 4)
    case Err(e) => Err(e)
    case Ok(n, q) => if q + n >= |b| then Err(Malformed) else Ok(b[q..q + n], q + n + 1)
  }

  /** The numbers in a block of memory. */
  function Numbers(s: seq<byte>, w: nat): seq<Value>
    requires w > 0
  {
    if |s| < w then [] else [Num(FromLE(s[..w]))] + Numbers(s[w..], w)
  }

  function ReadBlock(b: seq<byte>, p: nat, len: nat, w: nat): (r: Step<seq<Value>>)
    requires w > 0
    ensures r.Ok? ==> r.next == p + len
  {
    if p + len > |b| then Err(Malformed) else Ok(Numbers(b[p..p + len], w), p + len)
  }

  // ---------- the typed decoder ----------

  function Dec(t: Type, b: seq<byte>, p: nat): (r: Step<Value>)
    requires WellFormed(t)
    ensures r.Ok? ==> p < r.next
    decreases t, 1, 0
  {
    match t
    case Fixed(k) =>
      (match ReadNumber(b, p, Width(k))
       case Err(e) => Err(e)
       case Ok(n, q) => Ok(Num(if k.Bool? then (if n == 1 then 1 else 0) else n), q))
    case Text(k) =>
      (match ReadText(k, b, p)
       case Err(e) => Err(e)
       case Ok(s, q) => if k.Path? && !IsValidPath(s) then Err(BadPath) else Ok(Txt(s), q))
    case Array(e) =>
      (match ReadNumber(b, p, 4)
       case Err(x) => Err(x)
       case Ok(len, q) =>
         if len >= MAX_ARRAY_LENGTH then Err(ArrayTooLong)
         else
           var start := AlignUp(q, AlignmentOf(e));
           var body := if e.Fixed? then ReadBlock(b, start, len, Width(e.fixed)) else DecElems(t, b, start, 0, len, []);
           match body
           case Err(x) => Err(x)
           case Ok(vs, next) => Ok(List(vs), next))
    case Struct(ts) =>
      (match DecParts(InStruct, ts, b, p)
       case Err(x) => Err(x)
       case Ok(vs, next) => Ok(Record(vs), next))
    case Dict(_, _) =>
      (match ReadNumber(b, p, 4)
       case Err(x) => Err(x)
       case Ok(len, q) =>
         match DecEntries(t, b, AlignUp(q, 8), 0, len, [])
         case Err(x) => Err(x)
         case Ok(es, next) => Ok(Map(es), next))
    case Variant => DecVariant(b, p)
  }

  /** Elements are read until the announced number of bytes is used up. */
  function DecElems(t: Type, b: seq<byte>, p: nat, bytesRead: nat, len: nat, acc: seq<Value>): (r: Step<seq<Value>>)
    requires WellFormed(t) && t.Array?
    ensures r.Ok? ==> p <= r.next
    decreases t, 0, if bytesRead < len then len - bytesRead else 0
  {
    if bytesRead >= len then Ok(acc, p)
    else if p >= |b| then Err(Malformed)
    else
      match Dec(t.elem, b, p)
      case Err(x) => Err(x)
      case Ok(v, q) =>
        var read := bytesRead + (q - p);
        var gap := Gap(read < len, q, AlignmentOf(t.elem));
        DecElems(t, b, q + gap, read + gap, len, acc + [v])
  }

  function DecParts(layout: Layout, ts: seq<Type>, b: seq<byte>, p: nat): (r: Step<seq<Value>>)
    requires AllWellFormed(ts)
    ensures r.Ok? && ts != [] ==> p < r.next
    ensures r.Ok? ==> |r.value| == |ts|
    decreases ts, 0, 0
  {
    if ts == [] then Ok([], p)
    else
      match Dec(ts[0], b, p)
      case Err(x) => Err(x)
      case Ok(v, q) =>
        if |ts| == 1 then Ok([v], q)
        else
          match DecParts(layout, ts[1..], b, q + PartGap(layout, ts, q))
          case Err(x) => Err(x)
          case Ok(vs, next) => Ok([v] + vs, next)
  }

  /** The first value inserted under a key stays. */
  function Emplace(es: seq<Entry>, k: Value, v: Value): seq<Entry> {
    if HasKey(es, k) then es else es + [Entry(k, v)]
  }

  function EmplaceAll(acc: seq<Entry>, es: seq<Entry>): seq<Entry>
    decreases |es|
  {
    if es == [] then acc else EmplaceAll(Emplace(acc, es[0].key, es[0].val), es[1..])
  }

  function DecEntries(t: Type, b: seq<byte>, p: nat, bytesRead: nat, len: nat, acc: seq<Entry>): (r: Step<seq<Entry>>)
    requires WellFormed(t) && t.Dict?
    ensures r.Ok? ==> p <= r.next
    decreases t, 0, if bytesRead < len then len - bytesRead else 0
  {
    if bytesRead >= len then Ok(acc, p)
    else
      match DecEntry(t, b, p)
      case Err(x) => Err(x)
      case Ok(e, q) =>
        var read := bytesRead + (q - p);
        var gap := Gap(read < len, q, 8);
        DecEntries(t, b, q + gap, read + gap, len, Emplace(acc, e.key, e.val))
  }

  function DecEntry(t: Type, b: seq<byte>, p: nat): (r: Step<Entry>)
    requires WellFormed(t) && t.Dict?
    ensures r.Ok? ==> p < r.next
    decreases t, 0, 0
  {
    match Dec(t.key, b, p)
    case Err(x) => Err(x)
    case Ok(k, q) =>
      match Dec(t.val, b, AlignUp(q, MemberAlignment(t.val)))
      case Err(x) => Err(x)
      case Ok(v, next) => Ok(Entry(k, v), next)
  }

  /** A received variant is its signature and the bytes its payload occupies. */
  function DecVariant(b: seq<byte>, p: nat): (r: Step<Value>)
    ensures r.Ok? ==> p < r.next
  {
    match ReadText(Signature, b, p)
    case Err(x) => Err(x)
    case Ok(sig, q) =>
      if sig == [] then Err(UnknownCode)
      else
        match AlignmentOfCode(sig[0])
        case Unknown => Err(UnknownCode)
        case Known(a) =>
          match Walk(sig, b, q)
          case Err(x) => Err(x)
          case Ok(_, end) =>
            if end > |b| then Err(Malformed) else Ok(Slice(sig, b[AlignUp(q, a)..end]), end)
  }

  // ---------- the flat interpreter ----------

  /** The signature after the first closing brace. */
  function AfterDict(codes: Text): (r: Text)
    ensures |r| <= |codes| && (codes != [] ==> |r| < |codes|)
  {
    if codes == [] then [] else if codes[0] == DICT_END then codes[1..] else AfterDict(codes[1..])
  }

  function Unread(b: seq<byte>, p: nat): nat {
    if p <= |b| then |b| - p else 0
  }

  /** Advance over the values the type codes announce. A nested variant's own
      signature is put in front of the codes still to come, so the text can grow;
      each time it does, at least two bytes of the buffer have gone. */
  function Walk(codes: Text, b: seq<byte>, p: nat): (r: Step<()>)
    ensures r.Ok? ==> p <= r.next
    ensures r.Ok? && codes != [] && AlignmentOfCode(codes[0]).Known? ==>
            AlignUp(p, AlignmentOfCode(codes[0]).a) <= r.next
    decreases Unread(b, p), |codes|
  {
    if codes == [] then Ok((), p)
    else
      var c, rest := codes[0], codes[1..];
      if c == STRUCT_END || c == DICT_END then Walk(rest, b, p)
      else
        match AlignmentOfCode(c)
        case Unknown => Err(UnknownCode)
        case Known(a) =>
          var q := AlignUp(p, a);
          if IsFixedCode(c) then Walk(rest, b, q + a)
          else if IsTextCode(c) then
            match ReadNumber(b, q, if c == SIGNATURE then 1 else 4)
            case Err(x) => Err(x)
            case Ok(n, q') => Walk(rest, b, q' + n + 1)
          else if c == STRUCT_BEGIN then Walk(rest, b, q)
          else if c == DICT_BEGIN then Walk(AfterDict(rest), b, q)
          else if c == ARRAY then WalkArray(rest, b, q)
          else
            match ReadText(Signature, b, q)
            case Err(x) => Err(x)
            case Ok(nested, q') => Walk(nested + rest, b, q')
  }

  /** An array is skipped by its byte length, and its element by one code. */
  function WalkArray(rest: Text, b: seq<byte>, q: nat): (r: Step<()>)
    ensures r.Ok? ==> q <= r.next
    decreases Unread(b, q), |rest|
  {
    match ReadNumber(b, q, 4)
    case Err(x) => Err(x)
    case Ok(n, q') =>
      if rest == [] then Err(UnknownCode)
      else
        match AlignmentOfCode(rest[0])
        case Unknown => Err(UnknownCode)
        case Known(a) => Walk(if rest[0] == DICT_BEGIN then rest else rest[1..], b, AlignUp(q', a) + n)
  }

  lemma NoNumbers(w: nat)
    requires w > 0
    ensures Numbers([], w) == []
  {
  }

  lemma WalkOfNothing(b: seq<byte>, p: nat)
    ensures Walk([], b, p) == Ok((), p)
  {
  }
}
