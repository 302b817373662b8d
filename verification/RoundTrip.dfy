/** Decoding undoes encoding, for every type, value, start position and
    surrounding buffer. */
module RoundTrip {
  import opened Bytes
  import opened Types
  import opened Signatures
  import opened Encoding
  import opened Decoding
  import opened Walking

  // ---------- what a reader gets ----------

  /** The received form of a value written at `p`: the value itself, with every
      variant replaced by its signature and the bytes of its payload. */
  function Received(t: Type, v: Value, p: nat): Value
    decreases v
  {
    match v
    case List(vs) => if t.Array? then List(ReceivedElems(t.elem, vs, AlignUp(p + 4, AlignmentOf(t.elem)))) else v
    case Record(vs) => if t.Struct? then Record(ReceivedParts(InStruct, t.fields, vs, p)) else v
    case Map(es) => if t.Dict? then Map(ReceivedEntries(t.key, t.val, es, AlignUp(p + 4, 8))) else v
    case Boxed(u, w) => Slice(Sig(u), Enc(u, w, PayloadStart(u, p)))
    case _ => v
  }

  function ReceivedElems(e: Type, vs: seq<Value>, p: nat): seq<Value>
    decreases vs
  {
    if vs == [] then []
    else [Received(e, vs[0], p)] + ReceivedElems(e, vs[1..], NextElem(e, vs, p))
  }

  function ReceivedParts(layout: Layout, ts: seq<Type>, vs: seq<Value>, p: nat): seq<Value>
    decreases vs
  {
    if vs == [] || ts == [] then []
    else [Received(ts[0], vs[0], p)] + ReceivedParts(layout, ts[1..], vs[1..], NextPart(layout, ts, vs, p))
  }

  function ReceivedEntries(k: Type, t: Type, es: seq<Entry>, p: nat): seq<Entry>
    decreases es
  {
    if es == [] then []
    else [ReceivedEntry(k, t, es[0], p)] + ReceivedEntries(k, t, es[1..], NextEntry(k, t, es, p))
  }

  function ReceivedEntry(k: Type, t: Type, e: Entry, p: nat): Entry
    decreases e
  {
    Entry(Received(k, e.key, p), Received(t, e.val, EntryValueAt(k, t, e, p)))
  }

  // ---------- what a reader can take ----------

  /** Limits the marshaller does not enforce but the reader has: signatures of at
      most 255 bytes, arrays of numbers below 64 MiB, and variant payloads the
      flat interpreter can walk. */
  predicate Readable(t: Type, v: Value)
    decreases v
  {
    match v
    case Num(_) => true
    case Txt(s) => t.Text? && (t.text.Signature? ==> |s| < 256)
    case List(vs) =>
      t.Array? && (t.elem.Fixed? ==> |vs| * Width(t.elem.fixed) < MAX_ARRAY_LENGTH) && ElemsReadable(t.elem, vs)
    case Record(vs) => t.Struct? && PartsReadable(t.fields, vs)
    case Map(es) => t.Dict? && EntriesReadable(t.key, t.val, es)
    case Boxed(u, w) => |Sig(u)| < 256 && Walkable(u, w)
    case Slice(_, _) => false
  }

  predicate ElemsReadable(e: Type, vs: seq<Value>)
    decreases vs
  {
    vs == [] || (Readable(e, vs[0]) && ElemsReadable(e, vs[1..]))
  }

  predicate PartsReadable(ts: seq<Type>, vs: seq<Value>)
    decreases vs
  {
    vs == [] || ts == [] || (Readable(ts[0], vs[0]) && PartsReadable(ts[1..], vs[1..]))
  }

  predicate EntriesReadable(k: Type, t: Type, es: seq<Entry>)
    decreases es
  {
    es == [] || (EntryReadable(k, t, es[0]) && EntriesReadable(k, t, es[1..]))
  }

  predicate EntryReadable(k: Type, t: Type, e: Entry)
    decreases e
  {
    Readable(k, e.key) && Readable(t, e.val)
  }

  /** Everything asked of a value that is to make the journey from position `p`. */
  predicate Sendable(t: Type, v: Value, p: nat) {
    WellFormed(t) && Typed(t, v) && Accepts(t, v, p) && Readable(t, v)
  }

  // ---------- basic values ----------

  lemma DecNumberBack(t: Type, v: Value, b: seq<byte>, p: nat)
    requires v.Num? && Typed(t, v) && At(b, p, Enc(t, v, p))
    ensures Dec(t, b, p) == Ok(Received(t, v, p), p + |Enc(t, v, p)|)
  {
    hide LE, Pow256;
    ReadNumberBack(v.n, Width(t.fixed), b, p);
  }

  lemma DecTextBack(t: Type, v: Value, b: seq<byte>, p: nat)
    requires v.Txt? && Typed(t, v) && Readable(t, v) && At(b, p, Enc(t, v, p)) && |b| < TWO_TO_THE_32
    ensures Dec(t, b, p) == Ok(Received(t, v, p), p + |Enc(t, v, p)|)
  {
    hide EncText, ReadText;
    ReadTextBack(t.text, v.s, b, p);
  }

  // ---------- arrays ----------

  lemma {:induction false} NumbersOfRawMemory(k: FixedKind, vs: seq<Value>, p: nat)
    requires k != Bool && AllTyped(Fixed(k), vs) && Aligned(p, Width(k))
    ensures Numbers(EncElems(Fixed(k), vs, p), Width(k)) == vs
    ensures |EncElems(Fixed(k), vs, p)| == |vs| * Width(k)
    ensures ReceivedElems(Fixed(k), vs, p) == vs
  {
    hide EncElems, PadLen, LE, Pow256, Numbers;
    if vs == [] {
      NoElems(Fixed(k), p);
      NoNumbers(Width(k));
    } else {
      var w, v, rest := Width(k), vs[0], vs[1..];
      assert Typed(Fixed(k), v);
      Wrap(p, w);
      StepKeepsAlignment(p, w);
      ElemsStep(Fixed(k), vs, p);
      NumbersOfRawMemory(k, rest, p + w);
      assert EncElems(Fixed(k), vs, p) == LE(v.n, w) + EncElems(Fixed(k), rest, p + w);
      NumbersStep(v.n, EncElems(Fixed(k), rest, p + w), w);
      assert vs == [v] + rest;
    }
  }

  lemma NumbersStep(n: nat, s: seq<byte>, w: nat)
    requires w > 0 && n < Pow256(w)
    ensures Numbers(LE(n, w) + s, w) == [Num(n)] + Numbers(s, w)
  {
    hide LE, Pow256;
    FromLEOfLE(n, w);
    var b := LE(n, w) + s;
    assert b[..w] == LE(n, w) && b[w..] == s;
  }

  lemma {:induction false} DecArrayBack(t: Type, v: Value, b: seq<byte>, p: nat)
    requires v.List? && Sendable(t, v, p) && At(b, p, Enc(t, v, p)) && |b| < TWO_TO_THE_32
    ensures Dec(t, b, p) == Ok(Received(t, v, p), p + |Enc(t, v, p)|)
    decreases v, 0
  {
    hide Enc, FaultOf, EncElems, LE, PadLen, AlignmentOf, ReadNumber, DecElems, ReceivedElems, FaultOfElems,
         ElemsReadable, Numbers, AllTyped, At, Zeros;
    var e, vs := t.elem, v.elems;
    var start := AlignUp(p + 4, AlignmentOf(e));
    var body := EncElems(e, vs, start);
    ArrayStep(e, vs, p);
    assert Enc(t, v, p) == LE(|body|, 4) + Zeros(start - p - 4) + body;
    AtSplit3(b, p, LE(|body|, 4), Zeros(start - p - 4), body);
    ReadLengthBack(|body|, b, p);
    if e.Fixed? {
      FixedIsAligned(e.fixed, p + 4);
      NumbersOfRawMemory(e.fixed, vs, start);
    } else {
      DecElemsBack(t, vs, b, start, 0, |body|, []);
      assert [] + ReceivedElems(e, vs, start) == ReceivedElems(e, vs, start);
    }
  }

  /** The loop over the bytes of an array, from any point of the array on: with as
      many bytes left to read as the remaining elements take, it reads exactly those. */
  lemma {:induction false} DecElemsBack(t: Type, vs: seq<Value>, b: seq<byte>, p: nat, bytesRead: nat, len: nat,
                                        acc: seq<Value>)
    requires t.Array? && WellFormed(t) && AllTyped(t.elem, vs) && AcceptsElems(t.elem, vs, p) &&
             ElemsReadable(t.elem, vs)
    requires At(b, p, EncElems(t.elem, vs, p)) && |b| < TWO_TO_THE_32
    requires bytesRead + |EncElems(t.elem, vs, p)| == len
    ensures DecElems(t, b, p, bytesRead, len, acc) ==
            Ok(acc + ReceivedElems(t.elem, vs, p), p + |EncElems(t.elem, vs, p)|)
    decreases vs, 1
  {
    hide Enc, FaultOf, EncElems, PadLen, AlignmentOf, Dec, FaultOfElems, Typed, Readable, Received, WellFormed, At,
         Zeros;
    var e := t.elem;
    ElemIsWellFormed(t);
    if vs == [] {
      NoElems(e, p);
      assert acc + [] == acc;
    } else {
      var head, next, rest := Enc(e, vs[0], p), NextElem(e, vs, p), vs[1..];
      var end := p + |head|;
      ElemsStep(e, vs, p);
      AtSplit3(b, p, head, Zeros(next - end), EncElems(e, rest, next));
      EncIsNonempty(e, vs[0], p);
      DecodesBack(e, vs[0], b, p);
      if rest == [] {
        NoElems(e, next);
      } else {
        ElemsAreNonempty(e, rest, next);
      }
      var read := bytesRead + |head|;
      assert Gap(read < len, end, AlignmentOf(e)) == next - end;
      DecElemsBack(t, rest, b, next, read + (next - end), len, acc + [Received(e, vs[0], p)]);
      assert acc + [Received(e, vs[0], p)] + ReceivedElems(e, rest, next) ==
          acc + ([Received(e, vs[0], p)] + ReceivedElems(e, rest, next));
    }
  }

  lemma ElemIsWellFormed(t: Type)
    requires t.Array? && WellFormed(t)
    ensures WellFormed(t.elem)
  {
  }

  lemma ElemsAreNonempty(e: Type, vs: seq<Value>, p: nat)
    requires vs != [] && WellFormed(e) && AllTyped(e, vs) && AcceptsElems(e, vs, p)
    ensures |EncElems(e, vs, p)| >= 1
  {
    hide Enc, FaultOf, EncElems, PadLen, AlignmentOf, FaultOfElems, Typed, WellFormed;
    ElemsStep(e, vs, p);
    EncIsNonempty(e, vs[0], p);
  }

  // ---------- structs and argument lists ----------

  lemma {:induction false} DecPartsBack(layout: Layout, ts: seq<Type>, vs: seq<Value>, b: seq<byte>, p: nat)
    requires AllWellFormed(ts) && PartsTyped(ts, vs) && AcceptsParts(layout, ts, vs, p) && PartsReadable(ts, vs)
    requires At(b, p, EncParts(layout, ts, vs, p)) && |b| < TWO_TO_THE_32
    ensures DecParts(layout, ts, b, p) ==
            Ok(ReceivedParts(layout, ts, vs, p), p + |EncParts(layout, ts, vs, p)|)
    decreases vs, 1
  {
    hide Enc, FaultOf, EncParts, PadLen, PartAlignment, Dec, FaultOfParts, Typed, Readable, Received, WellFormed, At,
         Zeros;
    if ts == [] {
      NoParts(layout, ts, vs, p);
    } else {
      var head, next := Enc(ts[0], vs[0], p), NextPart(layout, ts, vs, p);
      PartsStep(layout, ts, vs, p);
      AtSplit3(b, p, head, Zeros(next - p - |head|), EncParts(layout, ts[1..], vs[1..], next));
      DecodesBack(ts[0], vs[0], b, p);
      if |ts| == 1 {
        NoParts(layout, ts[1..], vs[1..], next);
        var got := Received(ts[0], vs[0], p);
        assert ReceivedParts(layout, ts, vs, p) == [got] + ReceivedParts(layout, ts[1..], vs[1..], next) == [got];
        assert next == p + |head| && |EncParts(layout, ts, vs, p)| == |head|;
      } else {
        DecPartsBack(layout, ts[1..], vs[1..], b, next);
      }
    }
  }

  // ---------- dictionaries ----------

  lemma {:induction false} DecDictBack(t: Type, v: Value, b: seq<byte>, p: nat)
    requires v.Map? && Sendable(t, v, p) && At(b, p, Enc(t, v, p)) && |b| < TWO_TO_THE_32
    ensures Dec(t, b, p) == Ok(Received(t, v, p), p + |Enc(t, v, p)|)
    decreases v, 0
  {
    hide Enc, Dec, FaultOf, EncEntries, PadLen, ReceivedEntries, EntriesTyped, FaultOfEntries, EntriesReadable,
         DistinctKeys, At, EmplaceAll;
    var start := AlignUp(p + 4, 8);
    EntriesBack(t, v.entries, b, p);
    KeysAreReceived(t.key, t.val, v.entries, start);
    DistinctKeysStay(v.entries, ReceivedEntries(t.key, t.val, v.entries, start));
  }

  /** Whatever entries are written, one key several times included: they come back as
      emplacing them one after the other leaves them. */
  lemma {:induction false} EntriesBack(t: Type, es: seq<Entry>, b: seq<byte>, p: nat)
    requires t.Dict? && WellFormed(t) && EntriesTyped(t.key, t.val, es) && Accepts(t, Map(es), p)
    requires EntriesReadable(t.key, t.val, es) && At(b, p, Enc(t, Map(es), p)) && |b| < TWO_TO_THE_32
    ensures Dec(t, b, p) ==
            Ok(Map(EmplaceAll([], ReceivedEntries(t.key, t.val, es, AlignUp(p + 4, 8)))), p + |Enc(t, Map(es), p)|)
    decreases es, 2
  {
    hide Enc, FaultOf, EncEntries, LE, PadLen, ReadNumber, DecEntries, ReceivedEntries, FaultOfEntries,
         EntriesReadable, EntriesTyped, At, Zeros, EmplaceAll;
    var k, u := t.key, t.val;
    var start := AlignUp(p + 4, 8);
    var body := EncEntries(k, u, es, start);
    DictStep(k, u, es, p);
    assert Enc(t, Map(es), p) == LE(|body|, 4) + Zeros(start - p - 4) + body;
    AtSplit3(b, p, LE(|body|, 4), Zeros(start - p - 4), body);
    ReadLengthBack(|body|, b, p);
    DecEntriesBack(t, es, b, start, 0, |body|, []);
  }

  lemma {:induction false} DecEntriesBack(t: Type, es: seq<Entry>, b: seq<byte>, p: nat, bytesRead: nat, len: nat,
                                          acc: seq<Entry>)
    requires t.Dict? && WellFormed(t) && EntriesTyped(t.key, t.val, es) && AcceptsEntries(t.key, t.val, es, p)
    requires EntriesReadable(t.key, t.val, es)
    requires At(b, p, EncEntries(t.key, t.val, es, p)) && |b| < TWO_TO_THE_32
    requires bytesRead + |EncEntries(t.key, t.val, es, p)| == len
    ensures DecEntries(t, b, p, bytesRead, len, acc) ==
            Ok(EmplaceAll(acc, ReceivedEntries(t.key, t.val, es, p)), p + |EncEntries(t.key, t.val, es, p)|)
    decreases es, 1
  {
    hide EncEntry, FaultOfEntry, EncEntries, PadLen, DecEntry, FaultOfEntries, EntryTyped, EntryReadable, WellFormed,
         ReceivedEntry, At, Emplace, Zeros;
    var k, u := t.key, t.val;
    if es == [] {
      NoEntries(k, u, p);
    } else {
      var head, next, rest := EncEntry(k, u, es[0], p), NextEntry(k, u, es, p), es[1..];
      var end := p + |head|;
      EntriesStep(k, u, es, p);
      AtSplit3(b, p, head, Zeros(next - end), EncEntries(k, u, rest, next));
      DecEntryBack(t, es[0], b, p);
      if rest == [] {
        NoEntries(k, u, next);
      } else {
        EntriesAreNonempty(t, rest, next);
      }
      var read, e := bytesRead + |head|, ReceivedEntry(k, u, es[0], p);
      assert Gap(read < len, end, 8) == next - end;
      DecEntriesBack(t, rest, b, next, read + (next - end), len, Emplace(acc, e.key, e.val));
    }
  }

  lemma {:induction false} KeysAreReceived(k: Type, t: Type, es: seq<Entry>, p: nat)
    requires IsBasic(k) && EntriesTyped(k, t, es)
    ensures |ReceivedEntries(k, t, es, p)| == |es|
    ensures forall i :: 0 <= i < |es| ==> ReceivedEntries(k, t, es, p)[i].key == es[i].key
    decreases |es|
  {
    hide NextEntry, EntryValueAt, EntryTyped, ReceivedEntry;
    if es != [] {
      KeyIsReceived(k, t, es[0], p);
      KeysAreReceived(k, t, es[1..], NextEntry(k, t, es, p));
      var rs, tail := ReceivedEntries(k, t, es, p), ReceivedEntries(k, t, es[1..], NextEntry(k, t, es, p));
      forall i | 0 < i < |es| ensures rs[i].key == es[i].key {
        assert rs[i] == tail[i - 1] && es[i] == es[1..][i - 1];
      }
    }
  }

  lemma KeyIsReceived(k: Type, t: Type, e: Entry, p: nat)
    requires IsBasic(k) && EntryTyped(k, t, e)
    ensures ReceivedEntry(k, t, e, p).key == e.key
  {
  }

  lemma DistinctKeysStay(es: seq<Entry>, rs: seq<Entry>)
    requires |es| == |rs| && DistinctKeys(es) && forall i :: 0 <= i < |es| ==> rs[i].key == es[i].key
    ensures EmplaceAll([], rs) == rs
  {
    hide EmplaceAll;
    DistinctKeysAppend([], rs);
    assert [] + rs == rs;
  }

  /** Keys of the entries already read, against those still to come. */
  predicate NoneRepeated(acc: seq<Entry>, es: seq<Entry>) {
    forall i, j :: 0 <= i < |acc| && 0 <= j < |es| ==> acc[i].key != es[j].key
  }

  lemma {:induction false} DistinctKeysAppend(acc: seq<Entry>, es: seq<Entry>)
    requires DistinctKeys(es) && NoneRepeated(acc, es)
    ensures EmplaceAll(acc, es) == acc + es
    decreases |es|
  {
    hide DistinctKeys, NoneRepeated, HasKey, Emplace;
    if es != [] {
      KeysStayDistinct(acc, es);
      DistinctKeysAppend(acc + [es[0]], es[1..]);
      assert acc + [es[0]] + es[1..] == acc + es;
    }
  }

  lemma KeysStayDistinct(acc: seq<Entry>, es: seq<Entry>)
    requires es != [] && DistinctKeys(es) && NoneRepeated(acc, es)
    ensures Emplace(acc, es[0].key, es[0].val) == acc + [es[0]]
    ensures DistinctKeys(es[1..]) && NoneRepeated(acc + [es[0]], es[1..])
  {
    assert !HasKey(acc, es[0].key);
    assert Entry(es[0].key, es[0].val) == es[0];
  }

  /** Entry `i` is the first with its key. */
  predicate IsFirst(es: seq<Entry>, i: nat)
    requires i < |es|
  {
    forall j :: 0 <= j < i ==> es[j].key != es[i].key
  }

  ghost predicate KeepsFirsts(es: seq<Entry>, out: seq<Entry>) {
    DistinctKeys(out) && forall e :: e in out <==> exists i :: 0 <= i < |es| && IsFirst(es, i) && es[i] == e
  }

  lemma {:induction false} EmplacingKeepsFirsts(before: seq<Entry>, acc: seq<Entry>, es: seq<Entry>)
    requires KeepsFirsts(before, acc)
    ensures KeepsFirsts(before + es, EmplaceAll(acc, es))
    decreases |es|
  {
    if es == [] {
      assert before + es == before;
    } else {
      OneMoreKeepsFirsts(before, acc, es[0]);
      hide KeepsFirsts, Emplace;
      EmplacingKeepsFirsts(before + [es[0]], Emplace(acc, es[0].key, es[0].val), es[1..]);
      assert before + [es[0]] + es[1..] == before + es;
    }
  }

  lemma OneMoreKeepsFirsts(before: seq<Entry>, acc: seq<Entry>, e: Entry)
    requires KeepsFirsts(before, acc)
    ensures KeepsFirsts(before + [e], Emplace(acc, e.key, e.val))
  {
    var all, out := before + [e], Emplace(acc, e.key, e.val);
    SameKeys(before, acc, e.key);
    forall i | 0 <= i < |before| ensures all[i] == before[i] && (IsFirst(all, i) <==> IsFirst(before, i)) {
      assert forall j :: 0 <= j <= i ==> all[j] == before[j];
    }
    assert all[|before|] == e && (IsFirst(all, |before|) <==> !HasKey(before, e.key)) by {
      assert forall j :: 0 <= j < |before| ==> all[j] == before[j];
    }
    forall x ensures x in out <==> exists i :: 0 <= i < |all| && IsFirst(all, i) && all[i] == x {
      if x in acc {
        var i :| 0 <= i < |before| && IsFirst(before, i) && before[i] == x;
        assert IsFirst(all, i) && all[i] == x;
      }
      if x == e && !HasKey(acc, e.key) {
        assert IsFirst(all, |before|) && all[|before|] == x;
      }
    }
  }

  lemma SameKeys(es: seq<Entry>, out: seq<Entry>, k: Value)
    requires KeepsFirsts(es, out)
    ensures HasKey(out, k) <==> HasKey(es, k)
  {
    if HasKey(es, k) {
      var i :| 0 <= i < |es| && es[i].key == k;
      var f := FirstWith(es, i);
      assert es[f] in out;
    }
    if HasKey(out, k) {
      var j :| 0 <= j < |out| && out[j].key == k;
      assert out[j] in out;
    }
  }

  lemma {:induction false} FirstWith(es: seq<Entry>, i: nat) returns (f: nat)
    requires i < |es|
    ensures f <= i && IsFirst(es, f) && es[f].key == es[i].key
  {
    f := i;
    if !IsFirst(es, i) {
      var j :| 0 <= j < i && es[j].key == es[i].key;
      f := FirstWith(es, j);
    }
  }

  /** Of entries with one key, the first that was written is the one that is read. */
  lemma FirstUnderAKeyIsRead(t: Type, es: seq<Entry>, b: seq<byte>, p: nat)
    requires t.Dict? && WellFormed(t) && EntriesTyped(t.key, t.val, es) && Accepts(t, Map(es), p)
    requires EntriesReadable(t.key, t.val, es) && At(b, p, Enc(t, Map(es), p)) && |b| < TWO_TO_THE_32
    ensures Dec(t, b, p).Ok? && Dec(t, b, p).value.Map? && Dec(t, b, p).next == p + |Enc(t, Map(es), p)|
    ensures KeepsFirsts(ReceivedEntries(t.key, t.val, es, AlignUp(p + 4, 8)), Dec(t, b, p).value.entries)
  {
    hide Enc, Dec, FaultOf, ReceivedEntries, EntriesTyped, EntriesReadable, At, EmplaceAll, PadLen;
    var rs := ReceivedEntries(t.key, t.val, es, AlignUp(p + 4, 8));
    EntriesBack(t, es, b, p);
    EmplacingKeepsFirsts([], [], rs);
    assert [] + rs == rs;
  }

  lemma {:induction false} DecEntryBack(t: Type, e: Entry, b: seq<byte>, p: nat)
    requires t.Dict? && WellFormed(t) && EntryTyped(t.key, t.val, e) && AcceptsEntry(t.key, t.val, e, p)
    requires EntryReadable(t.key, t.val, e)
    requires At(b, p, EncEntry(t.key, t.val, e, p)) && |b| < TWO_TO_THE_32
    ensures DecEntry(t, b, p) == Ok(ReceivedEntry(t.key, t.val, e, p), p + |EncEntry(t.key, t.val, e, p)|)
    ensures |EncEntry(t.key, t.val, e, p)| >= 1
    ensures ReceivedEntry(t.key, t.val, e, p).key == e.key
    decreases e, 0
  {
    hide Enc, FaultOf, EncEntry, PadLen, MemberAlignment, Dec, FaultOfEntry, Readable, At, Zeros;
    var k, u := t.key, t.val;
    var key, at := Enc(k, e.key, p), EntryValueAt(k, u, e, p);
    EntryStep(k, u, e, p);
    AtSplit3(b, p, key, Zeros(at - p - |key|), Enc(u, e.val, at));
    EncIsNonempty(k, e.key, p);
    DecodesBack(k, e.key, b, p);
    DecodesBack(u, e.val, b, at);
  }

  lemma EntriesAreNonempty(t: Type, es: seq<Entry>, p: nat)
    requires es != [] && t.Dict? && WellFormed(t) && EntriesTyped(t.key, t.val, es) &&
             AcceptsEntries(t.key, t.val, es, p)
    ensures |EncEntries(t.key, t.val, es, p)| >= 1
  {
    hide Enc, FaultOf, EncEntry, FaultOfEntry, EncEntries, PadLen, FaultOfEntries, Typed;
    EntriesStep(t.key, t.val, es, p);
    EntryStep(t.key, t.val, es[0], p);
    EncIsNonempty(t.key, es[0].key, p);
  }

  // ---------- all values ----------

  /** The round trip: wherever a buffer holds the encoding of a sendable value,
      decoding at its start yields the received form of that value and leaves the
      cursor exactly at its end. */
  lemma {:induction false} DecodesBack(t: Type, v: Value, b: seq<byte>, p: nat)
    requires Sendable(t, v, p) && At(b, p, Enc(t, v, p)) && |b| < TWO_TO_THE_32
    ensures Dec(t, b, p) == Ok(Received(t, v, p), p + |Enc(t, v, p)|)
    decreases v, 1
  {
    if v.Num? {
      DecNumberBack(t, v, b, p);
    } else if v.Txt? {
      DecTextBack(t, v, b, p);
    } else if v.List? {
      DecArrayBack(t, v, b, p);
    } else if v.Record? {
      DecStructBack(t, v, b, p);
    } else if v.Map? {
      DecDictBack(t, v, b, p);
    } else {
      DecBoxBack(t, v, b, p);
    }
  }

  lemma {:induction false} DecStructBack(t: Type, v: Value, b: seq<byte>, p: nat)
    requires v.Record? && Sendable(t, v, p) && At(b, p, Enc(t, v, p)) && |b| < TWO_TO_THE_32
    ensures Dec(t, b, p) == Ok(Received(t, v, p), p + |Enc(t, v, p)|)
    decreases v, 0
  {
    hide EncParts, FaultOfParts, DecParts, ReceivedParts, PartsTyped, PartsReadable, AllWellFormed;
    DecPartsBack(InStruct, t.fields, v.parts, b, p);
  }

  lemma DecBoxBack(t: Type, v: Value, b: seq<byte>, p: nat)
    requires (v.Boxed? || v.Slice?) && Sendable(t, v, p) && At(b, p, Enc(t, v, p)) && |b| < TWO_TO_THE_32
    ensures Dec(t, b, p) == Ok(Received(t, v, p), p + |Enc(t, v, p)|)
  {
    hide Enc, DecVariant, PadLen, EncText;
    DecVariantBack(v.t, v.v, b, p);
  }

  // ---------- the round trip ----------

  /** No variant anywhere in the type. */
  predicate VariantFree(t: Type) {
    match t
    case Fixed(_) => true
    case Text(_) => true
    case Array(e) => VariantFree(e)
    case Struct(ts) => AllVariantFree(ts)
    case Dict(k, v) => VariantFree(k) && VariantFree(v)
    case Variant => false
  }

  predicate AllVariantFree(ts: seq<Type>) {
    ts == [] || (VariantFree(ts[0]) && AllVariantFree(ts[1..]))
  }

  lemma {:induction false} ReceivedAsSent(t: Type, v: Value, p: nat)
    requires VariantFree(t) && Typed(t, v)
    ensures Received(t, v, p) == v
    decreases v, 1
  {
    hide NextElem, NextPart, NextEntry;
    match v {
      case Num(_) =>
      case Txt(_) =>
      case List(vs) => ReceivedElemsAsSent(t.elem, vs, AlignUp(p + 4, AlignmentOf(t.elem)));
      case Record(vs) => ReceivedPartsAsSent(InStruct, t.fields, vs, p);
      case Map(es) => ReceivedEntriesAsSent(t.key, t.val, es, AlignUp(p + 4, 8));
    }
  }

  lemma {:induction false} ReceivedElemsAsSent(e: Type, vs: seq<Value>, p: nat)
    requires VariantFree(e) && AllTyped(e, vs)
    ensures ReceivedElems(e, vs, p) == vs
    decreases vs, 0
  {
    hide Received, Typed, VariantFree, NextElem;
    if vs != [] {
      ReceivedAsSent(e, vs[0], p);
      ReceivedElemsAsSent(e, vs[1..], NextElem(e, vs, p));
    }
  }

  lemma {:induction false} ReceivedPartsAsSent(layout: Layout, ts: seq<Type>, vs: seq<Value>, p: nat)
    requires AllVariantFree(ts) && PartsTyped(ts, vs)
    ensures ReceivedParts(layout, ts, vs, p) == vs
    decreases vs, 0
  {
    hide Received, Typed, VariantFree, NextPart;
    if vs != [] {
      ReceivedAsSent(ts[0], vs[0], p);
      ReceivedPartsAsSent(layout, ts[1..], vs[1..], NextPart(layout, ts, vs, p));
    }
  }

  lemma {:induction false} ReceivedEntriesAsSent(k: Type, t: Type, es: seq<Entry>, p: nat)
    requires VariantFree(k) && VariantFree(t) && EntriesTyped(k, t, es)
    ensures ReceivedEntries(k, t, es, p) == es
    decreases es, 0
  {
    hide ReceivedEntry, EntryTyped, VariantFree, NextEntry;
    if es != [] {
      ReceivedEntryAsSent(k, t, es[0], p);
      ReceivedEntriesAsSent(k, t, es[1..], NextEntry(k, t, es, p));
    }
  }

  lemma {:induction false} ReceivedEntryAsSent(k: Type, t: Type, e: Entry, p: nat)
    requires VariantFree(k) && VariantFree(t) && EntryTyped(k, t, e)
    ensures ReceivedEntry(k, t, e, p) == e
    decreases e, 0
  {
    hide Received, Typed, VariantFree, EntryValueAt;
    ReceivedAsSent(k, e.key, p);
    ReceivedAsSent(t, e.val, EntryValueAt(k, t, e, p));
  }

  /** Behind any prefix and before any suffix, a sendable value comes back in its
      received form, as sent if its type holds no variant, and the cursor ends
      where the encoding ends. */
  lemma CodecRoundTrip(t: Type, v: Value, pre: seq<byte>, post: seq<byte>)
    requires Sendable(t, v, |pre|)
    requires |pre + Enc(t, v, |pre|) + post| < TWO_TO_THE_32
    ensures Dec(t, pre + Enc(t, v, |pre|) + post, |pre|) == Ok(Received(t, v, |pre|), |pre| + |Enc(t, v, |pre|)|)
    ensures VariantFree(t) ==>
              Dec(t, pre + Enc(t, v, |pre|) + post, |pre|) == Ok(v, |pre| + |Enc(t, v, |pre|)|)
  {
    hide Enc, Dec, Received, FaultOf;
    AtInContext(pre, Enc(t, v, |pre|), post);
    DecodesBack(t, v, pre + Enc(t, v, |pre|) + post, |pre|);
    if VariantFree(t) {
      ReceivedAsSent(t, v, |pre|);
    }
  }

  /** The same for a whole argument list, as a message body carries it. */
  lemma ArgumentsRoundTrip(ts: seq<Type>, vs: seq<Value>, b: seq<byte>)
    requires AllWellFormed(ts) && PartsTyped(ts, vs) && AcceptsParts(TopLevel, ts, vs, 0) && PartsReadable(ts, vs)
    requires b == EncParts(TopLevel, ts, vs, 0) && |b| < TWO_TO_THE_32
    ensures DecParts(TopLevel, ts, b, 0) == Ok(ReceivedParts(TopLevel, ts, vs, 0), |b|)
    ensures AllVariantFree(ts) ==> DecParts(TopLevel, ts, b, 0) == Ok(vs, |b|)
  {
    hide EncParts, DecParts, FaultOfParts, ReceivedParts;
    DecPartsBack(TopLevel, ts, vs, b, 0);
    if AllVariantFree(ts) {
      ReceivedPartsAsSent(TopLevel, ts, vs, 0);
    }
  }

  // ---------- the limit on arrays of numbers ----------

  /** The marshaller does not check the size of an array of numbers; the reader
      does. Such an array comes back exactly when it is below 64 MiB. */
  lemma NumberArrayComesBackIffBelow64MiB(k: FixedKind, vs: seq<Value>, pre: seq<byte>, post: seq<byte>)
    requires k != Bool && AllTyped(Fixed(k), vs)
    requires |pre + Enc(Array(Fixed(k)), List(vs), |pre|) + post| < TWO_TO_THE_32
    ensures Accepts(Array(Fixed(k)), List(vs), |pre|)
    ensures Dec(Array(Fixed(k)), pre + Enc(Array(Fixed(k)), List(vs), |pre|) + post, |pre|).Ok?
            <==> |vs| * Width(k) < 67108864
    ensures |vs| * Width(k) < 67108864 ==>
              Dec(Array(Fixed(k)), pre + Enc(Array(Fixed(k)), List(vs), |pre|) + post, |pre|)
              == Ok(List(vs), |pre| + |Enc(Array(Fixed(k)), List(vs), |pre|)|)
  {
    hide Enc, Dec, Received;
    var t, v := Array(Fixed(k)), List(vs);
    if |vs| * Width(k) < MAX_ARRAY_LENGTH {
      NumbersAreReadable(k, vs);
      CodecRoundTrip(t, v, pre, post);
    } else {
      AtInContext(pre, Enc(t, v, |pre|), post);
      BigNumberArrayIsRefused(k, vs, pre + Enc(t, v, |pre|) + post, |pre|);
    }
  }

  lemma BigNumberArrayIsRefused(k: FixedKind, vs: seq<Value>, b: seq<byte>, p: nat)
    requires k != Bool && AllTyped(Fixed(k), vs) && |vs| * Width(k) >= MAX_ARRAY_LENGTH
    requires At(b, p, Enc(Array(Fixed(k)), List(vs), p)) && |b| < TWO_TO_THE_32
    ensures Dec(Array(Fixed(k)), b, p) == Err(ArrayTooLong)
  {
    hide Enc, PadLen, LE, ReadNumber, EncElems, Received, Numbers, AllTyped, At, Zeros;
    var start := AlignUp(p + 4, AlignmentOf(Fixed(k)));
    var body := EncElems(Fixed(k), vs, start);
    FixedIsAligned(k, p + 4);
    NumbersOfRawMemory(k, vs, start);
    ArrayStep(Fixed(k), vs, p);
    AtSplit3(b, p, LE(|body|, 4), Zeros(start - p - 4), body);
    ReadLengthBack(|body|, b, p);
  }

  lemma {:induction false} NumbersAreReadable(k: FixedKind, vs: seq<Value>)
    requires AllTyped(Fixed(k), vs)
    ensures ElemsReadable(Fixed(k), vs)
  {
    if vs != [] {
      assert Typed(Fixed(k), vs[0]);
      NumbersAreReadable(k, vs[1..]);
    }
  }

  function ZeroBytes(n: nat): (vs: seq<Value>)
    ensures |vs| == n
  {
    seq(n, _ => Num(0))
  }

  lemma {:induction false} ZeroBytesAreTyped(n: nat)
    ensures AllTyped(Fixed(Byte), ZeroBytes(n))
  {
    Pow256Values();
    if n > 0 {
      ZeroBytesAreTyped(n - 1);
      assert ZeroBytes(n)[1..] == ZeroBytes(n - 1);
    }
  }

  /** An array of 64 MiB of zero bytes is written, and refused by the reader. */
  lemma HugeArrayIsRefused(vs: seq<Value>)
    requires vs == ZeroBytes(MAX_ARRAY_LENGTH)
    ensures Accepts(Array(Fixed(Byte)), List(vs), 0)
    ensures Dec(Array(Fixed(Byte)), Enc(Array(Fixed(Byte)), List(vs), 0), 0) == Err(ArrayTooLong)
  {
    hide Enc, Dec, EncElems, ZeroBytes, AllTyped, LE;
    var b := Enc(Array(Fixed(Byte)), List(vs), 0);
    ZeroBytesAreTyped(MAX_ARRAY_LENGTH);
    ArrayStep(Fixed(Byte), vs, 0);
    NumbersOfRawMemory(Byte, vs, AlignUp(4, 1));
    assert b[0..|b|] == b;
    BigNumberArrayIsRefused(Byte, vs, b, 0);
  }
}
