/** Reading arbitrary bytes: what comes of them, whoever wrote them. */
module Readings {
  import opened Bytes
  import opened ObjectPaths
  import opened Types
  import opened Signatures
  import opened Encoding
  import opened Decoding
  import opened WireFormat
  import opened RoundTrip
  import opened Walking

  // ---------- basic values ----------

  /** A number is read from as many bytes as there are, each with its weight; a
      boolean is true if its four bytes are the number 1, and false otherwise. */
  lemma NumberIsRead(k: FixedKind, b: seq<byte>, p: nat)
    ensures var w := Boundary(FirstCharacter(Fixed(k)));
            if p + w > |b| then Dec(Fixed(k), b, p) == Err(Malformed)
            else
              var n := Weighted(b[p..p + w], w);
              Dec(Fixed(k), b, p) ==
              Ok(Num(if FirstCharacter(Fixed(k)) != 'b' then n else if n == 1 then 1 else 0), p + w)
  {
    hide FromLE, Weighted;
    WidthsByCharacter(k);
    if p + Width(k) <= |b| {
      FromLEIsWeighted(b[p..p + Width(k)]);
    }
  }

  /** A text is read exactly where its length stands, then it, then one more byte; a
      path besides must be one. */
  lemma TextIsReadIff(k: TextKind, b: seq<byte>, p: nat, s: Text, q: nat)
    ensures Dec(Text(k), b, p) == Ok(Txt(s), q) <==>
            var n := if FirstCharacter(Text(k)) == 'g' then 1 else 4;
            && q == p + n + |s| + 1 && q <= |b| && Weighted(b[p..p + n], n) == |s| && At(b, p + n, s)
            && (FirstCharacter(Text(k)) == 'o' ==> IsGrammatical(s))
  {
    hide FromLE, Weighted, IsValidPath, IsGrammatical;
    var n := if FirstCharacter(Text(k)) == 'g' then 1 else 4;
    ValidPathIsGrammatical(s);
    if p + n <= |b| {
      FromLEIsWeighted(b[p..p + n]);
    }
  }

  /** An array is refused for its length exactly from 64 MiB on. */
  lemma ArrayIsTooLongIff(e: Type, b: seq<byte>, p: nat)
    requires WellFormed(Array(e)) && p + 4 <= |b| && Weighted(b[p..p + 4], 4) >= 67108864
    ensures Dec(Array(e), b, p) == Err(ArrayTooLong)
  {
    hide FromLE, Weighted;
    FromLEIsWeighted(b[p..p + 4]);
  }

  // ---------- lengths that do not fit ----------

  /** An array's length may end inside an element: the element is read whole. */
  lemma LengthMayEndInsideElement(e: Type, v: Value, b: seq<byte>, p: nat, len: nat)
    requires WellFormed(Array(e)) && !e.Fixed? && p + 4 <= |b| < TWO_TO_THE_32 && len == Weighted(b[p..p + 4], 4)
    requires var start := AlignUp(p + 4, AlignmentOf(e));
             Sendable(e, v, start) && At(b, start, Enc(e, v, start)) && 0 < len <= |Enc(e, v, start)| && len < 67108864
    ensures var start := AlignUp(p + 4, AlignmentOf(e));
            Dec(Array(e), b, p) == Ok(List([Received(e, v, start)]), start + |Enc(e, v, start)|)
  {
    hide FromLE, Weighted, PadLen, AlignmentOf, Enc, Received, At, FaultOf, Typed, Readable;
    var start := AlignUp(p + 4, AlignmentOf(e));
    FromLEIsWeighted(b[p..p + 4]);
    DecodesBack(e, v, b, start);
    FitsIn(b, start, Enc(e, v, start));
    LastElement(Array(e), b, start, len);
    assert [] + [Received(e, v, start)] == [Received(e, v, start)];
  }

  lemma LastElement(t: Type, b: seq<byte>, p: nat, len: nat)
    requires WellFormed(t) && t.Array? && p < |b| && Dec(t.elem, b, p).Ok? && 0 < len <= Dec(t.elem, b, p).next - p
    ensures DecElems(t, b, p, 0, len, []) == Ok([] + [Dec(t.elem, b, p).value], Dec(t.elem, b, p).next)
  {
    hide Dec, AlignmentOf;
  }

  /** A variant with an empty signature is refused. */
  lemma EmptySignatureIsRefused(b: seq<byte>, p: nat)
    requires p + 1 < |b| && b[p] == 0
    ensures Dec(Variant, b, p) == Err(UnknownCode)
  {
    assert b[p..p + 1] == [0];
    FromLEOfLE(0, 1);
    assert FromLE([0]) == 0 by {
      assert [0][1..] == [];
    }
  }

  // ---------- whatever is read has the type that was asked for ----------

  lemma {:induction false} AllTypedPush(e: Type, vs: seq<Value>, v: Value)
    requires AllTyped(e, vs) && Typed(e, v)
    ensures AllTyped(e, vs + [v])
  {
    hide Typed;
    if vs == [] {
      assert [v][1..] == [];
    } else {
      assert (vs + [v])[0] == vs[0] && (vs + [v])[1..] == vs[1..] + [v];
      AllTypedPush(e, vs[1..], v);
    }
  }

  lemma {:induction false} EntriesTypedPush(k: Type, t: Type, es: seq<Entry>, e: Entry)
    requires EntriesTyped(k, t, es) && EntryTyped(k, t, e)
    ensures EntriesTyped(k, t, es + [e])
  {
    hide EntryTyped;
    if es == [] {
      assert [e][1..] == [];
    } else {
      assert (es + [e])[0] == es[0] && (es + [e])[1..] == es[1..] + [e];
      EntriesTypedPush(k, t, es[1..], e);
    }
  }

  lemma EmplaceKeepsTyped(k: Type, t: Type, es: seq<Entry>, e: Entry)
    requires EntriesTyped(k, t, es) && DistinctKeys(es) && EntryTyped(k, t, e)
    ensures EntriesTyped(k, t, Emplace(es, e.key, e.val)) && DistinctKeys(Emplace(es, e.key, e.val))
  {
    hide EntryTyped, EntriesTyped;
    EntriesTypedPush(k, t, es, e);
  }

  lemma {:induction false} FromLEIsBounded(s: seq<byte>)
    ensures FromLE(s) < Pow256(|s|)
  {
    if s != [] {
      FromLEIsBounded(s[1..]);
    }
  }

  lemma {:induction false} BlockIsTyped(k: FixedKind, s: seq<byte>)
    requires k != Bool
    ensures AllTyped(Fixed(k), Numbers(s, Width(k)))
    decreases |s|
  {
    hide FromLE, Pow256;
    if |s| >= Width(k) {
      FromLEIsBounded(s[..Width(k)]);
      BlockIsTyped(k, s[Width(k)..]);
    }
  }

  /** Whatever the bytes: if a value is read, it is of the type that was asked for;
      paths are valid, booleans are 0 or 1, no key occurs twice. */
  lemma {:induction false} ReadIsTyped(t: Type, b: seq<byte>, p: nat)
    requires WellFormed(t)
    ensures Dec(t, b, p).Ok? ==> Typed(t, Dec(t, b, p).value)
    decreases t, 2, 0
  {
    match t {
      case Fixed(k) => NumberReadIsTyped(k, b, p);
      case Text(k) =>
      case Array(e) => ArrayReadIsTyped(t, b, p);
      case Struct(ts) => PartsReadAreTyped(InStruct, ts, b, p);
      case Dict(_, _) => DictReadIsTyped(t, b, p);
      case Variant =>
    }
  }

  lemma NumberReadIsTyped(k: FixedKind, b: seq<byte>, p: nat)
    ensures Dec(Fixed(k), b, p).Ok? ==> Typed(Fixed(k), Dec(Fixed(k), b, p).value)
  {
    hide FromLE;
    if p + Width(k) <= |b| {
      FromLEIsBounded(b[p..p + Width(k)]);
      Pow256Values();
    }
  }

  lemma {:induction false} ArrayReadIsTyped(t: Type, b: seq<byte>, p: nat)
    requires WellFormed(t) && t.Array?
    ensures Dec(t, b, p).Ok? ==> Typed(t, Dec(t, b, p).value)
    decreases t, 1, 0
  {
    hide ReadNumber, PadLen, DecElems, Numbers;
    match ReadNumber(b, p, 4) {
      case Err(_) =>
      case Ok(len, q) =>
        var start := AlignUp(q, AlignmentOf(t.elem));
        if t.elem.Fixed? {
          if start + len <= |b| {
            BlockIsTyped(t.elem.fixed, b[start..start + len]);
          }
        } else {
          ElemsReadAreTyped(t, b, start, 0, len, []);
        }
    }
  }

  lemma {:induction false} ElemsReadAreTyped(t: Type, b: seq<byte>, p: nat, bytesRead: nat, len: nat, acc: seq<Value>)
    requires WellFormed(t) && t.Array? && AllTyped(t.elem, acc)
    ensures DecElems(t, b, p, bytesRead, len, acc).Ok? ==>
              AllTyped(t.elem, DecElems(t, b, p, bytesRead, len, acc).value)
    decreases t, 0, if bytesRead < len then len - bytesRead else 0
  {
    hide Dec, PadLen, AlignmentOf, Typed;
    if bytesRead < len && p < |b| {
      ReadIsTyped(t.elem, b, p);
      match Dec(t.elem, b, p) {
        case Err(_) =>
        case Ok(v, q) =>
          var read := bytesRead + (q - p);
          var gap := Gap(read < len, q, AlignmentOf(t.elem));
          AllTypedPush(t.elem, acc, v);
          ElemsReadAreTyped(t, b, q + gap, read + gap, len, acc + [v]);
      }
    }
  }

  lemma {:induction false} PartsReadAreTyped(layout: Layout, ts: seq<Type>, b: seq<byte>, p: nat)
    requires AllWellFormed(ts)
    ensures DecParts(layout, ts, b, p).Ok? ==> PartsTyped(ts, DecParts(layout, ts, b, p).value)
    decreases ts, 0, 0
  {
    hide Dec, PadLen, PartAlignment, Typed;
    if ts != [] {
      ReadIsTyped(ts[0], b, p);
      match Dec(ts[0], b, p) {
        case Err(_) =>
        case Ok(v, q) =>
          if |ts| == 1 {
            assert [v][1..] == [] && ts[1..] == [];
          } else {
            PartsReadAreTyped(layout, ts[1..], b, q + PartGap(layout, ts, q));
          }
      }
    }
  }

  lemma {:induction false} DictReadIsTyped(t: Type, b: seq<byte>, p: nat)
    requires WellFormed(t) && t.Dict?
    ensures Dec(t, b, p).Ok? ==> Typed(t, Dec(t, b, p).value)
    decreases t, 1, 0
  {
    hide ReadNumber, PadLen, DecEntries, EntriesTyped, DistinctKeys;
    NoEntriesTyped(t.key, t.val);
    match ReadNumber(b, p, 4) {
      case Err(_) =>
      case Ok(len, q) => EntriesReadAreTyped(t, b, AlignUp(q, 8), 0, len, []);
    }
  }

  lemma NoEntriesTyped(k: Type, t: Type)
    ensures EntriesTyped(k, t, []) && DistinctKeys([])
  {
  }

  lemma {:induction false} EntriesReadAreTyped(t: Type, b: seq<byte>, p: nat, bytesRead: nat, len: nat,
                                               acc: seq<Entry>)
    requires WellFormed(t) && t.Dict? && EntriesTyped(t.key, t.val, acc) && DistinctKeys(acc)
    ensures DecEntries(t, b, p, bytesRead, len, acc).Ok? ==>
              (var es := DecEntries(t, b, p, bytesRead, len, acc).value;
               EntriesTyped(t.key, t.val, es) && DistinctKeys(es))
    decreases t, 0, if bytesRead < len then len - bytesRead else 0
  {
    hide DecEntry, PadLen, EntryTyped, EntriesTyped, DistinctKeys, Emplace;
    if bytesRead < len {
      EntryReadIsTyped(t, b, p);
      match DecEntry(t, b, p) {
        case Err(_) =>
        case Ok(e, q) =>
          var read := bytesRead + (q - p);
          var gap := Gap(read < len, q, 8);
          EmplaceKeepsTyped(t.key, t.val, acc, e);
          EntriesReadAreTyped(t, b, q + gap, read + gap, len, Emplace(acc, e.key, e.val));
      }
    }
  }

  lemma {:induction false} EntryReadIsTyped(t: Type, b: seq<byte>, p: nat)
    requires WellFormed(t) && t.Dict?
    ensures DecEntry(t, b, p).Ok? ==> EntryTyped(t.key, t.val, DecEntry(t, b, p).value)
    decreases t, 0, 0
  {
    hide Dec, PadLen, MemberAlignment, Typed;
    ReadIsTyped(t.key, b, p);
    match Dec(t.key, b, p) {
      case Err(_) =>
      case Ok(_, q) => ReadIsTyped(t.val, b, AlignUp(q, MemberAlignment(t.val)));
    }
  }
}
