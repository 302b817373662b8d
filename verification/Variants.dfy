/** Variants from creation to `UnmarshalData`: the payload is cut out of the buffer
    it arrived in and decoded later from position 0. */
module Variants {
  import opened Bytes
  import opened Types
  import opened Signatures
  import opened Encoding
  import opened Decoding
  import opened Walking
  import opened RoundTrip

  const SMALL_BUFFER_SIZE: nat := 32

  // ---------- creation ----------

  /** What a C string shows of a text. */
  function UntilNul(s: Text): Text {
    if s == [] || s[0] == 0 then [] else [s[0]] + UntilNul(s[1..])
  }

  /** A short text is kept in the inline buffer and read back as a C string. */
  function Stored(t: Type, v: Value): Value {
    if t.Text? && v.Txt? && |v.s| <= SMALL_BUFFER_SIZE - 1 then Txt(UntilNul(v.s)) else v
  }

  function Create(t: Type, v: Value): Value {
    Boxed(t, Stored(t, v))
  }

  lemma {:induction false} UntilNulIsWhole(s: Text)
    ensures UntilNul(s) == s <==> 0 !in s
    ensures 0 !in UntilNul(s) && UntilNul(s) <= s
    ensures UntilNul(s) != s ==> |UntilNul(s)| < |s| && s[|UntilNul(s)|] == 0
  {
    if s != [] && s[0] != 0 {
      UntilNulIsWhole(s[1..]);
      assert s == [s[0]] + s[1..];
    }
  }

  /** A text put into a variant is marshalled as it is exactly when it holds no NUL:
      with a NUL, up to 31 bytes are silently cut at it and more are refused. */
  lemma TextSurvivesCreationIffNoNul(k: TextKind, s: Text, p: nat)
    ensures Create(Text(k), Txt(s)) == Boxed(Text(k), Txt(s)) && Accepts(Variant, Create(Text(k), Txt(s)), p)
            <==> 0 !in s
    ensures |s| <= 31 ==> Accepts(Variant, Create(Text(k), Txt(s)), p)
                          && Create(Text(k), Txt(s)) == Boxed(Text(k), Txt(UntilNul(s)))
    ensures |s| > 31 && 0 in s ==> !Accepts(Variant, Create(Text(k), Txt(s)), p)
  {
    hide Sig;
    UntilNulIsWhole(s);
    BoxStep(Text(k), Stored(Text(k), Txt(s)), p);
  }

  /** "a", NUL, "b" put into a variant is "a". */
  lemma ShortTextIsCut()
    ensures Create(Text(String), Txt([97, 0, 98])) == Boxed(Text(String), Txt([97]))
  {
    CutAtNul();
  }

  lemma CutAtNul()
    ensures UntilNul([97, 0, 98]) == [97]
  {
    assert [97, 0, 98][1..] == [0, 98];
    assert UntilNul([0, 98]) == [];
  }

  // ---------- the three storages ----------

  /** A received payload stays in the message's buffer, or is copied to a 32-byte
      inline buffer whose unused bytes are not initialised, or to the heap. */
  datatype Storage = Span(data: seq<byte>) | Inline(buffer: seq<byte>) | Heap(data: seq<byte>) {
    function View(): seq<byte> {
      if Inline? then buffer else data
    }
  }

  /** `rubbish` stands for the uninitialised bytes. */
  function StoreOwned(data: seq<byte>, rubbish: seq<byte>): Storage
    requires |rubbish| == SMALL_BUFFER_SIZE
  {
    if |data| > SMALL_BUFFER_SIZE then Heap(data) else Inline(data + rubbish[|data|..])
  }

  datatype Extraction = Extracted(value: Value) | WrongType | Undecodable(error: DecodeError)

  function UnmarshalData(t: Type, sig: Text, storage: Storage): Extraction
    requires WellFormed(t)
  {
    if Sig(t) != sig then WrongType
    else
      match Dec(t, storage.View(), 0)
      case Ok(v, _) => Extracted(v)
      case Err(e) => Undecodable(e)
  }

  // ---------- the interpreter and the decoder ----------

  /** On a walkable payload the flat interpreter stops where the recursive typed
      decoder stops. */
  lemma InterpreterAgreesWithDecoder(u: Type, w: Value, b: seq<byte>, p: nat)
    requires Sendable(Variant, Boxed(u, w), p) && Sendable(u, w, PayloadStart(u, p))
    requires At(b, p, Enc(Variant, Boxed(u, w), p)) && |b| < TWO_TO_THE_32
    ensures var sig := EncText(Signature, Sig(u));
            var typed := Dec(u, b, PayloadStart(u, p));
            typed.Ok? && Walk(Sig(u), b, p + |sig|) == Ok((), typed.next)
  {
    hide Enc, PadLen, AlignmentOf, EncText, Dec, Walk, At, Zeros, Sig, Received, Typed, FaultOf, WellFormed;
    var sig, start := EncText(Signature, Sig(u)), PayloadStart(u, p);
    BoxStep(u, w, p);
    AtSplit3(b, p, sig, Zeros(start - p - |sig|), Enc(u, w, start));
    BoxedIsWalkable(u, w, p);
    WalkableIsNoDict(u, w);
    WalkSkips(u, w, [], b, p + |sig|);
    assert Sig(u) + [] == Sig(u);
    WalkOfNothing(b, start + |Enc(u, w, start)|);
    DecodesBack(u, w, b, start);
  }

  lemma BoxedIsWalkable(u: Type, w: Value, p: nat)
    requires Sendable(Variant, Boxed(u, w), p)
    ensures WellFormed(u) && Typed(u, w) && Walkable(u, w) && |Sig(u)| < 256
    ensures Accepts(u, w, PayloadStart(u, p))
  {
  }

  // ---------- relocation ----------

  /** Positions whose distance from 0 no padding inside the payload can notice. */
  predicate Relocatable(u: Type, w: Value, start: nat) {
    InStep(start, 0, InnerAlignment(u, w))
  }

  /** The cut-out payload decodes from position 0, whatever bytes stand behind it. */
  lemma PayloadDecodesFromZero(u: Type, w: Value, start: nat, tail: seq<byte>)
    requires Sendable(u, w, start) && Relocatable(u, w, start)
    requires |Enc(u, w, start) + tail| < TWO_TO_THE_32
    ensures Dec(u, Enc(u, w, start) + tail, 0) == Ok(Received(u, w, 0), |Enc(u, w, start)|)
  {
    hide Enc, Dec, Received, FaultOf, InStep, InnerAlignment;
    Relocate(u, w, start, 0, InnerAlignment(u, w));
    assert [] + Enc(u, w, 0) + tail == Enc(u, w, 0) + tail;
    CodecRoundTrip(u, w, [], tail);
  }

  /** The variant's journey: what was boxed comes out again when asked for as the
      type that went in, from every storage, and asking for any other type is refused. */
  lemma VariantRoundTrip(u: Type, w: Value, b: seq<byte>, p: nat, rubbish: seq<byte>, asked: Type)
    requires Sendable(Variant, Boxed(u, w), p) && Readable(u, w) && WellFormed(asked)
    requires At(b, p, Enc(Variant, Boxed(u, w), p)) && |b| + SMALL_BUFFER_SIZE < TWO_TO_THE_32
    requires |rubbish| == SMALL_BUFFER_SIZE
    requires Relocatable(u, w, PayloadStart(u, p))
    ensures var got := Dec(Variant, b, p);
            && got.Ok? && got.value.Slice? && got.next == p + |Enc(Variant, Boxed(u, w), p)|
            && forall storage :: storage == Span(got.value.data) || storage == Heap(got.value.data)
                                 || storage == StoreOwned(got.value.data, rubbish) ==>
                 UnmarshalData(asked, got.value.sig, storage) ==
                 if asked == u then Extracted(Received(u, w, 0)) else WrongType
    ensures VariantFree(u) ==> Received(u, w, 0) == w
  {
    hide Enc, Dec, PadLen, AlignmentOf, EncText, Walk, At, Sig, Received, Typed, FaultOf, WellFormed, Relocatable,
         Readable, DecVariant;
    var start := PayloadStart(u, p);
    VariantArrives(u, w, b, p);
    var data := Enc(u, w, start);
    SigIsInjectiveAndPrefixFree(asked, u);
    if asked == u {
      PayloadDecodesFromZero(u, w, start, []);
      assert data + [] == data;
      if |data| <= SMALL_BUFFER_SIZE {
        PayloadDecodesFromZero(u, w, start, rubbish[|data|..]);
      }
    }
    if VariantFree(u) {
      ReceivedAsSent(u, w, 0);
    }
  }

  lemma VariantArrives(u: Type, w: Value, b: seq<byte>, p: nat)
    requires Sendable(Variant, Boxed(u, w), p)
    requires At(b, p, Enc(Variant, Boxed(u, w), p)) && |b| < TWO_TO_THE_32
    ensures WellFormed(u) && Typed(u, w) && Accepts(u, w, PayloadStart(u, p))
    ensures Dec(Variant, b, p) == Ok(Slice(Sig(u), Enc(u, w, PayloadStart(u, p))), p + |Enc(Variant, Boxed(u, w), p)|)
    ensures |Enc(u, w, PayloadStart(u, p))| <= |b|
  {
    hide Enc, PadLen, AlignmentOf, EncText, Walk, At, Sig, Typed, FaultOf, WellFormed, DecVariant;
    BoxedIsWalkable(u, w, p);
    DecVariantBack(u, w, b, p);
    BoxStep(u, w, p);
    FitsIn(b, p, Enc(Variant, Boxed(u, w), p));
  }

  /** Basic values and structs are always relocatable: a payload starts at a
      multiple of its own alignment, and nothing inside one of these asks for more. */
  lemma BasicsAndStructsRelocate(u: Type, w: Value, p: nat)
    requires Typed(u, w) && (IsBasic(u) || u.Struct?)
    ensures Relocatable(u, w, PayloadStart(u, p))
  {
    hide EncText;
    AlignUpIsAligned(p + |EncText(Signature, Sig(u))|, 8);
  }
}
