/** A received variant's slice is decoded from position 0, although it was written
    elsewhere: exactly when it gives back what was written. */
module VariantSlices {
  import opened Bytes
  import opened Types
  import opened Signatures
  import opened Encoding
  import opened Decoding
  import opened Walking
  import opened RoundTrip
  import opened Variants
  import opened VariantCourses

  // ---------- arrays of eight-byte numbers, not copied ----------

  /** An array starts at a multiple of 4, its 8-byte numbers at a multiple of 8. A
      span payload of such an array comes back exactly when it started at a
      multiple of 8; otherwise decoding it fails. */
  lemma WideArrayComesBackIffAligned(k: FixedKind, vs: seq<Value>, p: nat)
    requires Width(k) == 8 && AllTyped(Fixed(k), vs) && |vs| * 8 < MAX_ARRAY_LENGTH
    ensures var u := Array(Fixed(k));
            var start := PayloadStart(u, p);
            var got := UnmarshalData(u, Sig(u), Span(Enc(u, List(vs), start)));
            && (got == Extracted(List(vs)) <==> start % 8 == 0)
            && (got == Undecodable(Malformed) <==> start % 8 == 4)
  {
    hide Enc, Dec, EncText, Sig, Received, Numbers;
    var u := Array(Fixed(k));
    var start := PayloadStart(u, p);
    var data := Enc(u, List(vs), start);
    AlignUpIsAligned(p + |EncText(Signature, Sig(u))|, 4);
    assert start % 8 == 0 || start % 8 == 4;
    NumbersAreReadable(k, vs);
    WideArrayBytes(k, vs, start);
    if start % 8 == 0 {
      NumbersNeedNothingMore(k, vs);
      PayloadDecodesFromZero(u, List(vs), start, []);
      assert data + [] == data;
      ReceivedAsSent(u, List(vs), 0);
    } else {
      DecShiftedArray(k, |vs|, data);
    }
  }

  lemma WideArrayBytes(k: FixedKind, vs: seq<Value>, start: nat)
    requires Width(k) == 8 && AllTyped(Fixed(k), vs) && Aligned(start, 4)
    ensures var data := Enc(Array(Fixed(k)), List(vs), start);
            && |data| == 4 + (if start % 8 == 0 then 4 else 0) + 8 * |vs|
            && data[..4] == LE(8 * |vs|, 4)
  {
    hide Enc, LE, EncElems, Numbers, Received, Zeros, PadLen, AllTyped;
    var q := AlignUp(start + 4, 8);
    WidePadding(start);
    ArrayStep(Fixed(k), vs, start);
    NumbersOfRawMemory(k, vs, q);
    FrontOf(LE(8 * |vs|, 4), Zeros(q - start - 4), EncElems(Fixed(k), vs, q));
  }

  lemma WidePadding(start: nat)
    requires Aligned(start, 4)
    ensures AlignUp(start + 4, 8) == start + 4 + (if start % 8 == 0 then 4 else 0)
    ensures Aligned(AlignUp(start + 4, 8), 8)
  {
  }

  lemma FrontOf(x: seq<byte>, y: seq<byte>, z: seq<byte>)
    ensures (x + y + z)[..|x|] == x
  {
  }

  lemma DecShiftedArray(k: FixedKind, n: nat, data: seq<byte>)
    requires Width(k) == 8 && 8 * n < MAX_ARRAY_LENGTH && |data| == 4 + 8 * n && data[..4] == LE(8 * n, 4)
    ensures Dec(Array(Fixed(k)), data, 0) == Err(Malformed)
  {
    hide LE, FromLE, Numbers;
    assert data[0..4] == data[..4];
    ReadLengthBack(8 * n, data, 0);
  }

  lemma {:induction false} NumbersNeedNothingMore(k: FixedKind, vs: seq<Value>)
    requires AllTyped(Fixed(k), vs)
    ensures InnerElems(Fixed(k), vs) == 1
  {
    if vs != [] {
      assert Typed(Fixed(k), vs[0]);
      NumbersNeedNothingMore(k, vs[1..]);
    }
  }

  // ---------- the same, copied ----------

  lemma {:induction false} FromLEIsInjective(s: seq<byte>, t: seq<byte>)
    requires |s| == |t| && FromLE(s) == FromLE(t)
    ensures s == t
  {
    if s != [] {
      var x, y := FromLE(s[1..]), FromLE(t[1..]);
      assert s[0] + 256 * x == t[0] + 256 * y;
      FromLEIsInjective(s[1..], t[1..]);
      assert s == [s[0]] + s[1..] && t == [t[0]] + t[1..];
    }
  }

  lemma {:induction false} NumbersAreInjective(s: seq<byte>, t: seq<byte>, n: nat)
    requires |s| == |t| == 8 * n && Numbers(s, 8) == Numbers(t, 8)
    ensures s == t
  {
    if n > 0 {
      hide FromLE;
      var x, y := Numbers(s[8..], 8), Numbers(t[8..], 8);
      assert ([Num(FromLE(s[..8]))] + x)[0] == ([Num(FromLE(t[..8]))] + y)[0];
      assert ([Num(FromLE(s[..8]))] + x)[1..] == x && ([Num(FromLE(t[..8]))] + y)[1..] == y;
      FromLEIsInjective(s[..8], t[..8]);
      NumbersAreInjective(s[8..], t[8..], n - 1);
      assert s == s[..8] + s[8..] && t == t[..8] + t[8..];
    }
  }

  /** Behind a short payload an inline buffer has bytes to read, though not those
      that were written. */
  lemma DecShiftedInline(k: FixedKind, n: nat, view: seq<byte>)
    requires Width(k) == 8 && 8 + 8 * n <= |view| == SMALL_BUFFER_SIZE && view[..4] == LE(8 * n, 4)
    ensures Dec(Array(Fixed(k)), view, 0) == Ok(List(Numbers(view[8..8 + 8 * n], 8)), 8 + 8 * n)
  {
    hide LE, FromLE, Numbers;
    assert view[0..4] == view[..4];
    ReadLengthBack(8 * n, view, 0);
    assert AlignUp(4, 8) == 8;
  }

  function Filled(c: byte): (s: seq<byte>)
    ensures |s| == SMALL_BUFFER_SIZE && forall i :: 0 <= i < |s| ==> s[i] == c
  {
    seq(SMALL_BUFFER_SIZE, _ => c)
  }

  /** A misaligned payload of one to three numbers reads four bytes that nobody wrote,
      so two inline buffers that differ in them cannot both give the array back. */
  lemma RubbishShows(k: FixedKind, vs: seq<Value>, data: seq<byte>)
    requires Width(k) == 8 && 1 <= |vs| <= 3 && |data| == 4 + 8 * |vs| && data[..4] == LE(8 * |vs|, 4)
    ensures exists rubbish: seq<byte> :: |rubbish| == SMALL_BUFFER_SIZE
              && UnmarshalData(Array(Fixed(k)), Sig(Array(Fixed(k))), StoreOwned(data, rubbish)) != Extracted(List(vs))
  {
    hide LE, FromLE, Numbers, Dec, Sig;
    var n := |vs|;
    var zeros, ones := data + Filled(0)[|data|..], data + Filled(1)[|data|..];
    assert zeros[..4] == data[..4] && ones[..4] == data[..4];
    DecShiftedInline(k, n, zeros);
    DecShiftedInline(k, n, ones);
    var s, t := zeros[8..8 + 8 * n], ones[8..8 + 8 * n];
    assert s[8 * n - 4] == zeros[|data|] == 0 && t[8 * n - 4] == ones[|data|] == 1;
    if Numbers(s, 8) == Numbers(t, 8) {
      NumbersAreInjective(s, t, n);
    }
  }

  /** The array comes back from the variant's own copy, whatever the unused bytes of
      an inline buffer are, exactly when it started at a multiple of 8 or is empty. */
  lemma OwnedWideArrayComesBackIff(k: FixedKind, vs: seq<Value>, p: nat)
    requires Width(k) == 8 && AllTyped(Fixed(k), vs) && |vs| * 8 < MAX_ARRAY_LENGTH
    ensures var u := Array(Fixed(k));
            var start := PayloadStart(u, p);
            (forall rubbish: seq<byte> :: |rubbish| == SMALL_BUFFER_SIZE ==>
               UnmarshalData(u, Sig(u), StoreOwned(Enc(u, List(vs), start), rubbish)) == Extracted(List(vs)))
            <==> start % 8 == 0 || vs == []
  {
    hide Enc, Dec, EncText, Sig, Received, Numbers, StoreOwned, UnmarshalData;
    var u := Array(Fixed(k));
    var start := PayloadStart(u, p);
    AlignUpIsAligned(p + |EncText(Signature, Sig(u))|, 4);
    if start % 8 == 0 || vs == [] {
      forall rubbish: seq<byte> | |rubbish| == SMALL_BUFFER_SIZE
        ensures UnmarshalData(u, Sig(u), StoreOwned(Enc(u, List(vs), start), rubbish)) == Extracted(List(vs))
      {
        if start % 8 == 0 {
          AlignedCopyComesBack(k, vs, start, rubbish);
        } else {
          EmptyCopyComesBack(k, start, rubbish);
        }
      }
    } else {
      var rubbish := MisalignedCopyIsSpoilt(k, vs, start);
    }
  }

  lemma AlignedCopyComesBack(k: FixedKind, vs: seq<Value>, start: nat, rubbish: seq<byte>)
    requires Width(k) == 8 && AllTyped(Fixed(k), vs) && |vs| * 8 < MAX_ARRAY_LENGTH
    requires start % 8 == 0 && |rubbish| == SMALL_BUFFER_SIZE
    ensures var u := Array(Fixed(k));
            UnmarshalData(u, Sig(u), StoreOwned(Enc(u, List(vs), start), rubbish)) == Extracted(List(vs))
  {
    hide Enc, Dec, Sig, Received, Numbers;
    var u := Array(Fixed(k));
    var data := Enc(u, List(vs), start);
    NumbersAreReadable(k, vs);
    WideArrayBytes(k, vs, start);
    NumbersNeedNothingMore(k, vs);
    ReceivedAsSent(u, List(vs), 0);
    if |data| <= SMALL_BUFFER_SIZE {
      PayloadDecodesFromZero(u, List(vs), start, rubbish[|data|..]);
    } else {
      PayloadDecodesFromZero(u, List(vs), start, []);
      assert data + [] == data;
    }
  }

  lemma EmptyCopyComesBack(k: FixedKind, start: nat, rubbish: seq<byte>)
    requires Width(k) == 8 && start % 8 == 4 && |rubbish| == SMALL_BUFFER_SIZE
    ensures var u := Array(Fixed(k));
            UnmarshalData(u, Sig(u), StoreOwned(Enc(u, List([]), start), rubbish)) == Extracted(List([]))
  {
    hide Enc, Dec, Sig, LE;
    var data := Enc(Array(Fixed(k)), List([]), start);
    WideArrayBytes(k, [], start);
    var view := data + rubbish[|data|..];
    assert view[..4] == data[..4];
    DecShiftedInline(k, 0, view);
    assert view[8..8] == [];
    NoNumbers(8);
  }

  lemma MisalignedCopyIsSpoilt(k: FixedKind, vs: seq<Value>, start: nat) returns (rubbish: seq<byte>)
    requires Width(k) == 8 && AllTyped(Fixed(k), vs) && |vs| * 8 < MAX_ARRAY_LENGTH && start % 8 == 4 && vs != []
    ensures |rubbish| == SMALL_BUFFER_SIZE
    ensures var u := Array(Fixed(k));
            UnmarshalData(u, Sig(u), StoreOwned(Enc(u, List(vs), start), rubbish)) != Extracted(List(vs))
  {
    hide Enc, Dec, Sig, LE;
    var u := Array(Fixed(k));
    var data := Enc(u, List(vs), start);
    WideArrayBytes(k, vs, start);
    if |vs| <= 3 {
      RubbishShows(k, vs, data);
      rubbish :| |rubbish| == SMALL_BUFFER_SIZE &&
          UnmarshalData(u, Sig(u), StoreOwned(data, rubbish)) != Extracted(List(vs));
    } else {
      rubbish := Filled(0);
      DecShiftedArray(k, |vs|, data);
    }
  }

  // ---------- variants in variants ----------

  lemma {:induction false} ZeroIsZeros(w: nat)
    ensures LE(0, w) == Zeros(w)
  {
    if w > 0 {
      ZeroIsZeros(w - 1);
    }
  }

  lemma OneIsOneThenZeros(w: nat)
    requires w > 0
    ensures LE(1, w) == [1] + Zeros(w - 1)
  {
    ZeroIsZeros(w - 1);
  }

  /** The bytes of an inner variant of a number, at `start`. */
  lemma InnerBytes(k: FixedKind, n: nat, start: nat)
    ensures Enc(Variant, Boxed(Fixed(k), Num(n)), start) ==
            EncText(Signature, [FixedCode(k)]) + Zeros(PadLen(start + 3, Width(k))) + LE(n, Width(k))
    ensures |EncText(Signature, [FixedCode(k)])| == 3
  {
    hide LE, PadLen;
    BoxStep(Fixed(k), Num(n), start);
  }

  /** What the decoder makes of it where it finds it: the slice starts where padding
      from there would have put the number. */
  lemma InnerFound(k: FixedKind, view: seq<byte>, p: nat)
    requires At(view, p, EncText(Signature, [FixedCode(k)])) && |view| < TWO_TO_THE_32
    ensures var from := AlignUp(p + 3, Width(k));
            Dec(Variant, view, p) ==
            if from + Width(k) > |view| then Err(Malformed)
            else Ok(Slice([FixedCode(k)], view[from..from + Width(k)]), from + Width(k))
  {
    hide EncText, ReadText, Walk, PadLen, At;
    ReadTextBack(Signature, [FixedCode(k)], view, p);
    ThreeBytes(k);
    AlignmentTablesAgree(Fixed(k));
    assert [FixedCode(k)] + [] == [FixedCode(k)];
    WalkFixed(k, [], view, p + 3);
    WalkOfNothing(view, AlignUp(p + 3, Width(k)) + Width(k));
  }

  lemma ThreeBytes(k: FixedKind)
    ensures |EncText(Signature, [FixedCode(k)])| == 3
  {
  }

  /** The outer or the inner variant either refers to the bytes or copies them. */
  function Keep(data: seq<byte>, owned: bool, rubbish: seq<byte>): Storage
    requires |rubbish| == SMALL_BUFFER_SIZE
  {
    if owned then StoreOwned(data, rubbish) else Span(data)
  }

  /** The number read through two variants. */
  function NestedNumber(k: FixedKind, outer: Storage, owned: bool, rubbish: seq<byte>): Extraction
    requires |rubbish| == SMALL_BUFFER_SIZE
  {
    match UnmarshalData(Variant, Sig(Variant), outer)
    case Extracted(Slice(sig, data)) => UnmarshalData(Fixed(k), sig, Keep(data, owned, rubbish))
    case other => other
  }

  function AsRead(k: FixedKind, n: nat): nat {
    if k.Bool? then (if n == 1 then 1 else 0) else n
  }

  lemma NumberFromSlice(k: FixedKind, data: seq<byte>, owned: bool, rubbish: seq<byte>)
    requires |data| == Width(k) && |rubbish| == SMALL_BUFFER_SIZE
    ensures UnmarshalData(Fixed(k), [FixedCode(k)], Keep(data, owned, rubbish)) ==
            Extracted(Num(AsRead(k, FromLE(data))))
  {
    hide FromLE;
    var view := Keep(data, owned, rubbish).View();
    assert view[0..0 + Width(k)] == data;
  }

  lemma NestedReads(k: FixedKind, outer: Storage, owned: bool, rubbish: seq<byte>)
    requires At(outer.View(), 0, EncText(Signature, [FixedCode(k)])) && |outer.View()| < TWO_TO_THE_32
    requires |rubbish| == SMALL_BUFFER_SIZE
    ensures var from, view := AlignUp(3, Width(k)), outer.View();
            NestedNumber(k, outer, owned, rubbish) ==
            if from + Width(k) > |view| then Undecodable(Malformed)
            else Extracted(Num(AsRead(k, FromLE(view[from..from + Width(k)]))))
  {
    hide EncText, Dec, PadLen, At, FromLE, Keep;
    var from, view := AlignUp(3, Width(k)), outer.View();
    InnerFound(k, view, 0);
    if from + Width(k) <= |view| {
      NumberFromSlice(k, view[from..from + Width(k)], owned, rubbish);
    }
  }

  lemma PaddingsAgreeIffAligned(start: nat, a: Alignment)
    ensures PadLen(start + 3, a) == PadLen(3, a) <==> start % a == 0
  {
    Wrap(start, 3);
    Mod4(start);
    Mod2(start);
  }

  predicate NestedComesBack(k: FixedKind, n: nat, start: nat, outerOwned: bool, innerOwned: bool, rubbish: seq<byte>)
    requires |rubbish| == SMALL_BUFFER_SIZE
  {
    NestedNumber(k, Keep(Enc(Variant, Boxed(Fixed(k), Num(n)), start), outerOwned, rubbish), innerOwned, rubbish)
    == Extracted(Num(n))
  }

  lemma KeptBytes(data: seq<byte>, owned: bool, rubbish: seq<byte>, s: seq<byte>)
    requires |rubbish| == SMALL_BUFFER_SIZE && s <= data
    ensures At(Keep(data, owned, rubbish).View(), 0, s)
    ensures data <= Keep(data, owned, rubbish).View()
    ensures |Keep(data, owned, rubbish).View()| <= |data| + SMALL_BUFFER_SIZE
  {
  }

  lemma AlignedNumberComesBack(k: FixedKind, n: nat, start: nat, outerOwned: bool, innerOwned: bool, rubbish: seq<byte>)
    requires |rubbish| == SMALL_BUFFER_SIZE && Typed(Fixed(k), Num(n)) && start % Width(k) == 0
    ensures NestedComesBack(k, n, start, outerOwned, innerOwned, rubbish)
  {
    hide EncText, Enc, PadLen, At, FromLE, LE, Keep, NestedNumber, Pow256;
    var data := Enc(Variant, Boxed(Fixed(k), Num(n)), start);
    var sig := EncText(Signature, [FixedCode(k)]);
    InnerBytes(k, n, start);
    PaddingsAgreeIffAligned(start, Width(k));
    KeptBytes(data, outerOwned, rubbish, sig);
    NestedReads(k, Keep(data, outerOwned, rubbish), innerOwned, rubbish);
    var view, from := Keep(data, outerOwned, rubbish).View(), AlignUp(3, Width(k));
    NumberThere(sig, PadLen(3, Width(k)), LE(n, Width(k)), view);
    FromLEOfLE(n, Width(k));
  }

  lemma NumberThere(sig: seq<byte>, pad: nat, number: seq<byte>, view: seq<byte>)
    requires sig + Zeros(pad) + number <= view && |sig| == 3
    ensures 3 + pad + |number| <= |view| && view[3 + pad..3 + pad + |number|] == number
  {
    var data := sig + Zeros(pad) + number;
    assert view[..|data|] == data;
    assert view[3 + pad..3 + pad + |number|] == data[3 + pad..];
  }

  lemma MisalignedOneIsLost(k: FixedKind, start: nat, outerOwned: bool, innerOwned: bool, rubbish: seq<byte>)
    requires |rubbish| == SMALL_BUFFER_SIZE && start % Width(k) != 0
    ensures !NestedComesBack(k, 1, start, outerOwned, innerOwned, rubbish)
  {
    hide EncText, Enc, PadLen, At, FromLE, LE, Keep, NestedNumber;
    var data := Enc(Variant, Boxed(Fixed(k), Num(1)), start);
    var sig, w := EncText(Signature, [FixedCode(k)]), Width(k);
    InnerBytes(k, 1, start);
    OneIsOneThenZeros(w);
    PaddingsAgreeIffAligned(start, w);
    KeptBytes(data, outerOwned, rubbish, sig);
    NestedReads(k, Keep(data, outerOwned, rubbish), innerOwned, rubbish);
    var view, from := Keep(data, outerOwned, rubbish).View(), AlignUp(3, w);
    if from + w <= |view| {
      ZeroThere(sig, PadLen(start + 3, w), w, data, from);
      assert view[from] == data[from];
      StartsWithZero(view[from..from + w]);
    }
  }

  lemma ZeroThere(sig: seq<byte>, pad: nat, w: nat, data: seq<byte>, from: nat)
    requires w >= 1 && data == sig + Zeros(pad) + ([1] + Zeros(w - 1)) && |sig| == 3
    requires 3 <= from < 3 + w && pad < w && from != 3 + pad
    ensures from < |data| && data[from] == 0
  {
    if from < 3 + pad {
      assert data[from] == Zeros(pad)[from - 3];
    } else {
      assert data[from] == Zeros(w - 1)[from - 3 - pad - 1];
    }
  }

  lemma StartsWithZero(s: seq<byte>)
    requires s != [] && s[0] == 0
    ensures FromLE(s) != 1
  {
    assert FromLE(s) == 256 * FromLE(s[1..]);
  }

  /** A variant in a variant: every number of `w` bytes read through both is the
      number that was written exactly when the outer payload started at a multiple
      of `w`, whichever of the two copies. Otherwise 1, for one, is not. */
  lemma NestedNumbersComeBackIffAligned(k: FixedKind, p: nat, outerOwned: bool, innerOwned: bool, rubbish: seq<byte>)
    requires |rubbish| == SMALL_BUFFER_SIZE
    ensures (forall n: nat :: Typed(Fixed(k), Num(n)) ==>
               NestedComesBack(k, n, PayloadStart(Variant, p), outerOwned, innerOwned, rubbish))
            <==> PayloadStart(Variant, p) % Width(k) == 0
  {
    hide NestedComesBack, Pow256;
    var start := PayloadStart(Variant, p);
    if start % Width(k) == 0 {
      forall n: nat | Typed(Fixed(k), Num(n)) ensures NestedComesBack(k, n, start, outerOwned, innerOwned, rubbish) {
        AlignedNumberComesBack(k, n, start, outerOwned, innerOwned, rubbish);
      }
    } else {
      OneIsTyped(k);
      MisalignedOneIsLost(k, start, outerOwned, innerOwned, rubbish);
    }
  }

  lemma OneIsTyped(k: FixedKind)
    ensures Typed(Fixed(k), Num(1))
  {
    Pow256Values();
  }

  // ---------- every payload type ----------

  /** Payload types whose own alignment is below the one that may be asked for inside. */
  predicate NeedsEight(u: Type) {
    u.Variant? || (u.Array? && (u.elem.Variant? || (u.elem.Fixed? && Width(u.elem.fixed) == 8)))
  }

  predicate SliceFits(u: Type, w: Value, start: nat) {
    Sendable(u, w, start) && |Enc(u, w, start)| + SMALL_BUFFER_SIZE < TWO_TO_THE_32
  }

  predicate SliceGivesBack(u: Type, w: Value, start: nat, owned: bool, rubbish: seq<byte>)
    requires WellFormed(u) && |rubbish| == SMALL_BUFFER_SIZE
  {
    UnmarshalData(u, Sig(u), Keep(Enc(u, w, start), owned, rubbish)) == Extracted(Received(u, w, 0))
  }

  lemma RelocatableComesBack(u: Type, w: Value, start: nat, owned: bool, rubbish: seq<byte>)
    requires SliceFits(u, w, start) && Relocatable(u, w, start) && |rubbish| == SMALL_BUFFER_SIZE
    ensures SliceGivesBack(u, w, start, owned, rubbish)
  {
    hide Enc, Dec, Sig, Received, Sendable, Relocatable;
    var data := Enc(u, w, start);
    if owned && |data| <= SMALL_BUFFER_SIZE {
      PayloadDecodesFromZero(u, w, start, rubbish[|data|..]);
    } else {
      PayloadDecodesFromZero(u, w, start, []);
      assert data + [] == data;
    }
  }

  lemma {:induction false} SingleCodesNeedLittle(e: Type, vs: seq<Value>)
    requires IsBasic(e) && AllTyped(e, vs)
    ensures InnerElems(e, vs) == 1
  {
    if vs != [] {
      assert Typed(e, vs[0]);
      SingleCodesNeedLittle(e, vs[1..]);
    }
  }

  lemma PayloadIsRelocatable(u: Type, w: Value, start: nat)
    requires IsPayload(u) && Typed(u, w) && Aligned(start, AlignmentOf(u)) && (NeedsEight(u) ==> start % 8 == 0)
    ensures Relocatable(u, w, start)
  {
    hide Typed, AllTyped;
    if start % 8 != 0 {
      BelowEight(u, w);
    }
  }

  lemma BelowEight(u: Type, w: Value)
    requires IsPayload(u) && Typed(u, w) && !NeedsEight(u)
    ensures IsBasic(u) ==> InnerAlignment(u, w) == 1
    ensures u.Array? ==> InnerAlignment(u, w) <= 4
  {
    if u.Array? {
      SingleCodesNeedLittle(u.elem, w.elems);
    }
  }

  /** The decoded elements begin with those already decoded. */
  lemma {:induction false} DecElemsExtends(t: Type, b: seq<byte>, p: nat, bytesRead: nat, len: nat, acc: seq<Value>)
    requires t.Array? && WellFormed(t)
    ensures var r := DecElems(t, b, p, bytesRead, len, acc); r.Ok? ==> acc <= r.value
    decreases if bytesRead < len then len - bytesRead else 0
  {
    hide Dec, PadLen;
    if bytesRead < len && p < |b| {
      match Dec(t.elem, b, p) {
        case Err(_) =>
        case Ok(v, q) =>
          var read := bytesRead + (q - p);
          var gap := Gap(read < len, q, AlignmentOf(t.elem));
          DecElemsExtends(t, b, q + gap, read + gap, len, acc + [v]);
      }
    }
  }

  const ONE: Value := Boxed(Fixed(Int64), Num(1))

  lemma OneReceived()
    ensures Received(Variant, ONE, 0) == Slice([FixedCode(Int64)], LE(1, 8)) && LE(1, 8)[0] == 1
    ensures Received(Variant, ONE, 4) == Slice([FixedCode(Int64)], LE(1, 8))
  {
    OneIsOneThenZeros(8);
  }

  lemma OneFits(start: nat)
    ensures SliceFits(Variant, ONE, start)
    ensures |Enc(Variant, ONE, start)| < 20
  {
    hide LE, EncText, PadLen;
    OneIsTyped(Int64);
    InnerBytes(Int64, 1, start);
    BoxStep(Fixed(Int64), Num(1), start);
  }

  lemma VariantIsLost(start: nat, owned: bool, rubbish: seq<byte>)
    requires start % 8 != 0 && |rubbish| == SMALL_BUFFER_SIZE
    ensures !SliceGivesBack(Variant, ONE, start, owned, rubbish)
  {
    hide EncText, Enc, At, LE, Keep, Received, Dec, Sig;
    var view := Keep(Enc(Variant, ONE, start), owned, rubbish).View();
    OneReceived();
    OneIsMisread(Int64, start, view) by {
      KeptBytes(Enc(Variant, ONE, start), owned, rubbish, []);
      OneFits(start);
    }
  }

  /** From 0, or from 4, an eight-byte number is looked for at 8. */
  lemma WideInnerFound(k: FixedKind, view: seq<byte>, p: nat)
    requires Width(k) == 8 && (p == 0 || p == 4)
    requires At(view, p, EncText(Signature, [FixedCode(k)])) && |view| < TWO_TO_THE_32
    ensures Dec(Variant, view, p) == if 16 > |view| then Err(Malformed) else Ok(Slice([FixedCode(k)], view[8..16]), 16)
  {
    hide EncText, Dec, At;
    InnerFound(k, view, p);
    assert AlignUp(p + 3, Width(k)) == 8;
  }

  /** Its number is read as something that begins with a zero byte, if at all. */
  lemma OneIsMisread(k: FixedKind, start: nat, view: seq<byte>)
    requires Width(k) == 8 && start % 8 != 0 && |view| < TWO_TO_THE_32
    requires Enc(Variant, Boxed(Fixed(k), Num(1)), start) <= view
    ensures var r := Dec(Variant, view, 0); r.Ok? ==> r.value.Slice? && r.value.data != [] && r.value.data[0] == 0
  {
    hide EncText, Enc, PadLen, At, LE, Dec, Zeros, AlignUp;
    InnerBytes(k, 1, start);
    OneIsOneThenZeros(8);
    PaddingsAgreeIffAligned(start, 8);
    FiveToEight();
    ZeroInView(EncText(Signature, [FixedCode(k)]), PadLen(start + 3, 8), view);
    WideInnerFound(k, view, 0);
  }

  lemma ZeroInView(sig: seq<byte>, pad: nat, view: seq<byte>)
    requires |sig| == 3 && pad < 8 && pad != 5 && sig + Zeros(pad) + ([1] + Zeros(7)) <= view
    ensures At(view, 0, sig) && |view| > 8 && view[8] == 0
  {
    hide Zeros;
    var data := sig + Zeros(pad) + ([1] + Zeros(7));
    ZeroThere(sig, pad, 8, data, 8);
    PrefixAt(data, view, 8);
    assert data[..3] == sig;
    assert view[0..3] == view[..3] == data[..3];
  }

  lemma PrefixAt(s: seq<byte>, t: seq<byte>, i: nat)
    requires s <= t && i < |s|
    ensures t[i] == s[i]
  {
  }

  lemma FiveToEight()
    ensures PadLen(3, 8) == 5 && AlignUp(7, 8) == 8
  {
  }

  /** The bytes of an array of that one variant, halfway between multiples of 8. */
  lemma ArrayOfOneBytes(start: nat)
    requires start % 8 == 4
    ensures Enc(Array(Variant), List([ONE]), start) ==
            LE(16, 4) + (EncText(Signature, [FixedCode(Int64)]) + Zeros(5) + LE(1, 8))
    ensures FaultOf(Array(Variant), List([ONE]), start) == FaultOf(Variant, ONE, start + 4)
  {
    hide Enc, LE, EncText, FaultOf, EncElems, FaultOfElems, Sig;
    var vs := [ONE];
    var body := Enc(Variant, ONE, start + 4);
    ArrayStep(Variant, vs, start);
    assert AlignUp(start + 4, AlignmentOf(Variant)) == start + 4;
    ElemsStep(Variant, vs, start + 4);
    assert vs[1..] == [];
    NoElems(Variant, NextElem(Variant, vs, start + 4));
    InnerBytes(Int64, 1, start + 4);
    assert PadLen(start + 4 + 3, 8) == 5 && Width(Int64) == 8;
    assert NextElem(Variant, vs, start + 4) == start + 4 + |body|;
    assert EncElems(Variant, vs, start + 4) == body by { assert body + Zeros(0) + [] == body; }
    assert LE(16, 4) + Zeros(0) == LE(16, 4);
  }

  lemma ArrayOfOneFits(start: nat)
    requires start % 8 == 4
    ensures SliceFits(Array(Variant), List([ONE]), start)
    ensures |Enc(Array(Variant), List([ONE]), start)| == 20
  {
    hide Enc, LE, EncText, FaultOf;
    ArrayOfOneBytes(start);
    OneFits(start + 4);
    var vs := [ONE];
    assert vs[1..] == [] && vs[0] == ONE && SliceFits(Variant, ONE, start + 4);
    assert Readable(Variant, ONE);
    assert AllTyped(Variant, vs);
    assert ElemsReadable(Variant, vs[1..]);
    assert ElemsReadable(Variant, vs);
    ThreeBytes(Int64);
  }

  lemma ArrayOfVariantsIsLost(start: nat, owned: bool, rubbish: seq<byte>)
    requires start % 8 == 4 && |rubbish| == SMALL_BUFFER_SIZE
    ensures !SliceGivesBack(Array(Variant), List([ONE]), start, owned, rubbish)
  {
    hide EncText, Enc, PadLen, At, LE, Keep, Received, DecVariant, DecElems, ReceivedElems, ReadNumber, Zeros;
    var t, data := Array(Variant), Enc(Array(Variant), List([ONE]), start);
    var sig, view := EncText(Signature, [FixedCode(Int64)]), Keep(data, owned, rubbish).View();
    ArrayOfOneBytes(start);
    KeptBytes(data, owned, rubbish, data);
    ThreeBytes(Int64);
    AtSplit(view, 0, LE(16, 4), sig + Zeros(5) + LE(1, 8));
    AtSplit3(view, 4, sig, Zeros(5), LE(1, 8));
    ReadLengthBack(16, view, 0);
    WideInnerFound(Int64, view, 4);
    FirstOf(view);
    ZeroAtEight(view);
    FirstReceived();
  }

  lemma ZeroAtEight(view: seq<byte>)
    requires At(view, 7, Zeros(5))
    ensures |view| > 8 && view[8] == 0
  {
    assert view[7..12] == Zeros(5);
    assert view[8] == view[7..12][1];
  }

  lemma FirstReceived()
    ensures var r := Received(Array(Variant), List([ONE]), 0);
            r.List? && |r.elems| == 1 && r.elems[0] == Slice([FixedCode(Int64)], LE(1, 8)) && LE(1, 8)[0] == 1
  {
    hide LE, Received;
    OneReceived();
    var vs := [ONE];
    assert AlignUp(4, AlignmentOf(Variant)) == 4;
    assert vs[1..] == [];
    ArrayReceived(vs);
  }

  lemma ArrayReceived(vs: seq<Value>)
    requires vs == [ONE]
    ensures Received(Array(Variant), List(vs), 0) == List([Received(Variant, ONE, 4)])
  {
    hide NextElem;
    assert AlignUp(4, AlignmentOf(Variant)) == 4;
    var rest := ReceivedElems(Variant, vs[1..], NextElem(Variant, vs, 4));
    assert vs[1..] == [] && rest == [];
    assert ReceivedElems(Variant, vs, 4) == [Received(Variant, vs[0], 4)] + rest;
  }

  /** If the array is decoded at all, its first element is what was found at 4. */
  lemma FirstOf(view: seq<byte>)
    requires ReadNumber(view, 0, 4) == Ok(16, 4) && |view| > 4
    ensures var r, first := Dec(Array(Variant), view, 0), Dec(Variant, view, 4);
            r.Ok? ==> first.Ok? && r.value.List? && |r.value.elems| >= 1 && r.value.elems[0] == first.value
  {
    hide ReadNumber, DecVariant;
    var t := Array(Variant);
    assert AlignUp(4, AlignmentOf(Variant)) == 4;
    match Dec(Variant, view, 4) {
      case Err(_) =>
      case Ok(v, q) =>
        var read := q - 4;
        var gap := Gap(read < 16, q, 1);
        DecElemsExtends(t, view, q + gap, read + gap, 16, [] + [v]);
    }
  }

  // ---------- the whole way ----------

  /** What a reader that asks for `u` extracts from the variant at `p`. */
  function Extract(u: Type, b: seq<byte>, p: nat, owned: bool, rubbish: seq<byte>): Extraction
    requires WellFormed(u) && |rubbish| == SMALL_BUFFER_SIZE
  {
    match Dec(Variant, b, p)
    case Ok(Slice(sig, data), _) => UnmarshalData(u, sig, Keep(data, owned, rubbish))
    case Ok(_, _) => WrongType
    case Err(e) => Undecodable(e)
  }

  /** A value the marshaller accepts in a variant behind `pre`, within the reader's limits. */
  predicate IsSendable(u: Type, w: Value, pre: seq<byte>, post: seq<byte>) {
    && WellFormed(u) && Typed(u, w) && Readable(u, w) && |Sig(u)| < 256
    && Accepts(Variant, Boxed(u, w), |pre|)
    && |pre + Enc(Variant, Boxed(u, w), |pre|) + post| + SMALL_BUFFER_SIZE < TWO_TO_THE_32
  }

  predicate ComesBack(u: Type, w: Value, pre: seq<byte>, post: seq<byte>, owned: bool, rubbish: seq<byte>)
    requires WellFormed(u) && |rubbish| == SMALL_BUFFER_SIZE
  {
    Extract(u, pre + Enc(Variant, Boxed(u, w), |pre|) + post, |pre|, owned, rubbish) == Extracted(Received(u, w, 0))
  }

  /** For a payload type, the reader cuts out exactly the bytes of the payload. */
  lemma SliceIsCut(u: Type, w: Value, pre: seq<byte>, post: seq<byte>, owned: bool, rubbish: seq<byte>)
    requires IsPayload(u) && IsSendable(u, w, pre, post) && |rubbish| == SMALL_BUFFER_SIZE
    ensures SliceFits(u, w, PayloadStart(u, |pre|))
    ensures ComesBack(u, w, pre, post, owned, rubbish) <==> SliceGivesBack(u, w, PayloadStart(u, |pre|), owned, rubbish)
  {
    hide Enc, Dec, Sig, Received, PayloadStart, At, FaultOf, Keep, UnmarshalData, Typed, Readable;
    var enc := Enc(Variant, Boxed(u, w), |pre|);
    var b := pre + enc + post;
    PayloadIsWalkable(u, w);
    BoxedIsSendable(u, w, |pre|);
    AtInContext(pre, enc, post);
    VariantArrives(u, w, b, |pre|);
  }

  lemma BoxedIsSendable(u: Type, w: Value, p: nat)
    requires WellFormed(u) && Typed(u, w) && Walkable(u, w) && |Sig(u)| < 256 && Accepts(Variant, Boxed(u, w), p)
    ensures Sendable(Variant, Boxed(u, w), p)
  {
    hide Enc, Sig, PayloadStart;
  }

  lemma SendableInVariant(u: Type, w: Value, pre: seq<byte>, post: seq<byte>)
    requires SliceFits(u, w, PayloadStart(u, |pre|)) && |Enc(u, w, PayloadStart(u, |pre|))| <= 40 && |Sig(u)| <= 2
    requires |pre| + |post| + 100 < TWO_TO_THE_32
    ensures IsSendable(u, w, pre, post)
  {
    hide Enc, FaultOf, Sig, PadLen, Typed, Readable, LE;
    BoxStep(u, w, |pre|);
  }

  /** Of every payload type the interpreter is made for, and behind any bytes: all its
      values come back, from a reader that copies the payload and from one that does
      not, exactly when the payload starts at a multiple of 8, if it is a variant, an
      array of variants or an array of 8-byte numbers; and always, if it is anything else. */
  lemma EveryValueComesBackIff(u: Type, pre: seq<byte>, post: seq<byte>, owned: bool)
    requires IsPayload(u) && WellFormed(u) && |pre| + |post| + 100 < TWO_TO_THE_32
    ensures (forall w: Value, rubbish: seq<byte> :: IsSendable(u, w, pre, post) && |rubbish| == SMALL_BUFFER_SIZE ==>
               ComesBack(u, w, pre, post, owned, rubbish))
            <==> (NeedsEight(u) ==> PayloadStart(u, |pre|) % 8 == 0)
  {
    hide ComesBack, SliceGivesBack, IsSendable, SliceFits, EncText;
    var start := PayloadStart(u, |pre|);
    AlignUpIsAligned(|pre| + |EncText(Signature, Sig(u))|, AlignmentOf(u));
    hide PayloadStart;
    if NeedsEight(u) ==> start % 8 == 0 {
      forall w: Value, rubbish: seq<byte> | IsSendable(u, w, pre, post) && |rubbish| == SMALL_BUFFER_SIZE
        ensures ComesBack(u, w, pre, post, owned, rubbish)
      {
        SliceIsCut(u, w, pre, post, owned, rubbish);
        FittingIsTyped(u, w, start);
        PayloadIsRelocatable(u, w, start);
        RelocatableComesBack(u, w, start, owned, rubbish);
      }
    } else {
      var w, rubbish := SomethingIsLost(u, |pre|, owned);
      ShortSignatures(u);
      SendableInVariant(u, w, pre, post);
      SliceIsCut(u, w, pre, post, owned, rubbish);
    }
  }

  lemma ShortSignatures(u: Type)
    requires IsPayload(u) && NeedsEight(u)
    ensures |Sig(u)| <= 2
  {
  }

  lemma FittingIsTyped(u: Type, w: Value, start: nat)
    requires SliceFits(u, w, start)
    ensures Typed(u, w)
  {
  }

  lemma SomethingIsLost(u: Type, p: nat, owned: bool) returns (w: Value, rubbish: seq<byte>)
    requires IsPayload(u) && NeedsEight(u) && PayloadStart(u, p) % 8 != 0
    ensures SliceFits(u, w, PayloadStart(u, p)) && |rubbish| == SMALL_BUFFER_SIZE
    ensures |Enc(u, w, PayloadStart(u, p))| <= 40
    ensures !SliceGivesBack(u, w, PayloadStart(u, p), owned, rubbish)
  {
    hide SliceGivesBack, SliceFits, EncText, Enc;
    var start := PayloadStart(u, p);
    AlignUpIsAligned(p + |EncText(Signature, Sig(u))|, AlignmentOf(u));
    rubbish := Filled(0);
    if u.Variant? {
      w := ONE;
      OneFits(start);
      VariantIsLost(start, owned, rubbish);
    } else if u.elem.Variant? {
      w := List([ONE]);
      ArrayOfOneFits(start);
      ArrayOfVariantsIsLost(start, owned, rubbish);
    } else {
      w, rubbish := WideIsLost(u.elem.fixed, p, owned);
    }
  }

  lemma WideIsLost(k: FixedKind, p: nat, owned: bool) returns (w: Value, rubbish: seq<byte>)
    requires Width(k) == 8 && PayloadStart(Array(Fixed(k)), p) % 8 != 0
    ensures var u := Array(Fixed(k));
            SliceFits(u, w, PayloadStart(u, p)) && |rubbish| == SMALL_BUFFER_SIZE
            && |Enc(u, w, PayloadStart(u, p))| <= 40
            && !SliceGivesBack(u, w, PayloadStart(u, p), owned, rubbish)
  {
    hide Enc, UnmarshalData, PayloadStart, Keep, StoreOwned, Received;
    var u, vs := Array(Fixed(k)), [Num(1)];
    var start := PayloadStart(u, p);
    w := List(vs);
    OneIsTyped(k);
    assert vs[1..] == [] && Typed(Fixed(k), vs[0]) && AllTyped(Fixed(k), vs);
    NumbersAreReadable(k, vs);
    ReceivedAsSent(u, w, 0);
    WideStartsAtFours(k, p);
    WideArrayBytes(k, vs, start);
    WideArrayComesBackIffAligned(k, vs, p);
    if owned {
      rubbish := MisalignedCopyIsSpoilt(k, vs, start);
    } else {
      rubbish := Filled(0);
    }
    KeepIs(Enc(u, w, start), owned, rubbish);
  }

  lemma WideStartsAtFours(k: FixedKind, p: nat)
    ensures Aligned(PayloadStart(Array(Fixed(k)), p), 4)
    ensures PayloadStart(Array(Fixed(k)), p) % 8 == 0 || PayloadStart(Array(Fixed(k)), p) % 8 == 4
  {
    hide EncText;
    AlignUpIsAligned(p + |EncText(Signature, Sig(Array(Fixed(k))))|, 4);
  }

  lemma KeepIs(data: seq<byte>, owned: bool, rubbish: seq<byte>)
    requires |rubbish| == SMALL_BUFFER_SIZE
    ensures Keep(data, owned, rubbish) == if owned then StoreOwned(data, rubbish) else Span(data)
  {
  }

  // ---------- concrete inputs ----------

  lemma WideStart()
    ensures PayloadStart(Array(Fixed(Int64)), 0) == 4
  {
    assert |Sig(Array(Fixed(Int64)))| == 2;
  }

  /** A variant of an array of one 64-bit number at position 0 of a buffer: its
      payload starts at 4 and is lost. */
  lemma ShortWideArrayIsLost(n: nat)
    requires n < Pow256(8)
    ensures var u := Array(Fixed(Int64));
            UnmarshalData(u, Sig(u), Span(Enc(u, List([Num(n)]), PayloadStart(u, 0)))) == Undecodable(Malformed)
  {
    hide Enc, UnmarshalData, Pow256, PayloadStart;
    var vs := [Num(n)];
    assert vs[1..] == [] && Typed(Fixed(Int64), vs[0]);
    WideStart();
    WideArrayComesBackIffAligned(Int64, vs, 0);
  }

  /** The empty one is lost too when it is not copied, and comes back when it is. */
  lemma EmptyWideArrayDependsOnStorage(rubbish: seq<byte>)
    requires |rubbish| == SMALL_BUFFER_SIZE
    ensures var u := Array(Fixed(Int64));
            var data := Enc(u, List([]), PayloadStart(u, 0));
            && UnmarshalData(u, Sig(u), Span(data)) == Undecodable(Malformed)
            && UnmarshalData(u, Sig(u), StoreOwned(data, rubbish)) == Extracted(List([]))
  {
    hide Enc, UnmarshalData, PayloadStart;
    WideStart();
    WideArrayComesBackIffAligned(Int64, [], 0);
    EmptyCopyComesBack(Int64, 4, rubbish);
  }

  /** A variant of a variant of a number, at position 0, arrives as an inner variant written at 3. */
  lemma NestedArrives(k: FixedKind, n: nat)
    requires Typed(Fixed(k), Num(n))
    ensures PayloadStart(Variant, 0) == 3
    ensures var whole := Enc(Variant, Boxed(Variant, Boxed(Fixed(k), Num(n))), 0);
            Dec(Variant, whole, 0) == Ok(Slice(Sig(Variant), Enc(Variant, Boxed(Fixed(k), Num(n)), 3)), |whole|)
  {
    hide EncText, Enc, At, LE, DecVariant, Sig, Pow256, PadLen, Typed, Walkable, PayloadStart;
    var w := Boxed(Fixed(k), Num(n));
    var whole := Enc(Variant, Boxed(Variant, w), 0);
    VariantSig();
    NumberInVariant(k, n);
    NestedIsShort(k, n);
    FrontStands(whole, whole);
    DecVariantBack(Variant, w, whole, 0);
  }

  lemma NumberInVariant(k: FixedKind, n: nat)
    requires Typed(Fixed(k), Num(n))
    ensures Typed(Variant, Boxed(Fixed(k), Num(n))) && Walkable(Variant, Boxed(Fixed(k), Num(n)))
  {
    hide Pow256;
  }

  lemma NestedIsShort(k: FixedKind, n: nat)
    ensures |Enc(Variant, Boxed(Variant, Boxed(Fixed(k), Num(n))), 0)| < 100
  {
    hide EncText, Enc, LE, Sig, PadLen;
    InnerBytes(k, n, 3);
    VariantSig();
    BoxStep(Variant, Boxed(Fixed(k), Num(n)), 0);
  }

  /** There the 32-bit number 1 reads as 256. */
  lemma NestedOneReadsAs256(inner: seq<byte>, owned: bool, rubbish: seq<byte>)
    requires inner == Enc(Variant, Boxed(Fixed(Int32), Num(1)), 3) && |rubbish| == SMALL_BUFFER_SIZE
    ensures NestedNumber(Int32, Span(inner), owned, rubbish) == Extracted(Num(256))
  {
    hide EncText, Enc, At, FromLE, LE, NestedNumber;
    InnerBytes(Int32, 1, 3);
    OneIsOneThenZeros(4);
    FrontStands(inner, EncText(Signature, [FixedCode(Int32)]));
    NestedReads(Int32, Span(inner), owned, rubbish);
    assert inner[4..8] == [0, 1, 0, 0];
    SecondByte();
  }

  lemma FrontStands(b: seq<byte>, s: seq<byte>)
    requires s <= b
    ensures At(b, 0, s)
  {
  }

  lemma VariantSig()
    ensures Sig(Variant) == [VARIANT] && |EncText(Signature, Sig(Variant))| == 3 && PayloadStart(Variant, 0) == 3
  {
  }

  lemma SecondByte()
    ensures FromLE([0, 1, 0, 0]) == 256
  {
    assert [0, 1, 0, 0][1..] == [1, 0, 0];
    assert [1, 0, 0][1..] == [0, 0];
    assert [0, 0][1..] == [0];
  }
}
