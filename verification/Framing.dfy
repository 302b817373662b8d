/** The read loop: a byte stream is cut into messages by the lengths their first
    sixteen bytes announce. */
module Framing {
  import opened Bytes
  import opened Types
  import opened Encoding
  import opened Decoding
  import opened RoundTrip
  import opened Options
  import opened Signatures
  import opened Variants
  import opened OutgoingMessages
  import opened IncomingMessages

  const FIRST_HEADER_PART_SIZE: nat := 16
  const BODY_ALIGNMENT: Alignment := 8

  /** The fixed part, "yyyyuuu": the last number is the length of the field array. */
  const FIRST_PART: seq<Type> := HeadTypes(Fixed(UInt32))

  function NumberOf(v: Value): nat {
    if v.Num? then v.n else 0
  }

  datatype Frame = NeedMore | Broken(error: DecodeError) | Whole(parsed: Parsed, size: nat)

  lemma FirstPartIsWellFormed()
    ensures AllWellFormed(FIRST_PART)
  {
    OneMoreType(FIRST_PART[6..]);
    OneMoreType(FIRST_PART[5..]);
    OneMoreType(FIRST_PART[4..]);
    OneMoreType(FIRST_PART[3..]);
    OneMoreType(FIRST_PART[2..]);
    OneMoreType(FIRST_PART[1..]);
    OneMoreType(FIRST_PART);
  }

  /** One message off the front of the stream, if all of it is there. */
  function ReadFrame(stream: seq<byte>): (f: Frame)
    ensures f.Whole? ==> FIRST_HEADER_PART_SIZE <= f.size <= |stream|
  {
    if |stream| < FIRST_HEADER_PART_SIZE then NeedMore
    else
      FirstPartIsWellFormed();
      match DecParts(TopLevel, FIRST_PART, stream[..FIRST_HEADER_PART_SIZE], 0)
      case Err(e) => Broken(e)
      case Ok(head, _) =>
        var messageLength, serial, fieldsLength := NumberOf(head[4]), NumberOf(head[5]), NumberOf(head[6]);
        var size := FIRST_HEADER_PART_SIZE + fieldsLength;
        var padded := AlignUp(size, BODY_ALIGNMENT);
        if padded + messageLength > |stream| then NeedMore
        else
          Whole(ParseHeader(stream[..size], serial, NumberOf(head[1]), messageLength,
                            stream[padded..padded + messageLength]),
                padded + messageLength)
  }

  /** All messages of a stream, in order; one whose header is rejected is dropped. */
  function ReadAll(stream: seq<byte>): seq<Incoming>
    decreases |stream|
  {
    match ReadFrame(stream)
    case Whole(parsed, size) =>
      (if parsed.Accepted? then [parsed.message] else []) + ReadAll(stream[size..])
    case _ => []
  }

  /** What is left when no further message can be read. */
  function Leftover(stream: seq<byte>): seq<byte>
    decreases |stream|
  {
    match ReadFrame(stream)
    case Whole(_, size) => Leftover(stream[size..])
    case _ => stream
  }

  method ReadLoop(stream: seq<byte>) returns (messages: seq<Incoming>, rest: seq<byte>)
    ensures messages == ReadAll(stream) && rest == Leftover(stream)
  {
    hide ReadFrame;
    messages, rest := [], stream;
    var frame := ReadFrame(rest);
    while frame.Whole?
      invariant frame == ReadFrame(rest)
      invariant messages + ReadAll(rest) == ReadAll(stream)
      invariant Leftover(rest) == Leftover(stream)
      decreases |rest|
    {
      if frame.parsed.Accepted? {
        messages := messages + [frame.parsed.message];
      }
      rest := rest[frame.size..];
      frame := ReadFrame(rest);
    }
  }

  // ---------- one message ----------

  lemma FirstPartBytes(m: OutMessage, serial: nat, fs: seq<Field>)
    requires IsIncoming(m, serial, fs)
    ensures |HeaderBytes(m, serial, fs)| == 16 + FieldsLength(fs) < TWO_TO_THE_32
    ensures HeaderBytes(m, serial, fs)[..16] ==
            EncParts(TopLevel, FIRST_PART, HeadValues(m, serial, Num(FieldsLength(fs))), 0)
    ensures AcceptsParts(TopLevel, FIRST_PART, HeadValues(m, serial, Num(FieldsLength(fs))), 0)
    ensures |m.body| < TWO_TO_THE_32
  {
    hide Enc, EncElems, FieldValues, EncParts, FaultOfParts, LE, FixedPart, ArePlain,
         HeaderBytes, PadLen, Zeros;
    var n := FieldsLength(fs);
    HeaderLayout(m, serial, fs);
    HeadLayout(m, serial, Fixed(UInt32), Num(n));
    NumberEnc(n);
    Glue(FixedPart(m, serial), LE(n, 4), EncElems(FIELD_TYPE, FieldValues(fs), 16));
  }

  lemma NumberEnc(n: nat)
    ensures Enc(Fixed(UInt32), Num(n), 12) == LE(n, 4) && Accepts(Fixed(UInt32), Num(n), 12)
    ensures AlignmentOf(Fixed(UInt32)) == 4
  {
  }

  lemma Glue(x: seq<byte>, y: seq<byte>, z: seq<byte>)
    ensures (x + (y + z))[..|x| + |y|] == x + y
  {
  }

  /** The first sixteen bytes announce the lengths and the serial. */
  lemma FirstPartBack(m: OutMessage, serial: nat, fs: seq<Field>)
    requires IsIncoming(m, serial, fs)
    ensures AllWellFormed(FIRST_PART) && |HeaderBytes(m, serial, fs)| >= 16
    ensures DecParts(TopLevel, FIRST_PART, HeaderBytes(m, serial, fs)[..16], 0) ==
            Ok(HeadValues(m, serial, Num(FieldsLength(fs))), 16)
  {
    hide EncElems, FieldValues, EncParts, FaultOfParts, LE, FixedPart, ArePlain,
         HeaderBytes, PadLen, Zeros, DecParts, AllVariantFree, PartsTyped, PartsReadable, ReceivedParts, FieldsLength;
    FirstPartBytes(m, serial, fs);
    var last, b := Num(FieldsLength(fs)), HeaderBytes(m, serial, fs)[..16];
    FirstPartIsWellFormed();
    LastNumber(FieldsLength(fs));
    HeadIsTypedBefore(m, serial, Fixed(UInt32), last);
    HeadIsVariantFree();
    ArgumentsRoundTrip(FIRST_PART, HeadValues(m, serial, last), b);
  }

  lemma LastNumber(n: nat)
    requires n < TWO_TO_THE_32
    ensures WellFormed(Fixed(UInt32)) && Typed(Fixed(UInt32), Num(n)) && Readable(Fixed(UInt32), Num(n))
  {
    Pow256Values();
  }

  lemma HeadIsVariantFree()
    ensures AllVariantFree(FIRST_PART)
  {
    OneMoreFree(FIRST_PART[6..]);
    OneMoreFree(FIRST_PART[5..]);
    OneMoreFree(FIRST_PART[4..]);
    OneMoreFree(FIRST_PART[3..]);
    OneMoreFree(FIRST_PART[2..]);
    OneMoreFree(FIRST_PART[1..]);
    OneMoreFree(FIRST_PART);
  }

  lemma OneMoreFree(ts: seq<Type>)
    requires ts != [] && VariantFree(ts[0])
    ensures AllVariantFree(ts[1..]) ==> AllVariantFree(ts)
  {
  }

  /** Whatever follows it in the stream and whoever wrote it, a message is cut off
      exactly, and its header read from its own bytes. */
  lemma FrameIsCut(m: OutMessage, serial: nat, fs: seq<Field>, rest: seq<byte>)
    requires IsIncoming(m, serial, fs)
    ensures ReadFrame(MessageBytes(m, serial, fs) + rest) ==
            Whole(HeaderOutcome(m, serial, fs), |MessageBytes(m, serial, fs)|)
  {
    hide HeaderBytes, PadLen, DecParts, ParseHeader, FieldsLength, Zeros, ArePlain, FieldValues, FaultOf;
    var h := HeaderBytes(m, serial, fs);
    var z := Zeros(PadLen(|h|, 8));
    var stream := MessageBytes(m, serial, fs) + rest;
    FirstPartBytes(m, serial, fs);
    FirstPartBack(m, serial, fs);
    Slices(h, z, m.body, rest);
    assert |m.body| % TWO_TO_THE_32 == |m.body|;
  }

  /** And a sent message is parsed into the record it stands for. */
  lemma FrameRoundTrip(m: OutMessage, serial: nat, sender: Option<Text>, fs: seq<Field>, rest: seq<byte>)
    requires Sent(m, serial, sender, fs)
    ensures ReadFrame(MessageBytes(m, serial, fs) + rest) ==
            Whole(Accepted(Delivered(m, serial, sender)), |MessageBytes(m, serial, fs)|)
  {
    hide ReadFrame, HeaderOutcome, Delivered, Sent, IsIncoming, MessageBytes;
    SentIsIncoming(m, serial, sender, fs);
    FrameIsCut(m, serial, fs, rest);
    HeaderRoundTrip(m, serial, sender, fs);
  }

  lemma Slices(h: seq<byte>, z: seq<byte>, body: seq<byte>, rest: seq<byte>)
    requires |h| >= 16
    ensures var s := h + z + body + rest;
            && s[..16] == h[..16] && s[..|h|] == h && s[|h| + |z|..|h| + |z| + |body|] == body
  {
    var s := h + z + body + rest;
    assert s[..16] == h[..16];
    assert s[|h| + |z|..|h| + |z| + |body|] == body;
  }

  /** What `CreateDBusMessage` returns is such a message. */
  lemma CreatedIsSent(m: OutMessage, serial: nat)
    requires Constructed(m) && SignatureFits(m) && NoneMissing(m) && HeaderAccepted(m, serial, HeaderFields(m))
    requires FitsTheWire(m, serial, HeaderFields(m))
    ensures Sent(m, serial, None, HeaderFields(m))
  {
    hide HeaderFields, HeaderAccepted, FitsTheWire, NoneMissing, Constructed, Carried;
    CompleteCarriesExactly(m);
    NoSender(m);
  }

  // ---------- what is certainly sent ----------

  const MAX_TEXT: nat := 0x10_0000

  predicate TextsUpTo(fs: seq<Field>, n: nat) {
    forall f :: f in fs && f.v.Txt? ==> |f.v.s| <= n
  }

  lemma OneFieldLength(f: Field, p: nat)
    requires IsBasicField(f)
    ensures |Enc(FIELD_TYPE, FieldValue(f), p)| <= (if f.v.Txt? then |f.v.s| else 0) + 24
  {
    hide Sig, PadLen, AlignmentOf, Enc, EncParts, IsBasicField;
    var ts, vs := [Fixed(Byte), Variant], [Num(f.code), Boxed(f.t, f.v)];
    var q := NextPart(InStruct, ts, vs, p);
    StructEnc(ts, vs, p);
    PartsStep(InStruct, ts, vs, p);
    VariantIsUnaligned(p + |Enc(Fixed(Byte), Num(f.code), p)|);
    assert ts[1..] == [Variant] && vs[1..] == [Boxed(f.t, f.v)];
    PartsStep(InStruct, ts[1..], vs[1..], q);
    NoParts(InStruct, ts[1..][1..], vs[1..][1..], NextPart(InStruct, ts[1..], vs[1..], q));
    BoxStep(f.t, f.v, q);
    BasicLength(f, PayloadStart(f.t, q));
    ByteLength(f.code, p);
  }

  lemma ByteLength(n: nat, p: nat)
    ensures |Enc(Fixed(Byte), Num(n), p)| == 1
  {
  }

  lemma VariantIsUnaligned(p: nat)
    ensures PadLen(p, MemberAlignment(Variant)) == 0
  {
  }

  lemma BasicLength(f: Field, p: nat)
    requires IsBasicField(f)
    ensures |Enc(f.t, f.v, p)| <= (if f.v.Txt? then |f.v.s| else 0) + 8
    ensures |EncText(Signature, Sig(f.t))| == 3
  {
  }

  lemma {:induction false} FieldsLengthIsBounded(fs: seq<Field>, p: nat, n: nat)
    requires AreBasicFields(fs) && TextsUpTo(fs, n)
    ensures |EncElems(FIELD_TYPE, FieldValues(fs), p)| <= |fs| * (n + 32)
  {
    hide Enc, EncElems, IsBasicField, FieldValue, NextElem;
    if fs == [] {
      NoElems(FIELD_TYPE, p);
    } else {
      var vs := FieldValues(fs);
      assert vs[0] == FieldValue(fs[0]) && vs[1..] == FieldValues(fs[1..]);
      ElemsStep(FIELD_TYPE, vs, p);
      OneFieldLength(fs[0], p);
      NextIsNear(vs, p);
      FieldsLengthIsBounded(fs[1..], NextElem(FIELD_TYPE, vs, p), n);
      assert |fs| * (n + 32) == (n + 32) + (|fs| - 1) * (n + 32);
    }
  }

  lemma NextIsNear(vs: seq<Value>, p: nat)
    requires vs != []
    ensures NextElem(FIELD_TYPE, vs, p) <= p + |Enc(FIELD_TYPE, vs[0], p)| + 7
  {
    hide Enc;
  }

  lemma {:induction false} SelectionIsShort(m: OutMessage, codes: seq<byte>)
    ensures Select(m, codes).Selected? ==> |Select(m, codes).fields| <= |codes|
  {
    hide RowFor;
    if codes != [] {
      SelectionIsShort(m, codes[1..]);
    }
  }

  lemma CarriedTextsAreShort(m: OutMessage, code: byte, n: nat)
    requires Carried(m, code).Some? && Carried(m, code).value.v.Txt?
    requires SetText(m, code).Some? ==> |SetText(m, code).value| <= n
    ensures |Carried(m, code).value.v.s| <= n
  {
    if SetText(m, code).Some? {
      UntilNulIsWhole(SetText(m, code).value);
    }
  }

  /** Every message with its required members, texts of up to a mebibyte without NUL
      or cut at one, and a body of less than two gibibytes is sent. */
  lemma ReasonableMessageIsSent(m: OutMessage, serial: nat)
    requires Constructed(m) && SignatureFits(m) && NoneMissing(m) && InterfaceSurvives(m) && HoldsNoBadText(m)
    requires forall code :: SetText(m, code).Some? ==> |SetText(m, code).value| <= MAX_TEXT
    requires |m.body| < 0x8000_0000 && serial < TWO_TO_THE_32
    ensures Sent(m, serial, None, HeaderFields(m))
  {
    hide Enc, EncElems, FieldValues, HeaderAccepted, CarriesExactly, Select, Carried, SetText, NoneMissing, Constructed,
         SignatureFits, InterfaceSurvives, HoldsNoBadText, HeaderBytes, EncParts, FixedPart, AreBasicFields;
    var fs := HeaderFields(m);
    CompleteCarriesExactly(m);
    CarriedAreBasic(m, fs);
    FieldsAreFew(m);
    CarriedAreShort(m, fs);
    FieldsLengthIsBounded(fs, 16, MAX_TEXT);
    assert |fs| * (MAX_TEXT + 32) <= 12 * (MAX_TEXT + 32);
    HeaderIsAcceptedIff(m, serial, fs);
    HeaderLayout(m, serial, fs);
    CreatedIsSent(m, serial);
  }

  lemma FieldsAreFew(m: OutMessage)
    ensures |HeaderFields(m)| <= 12
  {
    hide Select;
    SelectionIsShort(m, HEADER_FIELDS);
  }

  lemma CarriedAreShort(m: OutMessage, fs: seq<Field>)
    requires CarriesExactly(fs, m) && forall code :: SetText(m, code).Some? ==> |SetText(m, code).value| <= MAX_TEXT
    ensures TextsUpTo(fs, MAX_TEXT)
  {
    hide Carried, SetText;
    forall f | f in fs && f.v.Txt? ensures |f.v.s| <= MAX_TEXT {
      CarriedTextsAreShort(m, f.code, MAX_TEXT);
    }
  }

  /** A call of the member "a", NUL, "b" is sent, and arrives as a call of "a". */
  lemma MemberIsCut(m: OutMessage, serial: nat)
    requires serial < TWO_TO_THE_32
    requires m == OutMessage(METHOD_CALL, 0, [], Some([97, 0, 98]), Some([47]), None, None, None, None, None)
    ensures Sent(m, serial, None, HeaderFields(m)) && Delivered(m, serial, None).member == Some([97])
  {
    assert NoneMissing(m);
    assert HoldsNoBadText(m);
    hide HeaderAccepted, CarriesFrom, FitsTheWire;
    ReasonableMessageIsSent(m, serial);
    DeliveredInOwnTerms(m, serial, None);
    CutAtNul();
  }

  // ---------- a stream of messages ----------

  /** A message in the stream; `sender` is what the bus added, if the message is one of ours. */
  datatype Envelope = Envelope(m: OutMessage, serial: nat, sender: Option<Text>, fields: seq<Field>)

  ghost predicate AllIncoming(es: seq<Envelope>) {
    forall e :: e in es ==> IsIncoming(e.m, e.serial, e.fields)
  }

  ghost predicate AllSent(es: seq<Envelope>) {
    forall e :: e in es ==> Sent(e.m, e.serial, e.sender, e.fields)
  }

  function BytesOf(e: Envelope): seq<byte> {
    MessageBytes(e.m, e.serial, e.fields)
  }

  function Wire(es: seq<Envelope>): seq<byte> {
    if es == [] then [] else BytesOf(es[0]) + Wire(es[1..])
  }

  /** The messages whose headers are accepted. */
  function Understood(es: seq<Envelope>): seq<Incoming> {
    if es == [] then []
    else
      var first := HeaderOutcome(es[0].m, es[0].serial, es[0].fields);
      (if first.Accepted? then [first.message] else []) + Understood(es[1..])
  }

  function DeliveredAll(es: seq<Envelope>): seq<Incoming> {
    if es == [] then [] else [Delivered(es[0].m, es[0].serial, es[0].sender)] + DeliveredAll(es[1..])
  }

  /** However many messages stand one after the other, whoever wrote them: the read
      loop yields exactly those whose header is accepted, in order, a rejected one costs
      no other, and what remains is what it makes of the bytes behind them. */
  lemma {:induction false} StreamIsCut(es: seq<Envelope>, tail: seq<byte>)
    requires AllIncoming(es)
    ensures ReadAll(Wire(es) + tail) == Understood(es) + ReadAll(tail)
    ensures Leftover(Wire(es) + tail) == Leftover(tail)
  {
    hide ReadFrame, ReadAll, Leftover, MessageBytes, HeaderOutcome, IsIncoming;
    if es == [] {
      assert Wire(es) + tail == tail;
    } else {
      var e, rest := es[0], Wire(es[1..]) + tail;
      var bytes, first := BytesOf(e), HeaderOutcome(e.m, e.serial, e.fields);
      assert e in es && forall x :: x in es[1..] ==> x in es;
      FrameIsCut(e.m, e.serial, e.fields, rest);
      Regroup(bytes, Wire(es[1..]), tail);
      assert (bytes + rest)[|bytes|..] == rest;
      FirstMessage(bytes + rest, first, |bytes|);
      StreamIsCut(es[1..], tail);
      RegroupMessages(if first.Accepted? then [first.message] else [], Understood(es[1..]), ReadAll(tail));
    }
  }

  lemma FirstMessage(stream: seq<byte>, parsed: Parsed, size: nat)
    requires ReadFrame(stream) == Whole(parsed, size)
    ensures size <= |stream|
    ensures ReadAll(stream) == (if parsed.Accepted? then [parsed.message] else []) + ReadAll(stream[size..])
    ensures Leftover(stream) == Leftover(stream[size..])
  {
    hide ReadFrame;
  }

  lemma RegroupMessages(x: seq<Incoming>, y: seq<Incoming>, z: seq<Incoming>)
    ensures x + y + z == x + (y + z)
  {
  }

  lemma {:induction false} SentAreUnderstood(es: seq<Envelope>)
    requires AllSent(es)
    ensures AllIncoming(es) && Understood(es) == DeliveredAll(es)
  {
    hide Sent, IsIncoming, HeaderOutcome, Delivered;
    if es != [] {
      var e := es[0];
      assert e in es && es == [e] + es[1..];
      SentIsIncoming(e.m, e.serial, e.sender, e.fields);
      HeaderRoundTrip(e.m, e.serial, e.sender, e.fields);
      SentAreUnderstood(es[1..]);
    }
  }

  /** Of sent messages all are accepted: the read loop yields exactly those. */
  lemma StreamRoundTrip(es: seq<Envelope>, tail: seq<byte>)
    requires AllSent(es)
    ensures ReadAll(Wire(es) + tail) == DeliveredAll(es) + ReadAll(tail)
    ensures Leftover(Wire(es) + tail) == Leftover(tail)
  {
    hide ReadFrame, ReadAll, Leftover, Wire, Sent, Understood, DeliveredAll;
    SentAreUnderstood(es);
    StreamIsCut(es, tail);
  }

  lemma NothingToRead()
    ensures ReadFrame([]) == NeedMore && ReadAll([]) == [] && Leftover([]) == []
  {
  }

  /** Every byte of a complete stream is consumed. */
  lemma WholeStreamIsConsumed(es: seq<Envelope>)
    requires AllIncoming(es)
    ensures ReadAll(Wire(es)) == Understood(es) && Leftover(Wire(es)) == []
  {
    hide ReadFrame, IsIncoming, Wire, Understood;
    StreamIsCut(es, []);
    NothingToRead();
    assert Wire(es) + [] == Wire(es);
  }

  /** A message that has arrived only in part is left in the stream, whole. */
  lemma PartialMessageWaits(es: seq<Envelope>, last: Envelope, part: seq<byte>)
    requires AllIncoming(es) && IsIncoming(last.m, last.serial, last.fields)
    requires part <= BytesOf(last) && part != BytesOf(last)
    ensures ReadAll(Wire(es) + part) == Understood(es) && Leftover(Wire(es) + part) == part
  {
    hide ReadFrame, MessageBytes, IsIncoming, Wire, Understood;
    StreamIsCut(es, part);
    PartIsNoFrame(last.m, last.serial, last.fields, part);
  }

  lemma PartIsNoFrame(m: OutMessage, serial: nat, fs: seq<Field>, part: seq<byte>)
    requires IsIncoming(m, serial, fs)
    requires part <= MessageBytes(m, serial, fs) && part != MessageBytes(m, serial, fs)
    ensures ReadFrame(part) == NeedMore
  {
    hide HeaderBytes, PadLen, DecParts, ParseHeader, FieldsLength, Zeros, ArePlain, FieldValues, FaultOf;
    var h := HeaderBytes(m, serial, fs);
    if |part| >= 16 {
      FirstPartBytes(m, serial, fs);
      FirstPartBack(m, serial, fs);
      assert part[..16] == MessageBytes(m, serial, fs)[..16] == h[..16];
      assert |m.body| % TWO_TO_THE_32 == |m.body|;
    }
  }
}
