/** Received headers: the field list, the checks for required fields, and the
    record built from them. */
module IncomingMessages {
  import opened Bytes
  import opened Types
  import opened Signatures
  import opened Encoding
  import opened Decoding
  import opened RoundTrip
  import opened Variants
  import opened Options
  import opened InterfaceNames
  import opened OutgoingMessages

  datatype Incoming = Incoming(
    serial: nat, kind: nat, replySerial: Option<nat>, path: Option<Text>, interfaceName: Option<Text>,
    member: Option<Text>, errorName: Option<Text>, signature: Option<Text>, sender: Option<Text>,
    destination: Option<Text>, body: seq<byte>)

  datatype HeaderError =
    | BadFieldList(error: DecodeError) | BodyWithoutSignature | MissingField(code: byte) | BadField(code: byte)

  datatype Parsed = Accepted(message: Incoming) | Rejected(error: HeaderError)

  /** The variant of the first field with the given code. */
  function Find(fields: seq<Value>, code: byte): Option<Value> {
    if fields == [] then None
    else if fields[0].Record? && |fields[0].parts| == 2 && fields[0].parts[0] == Num(code) then Some(fields[0].parts[1])
    else Find(fields[1..], code)
  }

  /** The codes checked for presence, in the order of the checks. */
  const CHECKED_FIELDS: seq<byte> := [5, 1, 2, 3, 7, 6, 4]

  function FirstMissing(fields: seq<Value>, kind: nat, codes: seq<byte>): Option<byte> {
    if codes == [] then None
    else if Find(fields, codes[0]).None? && kind in RequiredFor(codes[0]) then Some(codes[0])
    else FirstMissing(fields, kind, codes[1..])
  }

  datatype Lookup<+T> = Found(value: Option<T>) | Unreadable

  function NumberField(fields: seq<Value>, code: byte): Lookup<nat> {
    match Find(fields, code)
    case None => Found(None)
    case Some(box) =>
      if !box.Slice? then Unreadable
      else
        match UnmarshalData(Fixed(UInt32), box.sig, Span(box.data))
        case Extracted(Num(n)) => Found(Some(n))
        case _ => Unreadable
  }

  function TextFieldOf(fields: seq<Value>, code: byte, k: TextKind): Lookup<Text> {
    match Find(fields, code)
    case None => Found(None)
    case Some(box) =>
      if !box.Slice? then Unreadable
      else
        match UnmarshalData(Text(k), box.sig, Span(box.data))
        case Extracted(Txt(s)) => Found(Some(s))
        case _ => Unreadable
  }

  function InterfaceFieldOf(fields: seq<Value>): Lookup<Text> {
    var name := TextFieldOf(fields, INTERFACE_FIELD, String);
    if name.Found? && name.value.Some? && !IsInterfaceName(name.value.value) then Unreadable else name
  }

  /** The header's field array stands at position 12 of the message. The destination
      is filled from the SENDER field. */
  function ParseHeader(b: seq<byte>, serial: nat, kind: nat, bodyLength: nat, body: seq<byte>): Parsed {
    FieldTypeIsWellFormed();
    match Dec(FIELDS_TYPE, b, 12)
    case Err(e) => Rejected(BadFieldList(e))
    case Ok(list, _) =>
      var fields := if list.List? then list.elems else [];
      if Find(fields, SIGNATURE_FIELD).None? && bodyLength != 0 then Rejected(BodyWithoutSignature)
      else
        match FirstMissing(fields, kind, CHECKED_FIELDS)
        case Some(code) => Rejected(MissingField(code))
        case None =>
          var replySerial := NumberField(fields, REPLY_SERIAL_FIELD);
          var path := TextFieldOf(fields, PATH_FIELD, Path);
          var interfaceName := InterfaceFieldOf(fields);
          var member := TextFieldOf(fields, MEMBER_FIELD, String);
          var errorName := TextFieldOf(fields, ERROR_NAME_FIELD, String);
          var signature := TextFieldOf(fields, SIGNATURE_FIELD, Signature);
          var sender := TextFieldOf(fields, SENDER_FIELD, String);
          if replySerial.Unreadable? then Rejected(BadField(REPLY_SERIAL_FIELD))
          else if path.Unreadable? then Rejected(BadField(PATH_FIELD))
          else if interfaceName.Unreadable? then Rejected(BadField(INTERFACE_FIELD))
          else if member.Unreadable? then Rejected(BadField(MEMBER_FIELD))
          else if errorName.Unreadable? then Rejected(BadField(ERROR_NAME_FIELD))
          else if signature.Unreadable? then Rejected(BadField(SIGNATURE_FIELD))
          else if sender.Unreadable? then Rejected(BadField(SENDER_FIELD))
          else
            Accepted(Incoming(serial, kind, replySerial.value, path.value, interfaceName.value, member.value,
                              errorName.value, signature.value, sender.value, sender.value, body))
  }

  // ---------- the field list ----------

  /** A field as the receiver's decoder yields it. */
  function ReceivedField(f: Field): Value {
    Record([Num(f.code), Slice(Sig(f.t), Enc(f.t, f.v, 0))])
  }

  function ReceivedFields(fs: seq<Field>): seq<Value> {
    if fs == [] then [] else [ReceivedField(fs[0])] + ReceivedFields(fs[1..])
  }

  lemma FieldReceived(f: Field, p: nat)
    requires IsPlain(f)
    ensures Received(FIELD_TYPE, FieldValue(f), p) == ReceivedField(f)
  {
    hide Enc, Typed, Readable, Sig, NextPart, PayloadStart;
    var ts, vs := [Fixed(Byte), Variant], [Num(f.code), Boxed(f.t, f.v)];
    var q := NextPart(InStruct, ts, vs, p);
    assert ts[1..] == [Variant] && vs[1..] == [Boxed(f.t, f.v)];
    assert ts[1..][1..] == [] && vs[1..][1..] == [];
    PlainAnywhere(f.t, f.v, PayloadStart(f.t, q));
    LastReceived(ts[1..], vs[1..], q);
    assert ReceivedParts(InStruct, ts, vs, p) ==
        [Received(ts[0], vs[0], p)] + ReceivedParts(InStruct, ts[1..], vs[1..], q);
  }

  lemma LastReceived(ts: seq<Type>, vs: seq<Value>, p: nat)
    requires |ts| == |vs| == 1
    ensures ReceivedParts(InStruct, ts, vs, p) == [Received(ts[0], vs[0], p)]
  {
    hide NextPart, Received;
  }

  lemma {:induction false} FieldsReceived(fs: seq<Field>, p: nat)
    requires ArePlain(fs)
    ensures ReceivedElems(FIELD_TYPE, FieldValues(fs), p) == ReceivedFields(fs)
  {
    hide IsPlain, Received, ReceivedField, FieldValue, NextElem;
    if fs != [] {
      var vs := FieldValues(fs);
      assert vs[0] == FieldValue(fs[0]) && vs[1..] == FieldValues(fs[1..]);
      FieldReceived(fs[0], p);
      FieldsReceived(fs[1..], NextElem(FIELD_TYPE, vs, p));
    }
  }

  /** The first field with a code. */
  function Under(fs: seq<Field>, code: byte): (f: Option<Field>)
    ensures f.None? <==> !HasCode(fs, code)
    ensures f.Some? ==> f.value in fs && f.value.code == code
  {
    if fs == [] then None
    else
      assert fs == [fs[0]] + fs[1..];
      if fs[0].code == code then Some(fs[0]) else Under(fs[1..], code)
  }

  lemma {:induction false} UnderIsFirst(fs: seq<Field>, code: byte, i: nat)
    requires i < |fs| && fs[i].code == code && forall j :: 0 <= j < i ==> fs[j].code != code
    ensures Under(fs, code) == Some(fs[i])
  {
    if i > 0 {
      UnderIsFirst(fs[1..], code, i - 1);
    }
  }

  /** Looking a code up finds the first field that has it, if there is one. */
  lemma {:induction false} FindFirst(fs: seq<Field>, code: byte)
    ensures Find(ReceivedFields(fs), code) ==
            match Under(fs, code)
            case None => None
            case Some(f) => Some(Slice(Sig(f.t), Enc(f.t, f.v, 0)))
  {
    hide Enc, Sig;
    if fs != [] {
      FindFirst(fs[1..], code);
      var rs := ReceivedFields(fs);
      assert rs[0] == ReceivedField(fs[0]) && rs[1..] == ReceivedFields(fs[1..]);
    }
  }

  /** A carried value comes out of its slice. */
  lemma PlainReadsBack(f: Field)
    requires IsPlain(f) && |Enc(f.t, f.v, 0)| < TWO_TO_THE_32
    ensures UnmarshalData(f.t, Sig(f.t), Span(Enc(f.t, f.v, 0))) == Extracted(f.v)
  {
    hide Enc, Dec, Sig;
    var b := Enc(f.t, f.v, 0);
    AtInContext([], b, []);
    assert [] + b + [] == b;
    if f.v.Num? {
      DecNumberBack(f.t, f.v, b, 0);
    } else {
      DecTextBack(f.t, f.v, b, 0);
    }
  }

  lemma {:induction false} FieldFits(fs: seq<Field>, f: Field, p: nat)
    requires ArePlain(fs) && f in fs
    ensures |Enc(f.t, f.v, 0)| <= |EncElems(FIELD_TYPE, FieldValues(fs), p)|
  {
    hide Enc, IsPlain, EncElems, FieldValue, NextElem;
    var vs := FieldValues(fs);
    assert vs[0] == FieldValue(fs[0]) && vs[1..] == FieldValues(fs[1..]);
    ElemsStep(FIELD_TYPE, vs, p);
    if f == fs[0] {
      OneFieldFits(f, p);
    } else {
      FieldFits(fs[1..], f, NextElem(FIELD_TYPE, vs, p));
    }
  }

  lemma OneFieldFits(f: Field, p: nat)
    requires IsPlain(f)
    ensures |Enc(f.t, f.v, 0)| <= |Enc(FIELD_TYPE, FieldValue(f), p)|
  {
    hide EncText, Typed, Readable, Sig, PadLen, AlignmentOf, Enc, EncParts;
    var ts, vs := [Fixed(Byte), Variant], [Num(f.code), Boxed(f.t, f.v)];
    var q := NextPart(InStruct, ts, vs, p);
    StructEnc(ts, vs, p);
    PartsStep(InStruct, ts, vs, p);
    assert ts[1..] == [Variant] && vs[1..] == [Boxed(f.t, f.v)];
    PartsStep(InStruct, ts[1..], vs[1..], q);
    BoxStep(f.t, f.v, q);
    PlainAnywhere(f.t, f.v, PayloadStart(f.t, q));
  }

  // ---------- any header ----------

  /** The message fits the 32-bit sizes of the wire format. */
  predicate FitsTheWire(m: OutMessage, serial: nat, fs: seq<Field>) {
    serial < TWO_TO_THE_32 && |MessageBytes(m, serial, fs)| < TWO_TO_THE_32
  }

  /** A message as it may arrive from whomever: of `m` only the type, the flags and
      the body matter, and its fields hold any basic values, under known codes and
      others, in any order, one code several times or not at all. */
  ghost predicate IsIncoming(m: OutMessage, serial: nat, fs: seq<Field>) {
    ArePlain(fs) && Accepts(FIELDS_TYPE, List(FieldValues(fs)), 12) && FitsTheWire(m, serial, fs)
  }

  /** The field array decodes to the fields that were pushed. */
  lemma FieldListBack(m: OutMessage, serial: nat, fs: seq<Field>)
    requires IsIncoming(m, serial, fs)
    ensures WellFormed(FIELDS_TYPE)
    ensures var b := HeaderBytes(m, serial, fs); Dec(FIELDS_TYPE, b, 12) == Ok(List(ReceivedFields(fs)), |b|)
    ensures forall f :: f in fs ==> |Enc(f.t, f.v, 0)| < TWO_TO_THE_32
  {
    hide Enc, FaultOf, EncElems, FieldValues, EncParts, FaultOfParts, LE, Dec, At, FixedPart, HeaderBytes,
         HeaderAccepted, ArePlain, AreBasicFields, Typed, Readable, WellFormed, Zeros, PadLen;
    var b, v := HeaderBytes(m, serial, fs), List(FieldValues(fs));
    HeaderLayout(m, serial, fs);
    FieldTypeIsWellFormed();
    PlainAreBasic(fs);
    FieldListIsTyped(fs);
    AtInContext(FixedPart(m, serial), Enc(FIELDS_TYPE, v, 12), []);
    assert FixedPart(m, serial) + Enc(FIELDS_TYPE, v, 12) + [] == b;
    DecodesBack(FIELDS_TYPE, v, b, 12);
    FieldListReceived(fs);
    forall f | f in fs ensures |Enc(f.t, f.v, 0)| < TWO_TO_THE_32 {
      FieldFits(fs, f, 16);
    }
  }

  lemma PlainAreBasic(fs: seq<Field>)
    requires ArePlain(fs)
    ensures AreBasicFields(fs)
  {
  }

  lemma FieldListReceived(fs: seq<Field>)
    requires ArePlain(fs)
    ensures Received(FIELDS_TYPE, List(FieldValues(fs)), 12) == List(ReceivedFields(fs))
  {
    hide ArePlain, FieldValues, ReceivedElems, PadLen;
    FieldsReceived(fs, AlignUp(16, AlignmentOf(FIELD_TYPE)));
  }

  function TextUnder(fs: seq<Field>, code: byte): Option<Text> {
    match Under(fs, code)
    case Some(Field(_, _, Txt(s))) => Some(s)
    case _ => None
  }

  function NumberUnder(fs: seq<Field>, code: byte): Option<nat> {
    match Under(fs, code)
    case Some(Field(_, _, Num(n))) => Some(n)
    case _ => None
  }

  predicate IsA(fs: seq<Field>, code: byte, t: Type) {
    Under(fs, code).Some? ==> Under(fs, code).value.t == t
  }

  lemma NumberFieldBack(fs: seq<Field>, code: byte)
    requires ArePlain(fs) && forall f :: f in fs ==> |Enc(f.t, f.v, 0)| < TWO_TO_THE_32
    ensures NumberField(ReceivedFields(fs), code) ==
            if IsA(fs, code, Fixed(UInt32)) then Found(NumberUnder(fs, code)) else Unreadable
  {
    hide Enc, Sig, Find, Dec, Under, Readable;
    FindFirst(fs, code);
    if Under(fs, code).Some? {
      var f := Under(fs, code).value;
      SigIsInjectiveAndPrefixFree(f.t, Fixed(UInt32));
      PlainReadsBack(f);
    }
  }

  lemma TextFieldBack(fs: seq<Field>, code: byte, k: TextKind)
    requires ArePlain(fs) && forall f :: f in fs ==> |Enc(f.t, f.v, 0)| < TWO_TO_THE_32
    ensures TextFieldOf(ReceivedFields(fs), code, k) ==
            if IsA(fs, code, Text(k)) then Found(TextUnder(fs, code)) else Unreadable
  {
    hide Enc, Sig, Find, Dec, Under, Readable;
    FindFirst(fs, code);
    if Under(fs, code).Some? {
      var f := Under(fs, code).value;
      SigIsInjectiveAndPrefixFree(f.t, Text(k));
      PlainReadsBack(f);
    }
  }

  // ---------- which headers are accepted, in literals ----------

  /** The required field whose absence is reported. Calls and signals have a path and a
      member, signals an interface, errors a name, returns and errors a reply serial;
      types 254 and 255 are the library's own. */
  function LackingOf(fs: seq<Field>, kind: nat): Option<byte> {
    if (kind == 2 || kind == 3) && Under(fs, 5).None? then Some(5)
    else if (kind == 1 || kind == 4) && Under(fs, 1).None? then Some(1)
    else if (kind == 4 || kind == 255) && Under(fs, 2).None? then Some(2)
    else if (kind == 1 || kind == 4) && Under(fs, 3).None? then Some(3)
    else if kind == 254 && Under(fs, 7).None? then Some(7)
    else if kind == 254 && Under(fs, 6).None? then Some(6)
    else if (kind == 3 || kind == 255) && Under(fs, 4).None? then Some(4)
    else None
  }

  /** The first field that does not hold what its code stands for. */
  function UnusableOf(fs: seq<Field>): Option<byte> {
    if !IsA(fs, 5, Fixed(UInt32)) then Some(5)
    else if !IsA(fs, 1, Text(Path)) then Some(1)
    else if !IsA(fs, 2, Text(String)) || (TextUnder(fs, 2).Some? && !IsInterfaceName(TextUnder(fs, 2).value))
        then Some(2)
    else if !IsA(fs, 3, Text(String)) then Some(3)
    else if !IsA(fs, 4, Text(String)) then Some(4)
    else if !IsA(fs, 8, Text(TextKind.Signature)) then Some(8)
    else if !IsA(fs, 7, Text(String)) then Some(7)
    else None
  }

  function RecordOf(m: OutMessage, serial: nat, fs: seq<Field>): Incoming {
    Incoming(serial := serial, kind := m.kind, replySerial := NumberUnder(fs, 5), path := TextUnder(fs, 1),
             interfaceName := TextUnder(fs, 2), member := TextUnder(fs, 3), errorName := TextUnder(fs, 4),
             signature := TextUnder(fs, 8), sender := TextUnder(fs, 7), destination := TextUnder(fs, 7), body := m.body)
  }

  function HeaderOutcome(m: OutMessage, serial: nat, fs: seq<Field>): Parsed {
    ParseHeader(HeaderBytes(m, serial, fs), serial, m.kind, |m.body|, m.body)
  }

  lemma FirstMissingStep(fs: seq<Field>, kind: nat, code: byte, codes: seq<byte>)
    ensures FirstMissing(ReceivedFields(fs), kind, [code] + codes) ==
            if Under(fs, code).None? && kind in RequiredFor(code) then Some(code)
            else FirstMissing(ReceivedFields(fs), kind, codes)
  {
    hide Find, RequiredFor, Under;
    FindFirst(fs, code);
    assert ([code] + codes)[0] == code && ([code] + codes)[1..] == codes;
  }

  lemma NoneToCheck(fields: seq<Value>, kind: nat, codes: seq<byte>)
    requires codes == []
    ensures FirstMissing(fields, kind, codes) == None
  {
  }

  lemma CheckedInLiterals(fs: seq<Field>, kind: nat)
    ensures FirstMissing(ReceivedFields(fs), kind, CHECKED_FIELDS) == LackingOf(fs, kind)
  {
    hide FirstMissing, Under;
    var c := CHECKED_FIELDS;
    assert c == [5] + c[1..] && c[1..] == [1] + c[2..] && c[2..] == [2] + c[3..] && c[3..] == [3] + c[4..];
    assert c[4..] == [7] + c[5..] && c[5..] == [6] + c[6..] && c[6..] == [4] + c[7..];
    FirstMissingStep(fs, kind, 5, c[1..]);
    FirstMissingStep(fs, kind, 1, c[2..]);
    FirstMissingStep(fs, kind, 2, c[3..]);
    FirstMissingStep(fs, kind, 3, c[4..]);
    FirstMissingStep(fs, kind, 7, c[5..]);
    FirstMissingStep(fs, kind, 6, c[6..]);
    FirstMissingStep(fs, kind, 4, c[7..]);
    NoneToCheck(ReceivedFields(fs), kind, c[7..]);
  }

  /** Whoever wrote a header and whatever fields are in it: it is accepted exactly when
      a body comes with a signature, nothing required is lacking and the fields are
      usable, and of what is wrong the first is reported; the record of an accepted one
      holds what stands under the codes. */
  lemma HeaderIsUnderstood(m: OutMessage, serial: nat, fs: seq<Field>)
    requires IsIncoming(m, serial, fs)
    ensures HeaderOutcome(m, serial, fs) ==
            if m.body != [] && Under(fs, 8).None? then Rejected(BodyWithoutSignature)
            else if LackingOf(fs, m.kind).Some? then Rejected(MissingField(LackingOf(fs, m.kind).value))
            else if UnusableOf(fs).Some? then Rejected(BadField(UnusableOf(fs).value))
            else Accepted(RecordOf(m, serial, fs))
  {
    hide Enc, Dec, HeaderBytes, ReceivedFields, Find, FirstMissing, NumberField, TextFieldOf, Sig, MessageBytes, IsA,
         LackingOf, Under, TextUnder, NumberUnder, FieldValues, ArePlain;
    FieldListBack(m, serial, fs);
    CheckedInLiterals(fs, m.kind);
    NumberFieldBack(fs, 5);
    TextFieldBack(fs, 1, Path);
    TextFieldBack(fs, 2, String);
    TextFieldBack(fs, 3, String);
    TextFieldBack(fs, 4, String);
    TextFieldBack(fs, 7, String);
    TextFieldBack(fs, 8, TextKind.Signature);
    FindFirst(fs, 8);
  }

  // ---------- sent messages ----------

  /** The fields of a sent message, in whatever order, and the SENDER field if the bus
      has added one. */
  ghost predicate CarriesFrom(fs: seq<Field>, m: OutMessage, sender: Option<Text>) {
    forall f :: f in fs <==>
      if f.code == 7 then sender.Some? && f == Field(7, Text(String), Txt(sender.value))
      else Carried(m, f.code) == Some(f)
  }

  /** A message the library serialises, as it left or as the bus passes it on:
      nothing required is missing, and its fields are accepted by the marshaller. */
  ghost predicate Sent(m: OutMessage, serial: nat, sender: Option<Text>, fs: seq<Field>) {
    && Constructed(m) && SignatureFits(m) && NoneMissing(m) && CarriesFrom(fs, m, sender)
    && HeaderAccepted(m, serial, fs) && FitsTheWire(m, serial, fs)
  }

  function CarriedText(m: OutMessage, code: byte): Option<Text> {
    match Carried(m, code)
    case Some(Field(_, _, Txt(s))) => Some(s)
    case _ => None
  }

  /** What a receiver makes of it. */
  function Delivered(m: OutMessage, serial: nat, sender: Option<Text>): Incoming {
    Incoming(serial, m.kind, if Carried(m, REPLY_SERIAL_FIELD).Some? then m.replySerial else None,
             CarriedText(m, PATH_FIELD), CarriedText(m, INTERFACE_FIELD), CarriedText(m, MEMBER_FIELD),
             CarriedText(m, ERROR_NAME_FIELD), CarriedText(m, SIGNATURE_FIELD), sender, sender, m.body)
  }

  /** A text as it reaches the receiver: cut at its first NUL if it is short. */
  function Shown(s: Option<Text>): Option<Text> {
    if s.Some? then Some(Stored(Text(String), Txt(s.value)).s) else None
  }

  /** The delivered record in the message's own terms: each member that the table
      requires for the message's type, the interface whenever there is one, the
      signature whenever there is a body, the sender that the bus has set, and in
      place of the destination the sender again. */
  lemma DeliveredInOwnTerms(m: OutMessage, serial: nat, sender: Option<Text>)
    requires Constructed(m) && NoneMissing(m)
    ensures var d := Delivered(m, serial, sender);
            && d.serial == serial && d.kind == m.kind && d.body == m.body
            && d.replySerial == (if m.kind == 3 || m.kind == 2 then m.replySerial else None)
            && d.path == (if m.kind == 1 || m.kind == 4 then Shown(m.path) else None)
            && d.member == (if m.kind == 1 || m.kind == 4 then Shown(m.member) else None)
            && d.interfaceName == Shown(m.interfaceName)
            && d.errorName == (if m.kind == 3 then Shown(m.errorName) else None)
            && d.signature == (if m.body == [] then None else Shown(m.signature))
            && d.sender == sender && d.destination == sender
  {
    hide RowFor, Stored;
    RowsInLiterals(m);
    AnyTextIsStoredAlike();
    assert !RowFor(m, 0).Refuse? && !RowFor(m, 1).Refuse? && !RowFor(m, 2).Refuse? && !RowFor(m, 3).Refuse?;
    assert !RowFor(m, 4).Refuse? && !RowFor(m, 5).Refuse? && !RowFor(m, 6).Refuse? && !RowFor(m, 8).Refuse?;
  }

  lemma AnyTextIsStoredAlike()
    ensures forall k: TextKind, s: Text :: Stored(Text(k), Txt(s)) == Txt(Stored(Text(String), Txt(s)).s)
  {
  }

  lemma NoSender(m: OutMessage)
    requires NoneMissing(m)
    ensures Carried(m, 7).None?
  {
    assert !RowFor(m, SENDER_FIELD).Refuse?;
  }

  lemma SentIsPlain(m: OutMessage, sender: Option<Text>, fs: seq<Field>)
    requires Constructed(m) && SignatureFits(m) && CarriesFrom(fs, m, sender)
    ensures ArePlain(fs)
  {
    hide Carried, IsPlain, SignatureFits, Constructed;
    forall f | f in fs ensures IsPlain(f) {
      if f.code == 7 {
        SenderIsPlain(f);
      } else {
        CarriedIsBasic(m, f.code);
      }
    }
  }

  lemma SenderIsPlain(f: Field)
    requires f.t == Text(String) && f.v.Txt?
    ensures IsPlain(f)
  {
  }

  lemma SentIsIncoming(m: OutMessage, serial: nat, sender: Option<Text>, fs: seq<Field>)
    requires Sent(m, serial, sender, fs)
    ensures IsIncoming(m, serial, fs)
  {
    hide Enc, FaultOf, FieldValues, HeaderBytes, HeaderAccepted, Constructed, NoneMissing, CarriesFrom, EncElems,
         MessageBytes, ArePlain;
    SentIsPlain(m, sender, fs);
    HeaderLayout(m, serial, fs);
  }

  lemma FindCarried(m: OutMessage, sender: Option<Text>, fs: seq<Field>, code: byte)
    requires CarriesFrom(fs, m, sender) && code != 7
    ensures Under(fs, code) == Carried(m, code)
  {
    hide Carried;
    CarriedHasItsCode(m, code);
    if Carried(m, code).Some? {
      assert Carried(m, code).value in fs;
      assert HasCode(fs, code);
    }
  }

  lemma FindSender(m: OutMessage, sender: Option<Text>, fs: seq<Field>)
    requires CarriesFrom(fs, m, sender)
    ensures TextUnder(fs, 7) == sender && IsA(fs, 7, Text(String))
  {
    hide Carried;
    if sender.Some? {
      assert Field(7, Text(String), Txt(sender.value)) in fs;
      assert HasCode(fs, 7);
    }
  }

  /** The kind of text each field code stands for. */
  function KindOf(code: byte): TextKind {
    if code == PATH_FIELD then Path else if code == SIGNATURE_FIELD then Signature else String
  }

  lemma CarriedIsText(m: OutMessage, code: byte)
    requires Carried(m, code).Some? && code != REPLY_SERIAL_FIELD
    ensures Carried(m, code).value.t == Text(KindOf(code)) && Carried(m, code).value.v.Txt?
  {
  }

  lemma TextIsUsable(m: OutMessage, sender: Option<Text>, fs: seq<Field>, code: byte)
    requires CarriesFrom(fs, m, sender) && code != 7 && code != REPLY_SERIAL_FIELD
    ensures TextUnder(fs, code) == CarriedText(m, code) && IsA(fs, code, Text(KindOf(code)))
  {
    hide Carried, Under;
    FindCarried(m, sender, fs, code);
    if Carried(m, code).Some? {
      CarriedIsText(m, code);
    }
  }

  lemma SerialIsUsable(m: OutMessage, sender: Option<Text>, fs: seq<Field>)
    requires CarriesFrom(fs, m, sender)
    ensures NumberUnder(fs, 5) == (if Carried(m, REPLY_SERIAL_FIELD).Some? then m.replySerial else None)
    ensures IsA(fs, 5, Fixed(UInt32))
  {
    hide Under;
    FindCarried(m, sender, fs, 5);
  }

  /** Every field the receiver insists on is one the table made the sender supply. */
  lemma NothingMissing(m: OutMessage, sender: Option<Text>, fs: seq<Field>)
    requires Constructed(m) && NoneMissing(m) && CarriesFrom(fs, m, sender)
    ensures LackingOf(fs, m.kind).None? && (m.body != [] ==> Under(fs, 8).Some?)
  {
    hide CarriesFrom, Under, Carried;
    forall code: byte | code != 7 ensures Under(fs, code) == Carried(m, code) {
      FindCarried(m, sender, fs, code);
    }
    RequiredIsCarried(m);
  }

  lemma RequiredIsCarried(m: OutMessage)
    requires NoneMissing(m)
    ensures m.kind == 1 || m.kind == 4 ==> Carried(m, 1).Some? && Carried(m, 3).Some?
    ensures m.kind == 4 ==> Carried(m, 2).Some?
    ensures m.kind == 3 ==> Carried(m, 4).Some?
    ensures m.kind == 2 || m.kind == 3 ==> Carried(m, 5).Some?
    ensures m.body != [] ==> Carried(m, 8).Some?
    ensures m.kind != 254 && m.kind != 255
  {
    assert !RowFor(m, 0).Refuse? && !RowFor(m, 1).Refuse? && !RowFor(m, 2).Refuse? && !RowFor(m, 3).Refuse?;
    assert !RowFor(m, 4).Refuse? && !RowFor(m, 5).Refuse? && !RowFor(m, 6).Refuse? && !RowFor(m, 8).Refuse?;
  }

  lemma InterfaceIsUsable(m: OutMessage)
    requires InterfaceSurvives(m)
    ensures CarriedText(m, INTERFACE_FIELD).Some? ==> IsInterfaceName(CarriedText(m, INTERFACE_FIELD).value)
  {
  }

  /** The receiver makes of a sent header exactly the record the message stands for. */
  lemma HeaderRoundTrip(m: OutMessage, serial: nat, sender: Option<Text>, fs: seq<Field>)
    requires Sent(m, serial, sender, fs)
    ensures HeaderOutcome(m, serial, fs) == Accepted(Delivered(m, serial, sender))
  {
    hide HeaderOutcome, FieldValues, Carried, NoneMissing, CarriesFrom, Constructed, Under, IsA, TextUnder,
         NumberUnder, CarriedText, LackingOf, FitsTheWire, IsInterfaceName, SignatureFits, ArePlain,
             InterfaceSurvives,
         FaultOf, FaultOfParts;
    HeaderLayout(m, serial, fs);
    SentIsIncoming(m, serial, sender, fs);
    HeaderIsUnderstood(m, serial, fs);
    NothingMissing(m, sender, fs);
    TextIsUsable(m, sender, fs, 1);
    TextIsUsable(m, sender, fs, 2);
    TextIsUsable(m, sender, fs, 3);
    TextIsUsable(m, sender, fs, 4);
    TextIsUsable(m, sender, fs, 8);
    SerialIsUsable(m, sender, fs);
    FindSender(m, sender, fs);
    InterfaceIsUsable(m);
  }

  // ---------- the bus on the way ----------

  /** What is sent stays so when the bus puts the sender's name among the fields, as
      long as the header stays within the limits. */
  lemma BusAddsSender(m: OutMessage, serial: nat, fs: seq<Field>, i: nat, name: Text)
    requires Sent(m, serial, None, fs) && i <= |fs| && 0 !in name
    requires var fs' := fs[..i] + [Field(7, Text(String), Txt(name))] + fs[i..];
             FieldsLength(fs') < 67108864 && FitsTheWire(m, serial, fs')
    ensures Sent(m, serial, Some(name), fs[..i] + [Field(7, Text(String), Txt(name))] + fs[i..])
  {
    hide Enc, FaultOf, FieldValues, HeaderBytes, HeaderAccepted, Constructed, NoneMissing, EncElems, MessageBytes,
         ArePlain, Carried, SignatureFits, FitsTheWire, InterfaceSurvives, FaultOfElems, IsBasicField;
    var f7 := Field(7, Text(String), Txt(name));
    var fs' := fs[..i] + [f7] + fs[i..];
    forall f ensures f in fs' <==> f in fs || f == f7 {
      assert fs == fs[..i] + fs[i..];
    }
    SentIsPlain(m, None, fs);
    SentIsPlain(m, Some(name), fs');
    PlainAreBasic(fs);
    PlainAreBasic(fs');
    HeaderLayout(m, serial, fs);
    HeaderLayout(m, serial, fs');
    FieldsAccepted(fs);
    FieldsAccepted(fs');
    SenderIsAccepted(f7);
  }

  lemma SenderIsAccepted(f: Field)
    requires f.t == Text(String) && f.v.Txt? && 0 !in f.v.s
    ensures Accepts(f.t, f.v, 0)
  {
  }

  lemma FieldsAccepted(fs: seq<Field>)
    requires AreBasicFields(fs)
    ensures Accepts(FIELDS_TYPE, List(FieldValues(fs)), 12) <==>
            (forall f :: f in fs ==> Accepts(f.t, f.v, 0)) && FieldsLength(fs) < 67108864
  {
    hide Enc, FaultOf, FaultOfElems, EncElems, FieldValues, IsBasicField;
    ArrayStep(FIELD_TYPE, FieldValues(fs), 12);
    FieldsFault(fs, 16);
  }

  // ---------- texts with a NUL ----------

  /** Of a message that was sent, each text reaches the receiver as it was set
      exactly when it holds no NUL. */
  lemma TextComesBackIffNoNul(m: OutMessage, serial: nat, sender: Option<Text>, fs: seq<Field>, code: byte, s: Text)
    requires Sent(m, serial, sender, fs) && code != 7 && Carried(m, code) == Some(TextField(code, KindOf(code), s))
    ensures CarriedText(m, code) == Some(s) <==> 0 !in s
  {
    hide Enc, FaultOf, FaultOfElems, FieldValues, Carried, NoneMissing, Constructed, HeaderAccepted, ArePlain,
         MessageBytes;
    var f := TextField(code, KindOf(code), s);
    assert f in fs;
    SentIsPlain(m, sender, fs);
    PlainAreBasic(fs);
    HeaderLayout(m, serial, fs);
    FieldsAccepted(fs);
    StoredTextIsWhole(KindOf(code), s);
  }

  lemma StoredTextIsWhole(k: TextKind, s: Text)
    ensures Accepts(Text(k), Stored(Text(k), Txt(s)), 0) ==> (Stored(Text(k), Txt(s)) == Txt(s) <==> 0 !in s)
  {
    UntilNulIsWhole(s);
  }

  lemma MemberComesBackIffNoNul(m: OutMessage, serial: nat, sender: Option<Text>, fs: seq<Field>)
    requires Sent(m, serial, sender, fs) && (m.kind == METHOD_CALL || m.kind == SIGNAL)
    ensures Delivered(m, serial, sender).member == m.member <==> 0 !in m.member.value
  {
    assert !RowFor(m, MEMBER_FIELD).Refuse?;
    hide Sent, TextField, UntilNul;
    TextComesBackIffNoNul(m, serial, sender, fs, MEMBER_FIELD, m.member.value);
  }
}
