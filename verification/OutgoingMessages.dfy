/** Outgoing messages: which header fields a message carries, and its bytes. */
module OutgoingMessages {
  import opened Bytes
  import opened ObjectPaths
  import opened Options
  import opened InterfaceNames
  import opened Types
  import opened Signatures
  import opened Encoding
  import opened Variants
  import opened RoundTrip

  // ---------- message types and header fields ----------

  const METHOD_CALL: byte := 1
  const METHOD_RETURN: byte := 2
  const ERROR: byte := 3
  const SIGNAL: byte := 4
  const OPTIONAL: byte := 254
  const NO_MESSAGE: byte := 255

  const INVALID_FIELD: byte := 0
  const PATH_FIELD: byte := 1
  const INTERFACE_FIELD: byte := 2
  const MEMBER_FIELD: byte := 3
  const ERROR_NAME_FIELD: byte := 4
  const REPLY_SERIAL_FIELD: byte := 5
  const DESTINATION_FIELD: byte := 6
  const SENDER_FIELD: byte := 7
  const SIGNATURE_FIELD: byte := 8

  /** The rows of the header field table, in its order. */
  const HEADER_FIELDS: seq<byte> := [0, 1, 2, 3, 4, 5, 6, 7, 8, 9]

  /** The message types a row of the table lists. */
  function RequiredFor(code: byte): set<byte> {
    if code == INVALID_FIELD then {NO_MESSAGE}
    else if code == PATH_FIELD || code == MEMBER_FIELD then {METHOD_CALL, SIGNAL}
    else if code == INTERFACE_FIELD then {SIGNAL, NO_MESSAGE}
    else if code == ERROR_NAME_FIELD then {ERROR, NO_MESSAGE}
    else if code == REPLY_SERIAL_FIELD then {ERROR, METHOD_RETURN}
    else {OPTIONAL}
  }

  datatype OutMessage = OutMessage(
    kind: byte, flags: byte, body: seq<byte>,
    member: Option<Text>, path: Option<Text>, interfaceName: Option<Text>, destination: Option<Text>,
    signature: Option<Text>, errorName: Option<Text>, replySerial: Option<nat>)

  /** What the classes of the members guarantee: a path is valid or default
      constructed, an interface name has passed its validation. */
  predicate Constructed(m: OutMessage) {
    && (m.path.Some? ==> m.path.value == [] || IsValidPath(m.path.value))
    && (m.interfaceName.Some? ==> IsInterfaceName(m.interfaceName.value))
    && (m.replySerial.Some? ==> m.replySerial.value < TWO_TO_THE_32)
  }

  /** The signature has the length the D-Bus Specification allows; the library does not check it. */
  predicate SignatureFits(m: OutMessage) {
    m.signature.Some? ==> |m.signature.value| < 256
  }

  /** A header field: its code, and the typed value in its variant. */
  datatype Field = Field(code: byte, t: Type, v: Value)

  datatype CreateError = NotImplemented | NeverRequired | Missing(code: byte) | Unmarshallable

  datatype RowOutcome = Skip | Emit(field: Field) | Refuse(error: CreateError)

  function TextField(code: byte, k: TextKind, s: Text): Field {
    Field(code, Text(k), Stored(Text(k), Txt(s)))
  }

  function TextRow(code: byte, k: TextKind, s: Option<Text>): RowOutcome {
    if s.None? || s.value == [] then Refuse(Missing(code)) else Emit(TextField(code, k, s.value))
  }

  /** What one row of the table contributes. */
  function RowFor(m: OutMessage, code: byte): RowOutcome {
    if code == SIGNATURE_FIELD then
      if m.body == [] then Skip else TextRow(code, Signature, m.signature)
    else if m.kind !in RequiredFor(code) then Skip
    else if code == INVALID_FIELD then Refuse(NotImplemented)
    else if code == REPLY_SERIAL_FIELD then
      if m.replySerial.None? then Refuse(Missing(code)) else Emit(Field(code, Fixed(UInt32), Num(m.replySerial.value)))
    else if code == ERROR_NAME_FIELD then TextRow(code, String, m.errorName)
    else if code == PATH_FIELD then TextRow(code, Path, m.path)
    else if code == INTERFACE_FIELD then TextRow(code, String, m.interfaceName)
    else if code == MEMBER_FIELD then TextRow(code, String, m.member)
    else Refuse(NeverRequired)
  }

  datatype Selection = Selected(fields: seq<Field>) | Refused(error: CreateError)

  function Select(m: OutMessage, codes: seq<byte>): Selection {
    if codes == [] then Selected([])
    else
      match RowFor(m, codes[0])
      case Refuse(e) => Refused(e)
      case Skip => Select(m, codes[1..])
      case Emit(f) =>
        match Select(m, codes[1..])
        case Refused(e) => Refused(e)
        case Selected(fs) => Selected([f] + fs)
  }

  predicate HasCode(fs: seq<Field>, code: byte) {
    exists f :: f in fs && f.code == code
  }

  /** The table's fields, then an interface the table did not ask for, then a destination. */
  function Complete(m: OutMessage, fs: seq<Field>): seq<Field> {
    var withInterface :=
      if m.interfaceName.Some? && !HasCode(fs, INTERFACE_FIELD)
      then fs + [TextField(INTERFACE_FIELD, String, m.interfaceName.value)] else fs;
    if m.destination.Some? && m.destination.value != []
    then withInterface + [TextField(DESTINATION_FIELD, String, m.destination.value)] else withInterface
  }

  function HeaderFields(m: OutMessage): seq<Field> {
    match Select(m, HEADER_FIELDS)
    case Selected(fs) => Complete(m, fs)
    case Refused(_) => []
  }

  // ---------- the fields of a message, stated once per code ----------

  /** The field with the given code that a message carries, if any. */
  function Carried(m: OutMessage, code: byte): Option<Field> {
    if code == INTERFACE_FIELD then
      if m.interfaceName.Some? then Some(TextField(code, String, m.interfaceName.value)) else None
    else if code == DESTINATION_FIELD then
      if m.destination.Some? && m.destination.value != []
      then Some(TextField(code, String, m.destination.value)) else None
    else if code in HEADER_FIELDS then
      match RowFor(m, code)
      case Emit(f) => Some(f)
      case _ => None
    else None
  }

  /** `fs` holds exactly the fields the message carries, in any order. */
  ghost predicate CarriesExactly(fs: seq<Field>, m: OutMessage) {
    forall f :: f in fs <==> Carried(m, f.code) == Some(f)
  }

  /** No row of the table refuses the message. */
  predicate NoneMissing(m: OutMessage) {
    forall code :: code in HEADER_FIELDS ==> !RowFor(m, code).Refuse?
  }

  lemma RowKeepsItsCode(m: OutMessage, code: byte)
    ensures RowFor(m, code).Emit? ==> RowFor(m, code).field.code == code
  {
  }

  lemma {:induction false} SelectIsRowByRow(m: OutMessage, codes: seq<byte>)
    ensures Select(m, codes).Refused? <==> exists code :: code in codes && RowFor(m, code).Refuse?
    ensures Select(m, codes).Selected? ==>
              forall f :: f in Select(m, codes).fields <==> f.code in codes && RowFor(m, f.code) == Emit(f)
  {
    hide RowFor;
    if codes != [] {
      RowKeepsItsCode(m, codes[0]);
      SelectIsRowByRow(m, codes[1..]);
      assert codes == [codes[0]] + codes[1..];
    }
  }

  /** The table accepts a message exactly when no row refuses it, and then the
      completed list carries exactly the message's fields. */
  lemma CompleteCarriesExactly(m: OutMessage)
    requires Constructed(m)
    ensures Select(m, HEADER_FIELDS).Selected? <==> NoneMissing(m)
    ensures NoneMissing(m) ==> CarriesExactly(HeaderFields(m), m)
  {
    hide Select;
    SelectIsRowByRow(m, HEADER_FIELDS);
    if Select(m, HEADER_FIELDS).Selected? {
      var fs := Select(m, HEADER_FIELDS).fields;
      var all := Complete(m, fs);
      assert RowFor(m, DESTINATION_FIELD).Skip?;
      assert RowFor(m, INTERFACE_FIELD).Skip? ||
          RowFor(m, INTERFACE_FIELD) == Emit(TextField(INTERFACE_FIELD, String, m.interfaceName.value));
      if m.interfaceName.Some? && m.kind in RequiredFor(INTERFACE_FIELD) {
        assert TextField(INTERFACE_FIELD, String, m.interfaceName.value) in fs;
      }
      forall f ensures f in all <==> Carried(m, f.code) == Some(f) {
      }
    }
  }

  // ---------- the rows, in literals ----------

  predicate IsUnset(s: Option<Text>) {
    s.None? || s.value == []
  }

  function TextRowOf(code: byte, k: TextKind, s: Option<Text>): RowOutcome {
    if IsUnset(s) then Refuse(Missing(code)) else Emit(Field(code, Text(k), Stored(Text(k), Txt(s.value))))
  }

  lemma RowsInLiterals(m: OutMessage)
    ensures RowFor(m, 0) == if m.kind == 255 then Refuse(NotImplemented) else Skip
    ensures RowFor(m, 1) == if m.kind == 1 || m.kind == 4 then TextRowOf(1, Path, m.path) else Skip
    ensures m.kind != 255 ==> RowFor(m, 2) == if m.kind == 4 then TextRowOf(2, String, m.interfaceName) else Skip
    ensures RowFor(m, 3) == if m.kind == 1 || m.kind == 4 then TextRowOf(3, String, m.member) else Skip
    ensures m.kind != 255 ==> RowFor(m, 4) == if m.kind == 3 then TextRowOf(4, String, m.errorName) else Skip
    ensures RowFor(m, 5) ==
            if m.kind != 2 && m.kind != 3 then Skip
            else if m.replySerial.None? then Refuse(Missing(5))
            else Emit(Field(5, Fixed(UInt32), Num(m.replySerial.value)))
    ensures RowFor(m, 6) == RowFor(m, 7) == RowFor(m, 9) == if m.kind == 254 then Refuse(NeverRequired) else Skip
    ensures RowFor(m, 8) == if m.body == [] then Skip else TextRowOf(8, Signature, m.signature)
  {
    hide Stored;
  }

  // ---------- the bytes ----------

  const LITTLE_ENDIAN_MARK: byte := 108
  const PROTOCOL_VERSION: byte := 1

  /** A header field is a struct of a byte and a variant. */
  const FIELD_TYPE: Type := Struct([Fixed(Byte), Variant])

  const FIELDS_TYPE: Type := Array(FIELD_TYPE)

  function FieldValue(f: Field): Value {
    Record([Num(f.code), Boxed(f.t, f.v)])
  }

  function FieldValues(fs: seq<Field>): (vs: seq<Value>)
    ensures |vs| == |fs|
  {
    if fs == [] then [] else [FieldValue(fs[0])] + FieldValues(fs[1..])
  }

  /** Four bytes, two numbers, and whatever stands at position 12. */
  function HeadTypes(last: Type): seq<Type> {
    [Fixed(Byte), Fixed(Byte), Fixed(Byte), Fixed(Byte), Fixed(UInt32), Fixed(UInt32), last]
  }

  function HeadValues(m: OutMessage, serial: nat, last: Value): seq<Value> {
    [Num(LITTLE_ENDIAN_MARK), Num(m.kind), Num(m.flags), Num(PROTOCOL_VERSION), Num(|m.body| % TWO_TO_THE_32),
     Num(serial), last]
  }

  function HeaderBytes(m: OutMessage, serial: nat, fs: seq<Field>): seq<byte> {
    EncParts(TopLevel, HeadTypes(FIELDS_TYPE), HeadValues(m, serial, List(FieldValues(fs))), 0)
  }

  function MessageBytes(m: OutMessage, serial: nat, fs: seq<Field>): seq<byte> {
    var h := HeaderBytes(m, serial, fs);
    h + Zeros(PadLen(|h|, 8)) + m.body
  }

  /** An interface name kept as a short C string is validated again when it is marshalled. */
  predicate InterfaceSurvives(m: OutMessage) {
    m.interfaceName.Some? ==> IsInterfaceName(Stored(Text(String), Txt(m.interfaceName.value)).s)
  }

  predicate HeaderAccepted(m: OutMessage, serial: nat, fs: seq<Field>) {
    InterfaceSurvives(m)
    && AcceptsParts(TopLevel, HeadTypes(FIELDS_TYPE), HeadValues(m, serial, List(FieldValues(fs))), 0)
  }

  // ---------- fields are typed, and easy to read ----------

  /** A field as the library makes them: a basic value of a known type. */
  predicate IsBasicField(f: Field) {
    IsBasic(f.t) && f.t != Fixed(Bool) && Typed(f.t, f.v)
  }

  predicate AreBasicFields(fs: seq<Field>) {
    forall f :: f in fs ==> IsBasicField(f)
  }

  /** One that a receiver can read back. */
  predicate IsPlain(f: Field) {
    IsBasicField(f) && Readable(f.t, f.v)
  }

  predicate ArePlain(fs: seq<Field>) {
    forall f :: f in fs ==> IsPlain(f)
  }

  lemma TextFieldIsBasic(code: byte, k: TextKind, s: Text)
    requires k.Path? ==> IsValidPath(s)
    ensures IsBasicField(TextField(code, k, s))
    ensures (k.Signature? ==> |s| < 256) ==> IsPlain(TextField(code, k, s))
  {
    UntilNulIsWhole(s);
    if k.Path? {
      PathHasNoNul(s);
    }
  }

  lemma PathHasNoNul(s: Text)
    requires IsValidPath(s)
    ensures 0 !in s
  {
    if IsSlashed(s) {
      forall i | 0 <= i < |s| ensures s[i] != 0 {
        assert FitsAt(s, i);
      }
    }
  }

  lemma CarriedIsBasic(m: OutMessage, code: byte)
    requires Constructed(m) && Carried(m, code).Some?
    ensures IsBasicField(Carried(m, code).value)
    ensures SignatureFits(m) ==> IsPlain(Carried(m, code).value)
  {
    hide Typed, Readable;
    if code == REPLY_SERIAL_FIELD {
      SerialFieldIsPlain(m.replySerial.value);
    } else if code == SIGNATURE_FIELD {
      TextFieldIsBasic(code, Signature, m.signature.value);
    } else if code == PATH_FIELD {
      TextFieldIsBasic(code, Path, m.path.value);
    } else if code == INTERFACE_FIELD {
      TextFieldIsBasic(code, String, m.interfaceName.value);
    } else if code == DESTINATION_FIELD {
      TextFieldIsBasic(code, String, m.destination.value);
    } else if code == MEMBER_FIELD {
      TextFieldIsBasic(code, String, m.member.value);
    } else {
      TextFieldIsBasic(code, String, m.errorName.value);
    }
  }

  lemma SerialFieldIsPlain(n: nat)
    requires n < TWO_TO_THE_32
    ensures IsPlain(Field(REPLY_SERIAL_FIELD, Fixed(UInt32), Num(n)))
  {
    Pow256Values();
  }

  lemma CarriedAreBasic(m: OutMessage, fs: seq<Field>)
    requires Constructed(m) && CarriesExactly(fs, m)
    ensures AreBasicFields(fs)
    ensures SignatureFits(m) ==> ArePlain(fs)
  {
    hide Carried, IsPlain, IsBasicField, SignatureFits, Constructed;
    forall f | f in fs ensures IsBasicField(f) && (SignatureFits(m) ==> IsPlain(f)) {
      CarriedIsBasic(m, f.code);
    }
  }

  lemma FieldTypeIsWellFormed()
    ensures WellFormed(FIELD_TYPE) && WellFormed(FIELDS_TYPE)
  {
    var ts := [Fixed(Byte), Variant];
    assert ts[1..] == [Variant] && ts[1..][1..] == [];
    OneMoreType(ts[1..]);
    OneMoreType(ts);
  }

  lemma FieldIsTyped(f: Field)
    requires IsBasicField(f)
    ensures Typed(FIELD_TYPE, FieldValue(f))
    ensures IsPlain(f) ==> Readable(FIELD_TYPE, FieldValue(f))
  {
    hide IsPlain, IsBasicField;
    var ts, vs := [Fixed(Byte), Variant], [Num(f.code), Boxed(f.t, f.v)];
    BasicPayload(f);
    assert ts[1..] == [Variant] && vs[1..] == [Boxed(f.t, f.v)];
    assert ts[1..][1..] == [] && vs[1..][1..] == [];
    Pow256Values();
    OneMore(ts[1..], vs[1..]);
    OneMore(ts, vs);
  }

  lemma BasicPayload(f: Field)
    requires IsBasicField(f)
    ensures Typed(Variant, Boxed(f.t, f.v))
    ensures IsPlain(f) ==> Readable(Variant, Boxed(f.t, f.v))
  {
  }

  lemma {:induction false} FieldsAreTyped(fs: seq<Field>)
    requires AreBasicFields(fs)
    ensures AllTyped(FIELD_TYPE, FieldValues(fs))
    ensures ArePlain(fs) ==> ElemsReadable(FIELD_TYPE, FieldValues(fs))
  {
    hide IsPlain, IsBasicField, Typed, Readable, FieldValue;
    if fs != [] {
      FieldIsTyped(fs[0]);
      FieldsAreTyped(fs[1..]);
    }
  }

  lemma HeadIsTyped(m: OutMessage, serial: nat, fs: seq<Field>)
    requires Constructed(m) && serial < TWO_TO_THE_32 && CarriesExactly(fs, m)
    ensures AllWellFormed(HeadTypes(FIELDS_TYPE))
    ensures PartsTyped(HeadTypes(FIELDS_TYPE), HeadValues(m, serial, List(FieldValues(fs))))
    ensures Typed(FIELDS_TYPE, List(FieldValues(fs)))
    ensures SignatureFits(m) ==> Readable(FIELDS_TYPE, List(FieldValues(fs)))
  {
    hide Typed, Readable, WellFormed, ArePlain, AreBasicFields, CarriesExactly, FieldValues, SignatureFits, Constructed;
    CarriedAreBasic(m, fs);
    FieldListIsTyped(fs);
    FieldTypeIsWellFormed();
    HeadIsTypedBefore(m, serial, FIELDS_TYPE, List(FieldValues(fs)));
  }

  lemma FieldListIsTyped(fs: seq<Field>)
    requires AreBasicFields(fs)
    ensures Typed(FIELDS_TYPE, List(FieldValues(fs)))
    ensures ArePlain(fs) ==> Readable(FIELDS_TYPE, List(FieldValues(fs)))
  {
    hide ArePlain, AreBasicFields, FieldValues, AllTyped, ElemsReadable;
    FieldsAreTyped(fs);
  }

  lemma HeadIsTypedBefore(m: OutMessage, serial: nat, t: Type, v: Value)
    requires serial < TWO_TO_THE_32 && WellFormed(t) && Typed(t, v)
    ensures AllWellFormed(HeadTypes(t)) && PartsTyped(HeadTypes(t), HeadValues(m, serial, v))
    ensures Readable(t, v) ==> PartsReadable(HeadTypes(t), HeadValues(m, serial, v))
  {
    var ts, vs := HeadTypes(t), HeadValues(m, serial, v);
    Pow256Values();
    OneMore(ts[6..], vs[6..]);
    OneMore(ts[5..], vs[5..]);
    OneMore(ts[4..], vs[4..]);
    OneMore(ts[3..], vs[3..]);
    OneMore(ts[2..], vs[2..]);
    OneMore(ts[1..], vs[1..]);
    OneMore(ts, vs);
  }

  lemma OneMoreType(ts: seq<Type>)
    requires ts != [] && WellFormed(ts[0]) && AllWellFormed(ts[1..])
    ensures AllWellFormed(ts)
  {
  }

  lemma OneMore(ts: seq<Type>, vs: seq<Value>)
    requires ts != [] && vs != [] && WellFormed(ts[0]) && Typed(ts[0], vs[0])
    ensures AllWellFormed(ts[1..]) ==> AllWellFormed(ts)
    ensures PartsTyped(ts[1..], vs[1..]) ==> PartsTyped(ts, vs)
    ensures PartsReadable(ts[1..], vs[1..]) && Readable(ts[0], vs[0]) ==> PartsReadable(ts, vs)
  {
  }

  // ---------- the layout of a header ----------

  function FixedPart(m: OutMessage, serial: nat): (s: seq<byte>)
    ensures |s| == 12
  {
    [LITTLE_ENDIAN_MARK, m.kind, m.flags, PROTOCOL_VERSION] + LE(|m.body| % TWO_TO_THE_32, 4) + LE(serial, 4)
  }

  lemma ByteFirst(ts: seq<Type>, n: byte, vs: seq<Value>, p: nat)
    requires |ts| > 0 && |vs| == |ts| && (AlignmentOf(ts[0]) == 1 || (AlignmentOf(ts[0]) == 4 && p % 4 == 3))
    ensures EncParts(TopLevel, [Fixed(Byte)] + ts, [Num(n)] + vs, p) == [n] + EncParts(TopLevel, ts, vs, p + 1)
    ensures AcceptsParts(TopLevel, [Fixed(Byte)] + ts, [Num(n)] + vs, p) == AcceptsParts(TopLevel, ts, vs, p + 1)
  {
    hide EncParts, FaultOfParts, AlignmentOf;
    var us, ws := [Fixed(Byte)] + ts, [Num(n)] + vs;
    assert us[1..] == ts && ws[1..] == vs && us[0] == Fixed(Byte) && ws[0] == Num(n);
    PartsStep(TopLevel, us, ws, p);
    assert LE(n, 1) == [n] + LE(n / 256, 0);
    ThenFour(p);
  }

  lemma ThenFour(p: nat)
    ensures PadLen(p, 1) == 0
    ensures p % 4 == 3 ==> PadLen(p + 1, 4) == 0
    ensures p % 4 == 0 ==> PadLen(p, 4) == 0
  {
    Mod4(p);
  }

  lemma NumberFirst(ts: seq<Type>, n: nat, vs: seq<Value>, p: nat)
    requires |ts| > 0 && |vs| == |ts| && AlignmentOf(ts[0]) == 4 && p % 4 == 0
    ensures EncParts(TopLevel, [Fixed(UInt32)] + ts, [Num(n)] + vs, p) == LE(n, 4) + EncParts(TopLevel, ts, vs, p + 4)
    ensures AcceptsParts(TopLevel, [Fixed(UInt32)] + ts, [Num(n)] + vs, p) == AcceptsParts(TopLevel, ts, vs, p + 4)
  {
    hide EncParts, FaultOfParts, AlignmentOf, LE;
    var us, ws := [Fixed(UInt32)] + ts, [Num(n)] + vs;
    assert us[1..] == ts && ws[1..] == vs && us[0] == Fixed(UInt32) && ws[0] == Num(n);
    PartsStep(TopLevel, us, ws, p);
    ThenFour(p + 4);
  }

  lemma OnlyPart(t: Type, v: Value, p: nat)
    ensures EncParts(TopLevel, [t], [v], p) == Enc(t, v, p)
    ensures AcceptsParts(TopLevel, [t], [v], p) == Accepts(t, v, p)
  {
    hide EncParts, FaultOfParts, Enc, FaultOf;
    PartsStep(TopLevel, [t], [v], p);
    NoParts(TopLevel, [t][1..], [v][1..], NextPart(TopLevel, [t], [v], p));
  }

  /** Twelve fixed bytes, then the last part at position 12. */
  lemma HeadLayout(m: OutMessage, serial: nat, t: Type, v: Value)
    requires AlignmentOf(t) == 4
    ensures EncParts(TopLevel, HeadTypes(t), HeadValues(m, serial, v), 0) == FixedPart(m, serial) + Enc(t, v, 12)
    ensures AcceptsParts(TopLevel, HeadTypes(t), HeadValues(m, serial, v), 0) == Accepts(t, v, 12)
  {
    hide EncParts, FaultOfParts, AlignmentOf, LE, Enc, FaultOf;
    ByteAndNumberAlign();
    var n := |m.body| % TWO_TO_THE_32;
    var t6, v6 := [t], [v];
    var t5, v5 := [Fixed(UInt32)] + t6, [Num(serial)] + v6;
    var t4, v4 := [Fixed(UInt32)] + t5, [Num(n)] + v5;
    var t3, v3 := [Fixed(Byte)] + t4, [Num(PROTOCOL_VERSION)] + v4;
    var t2, v2 := [Fixed(Byte)] + t3, [Num(m.flags)] + v3;
    var t1, v1 := [Fixed(Byte)] + t2, [Num(m.kind)] + v2;
    OnlyPart(t, v, 12);
    NumberFirst(t6, serial, v6, 8);
    NumberFirst(t5, n, v5, 4);
    ByteFirst(t4, PROTOCOL_VERSION, v4, 3);
    ByteFirst(t3, m.flags, v3, 2);
    ByteFirst(t2, m.kind, v2, 1);
    ByteFirst(t1, LITTLE_ENDIAN_MARK, v1, 0);
    assert [Fixed(Byte)] + t1 == HeadTypes(t) && [Num(LITTLE_ENDIAN_MARK)] + v1 == HeadValues(m, serial, v);
  }

  lemma ByteAndNumberAlign()
    ensures AlignmentOf(Fixed(Byte)) == 1 && AlignmentOf(Fixed(UInt32)) == 4
  {
  }

  /** Basic values are the same bytes anywhere. */
  lemma PlainAnywhere(t: Type, v: Value, p: nat)
    requires IsBasic(t) && Typed(t, v)
    ensures Enc(t, v, p) == Enc(t, v, 0)
    ensures Accepts(t, v, p) == Accepts(t, v, 0)
  {
  }

  lemma StructEnc(ts: seq<Type>, vs: seq<Value>, p: nat)
    ensures Enc(Struct(ts), Record(vs), p) == EncParts(InStruct, ts, vs, p)
  {
    hide EncParts;
  }

  lemma HeaderLayout(m: OutMessage, serial: nat, fs: seq<Field>)
    ensures HeaderBytes(m, serial, fs) == FixedPart(m, serial) + Enc(FIELDS_TYPE, List(FieldValues(fs)), 12)
    ensures HeaderAccepted(m, serial, fs) <==> InterfaceSurvives(m) && Accepts(FIELDS_TYPE, List(FieldValues(fs)), 12)
    ensures Enc(FIELDS_TYPE, List(FieldValues(fs)), 12) ==
            LE(|EncElems(FIELD_TYPE, FieldValues(fs), 16)|, 4) + EncElems(FIELD_TYPE, FieldValues(fs), 16)
  {
    hide Enc, FaultOf, EncElems, FieldValues, EncParts, FaultOfParts, LE, FaultOfElems, InterfaceSurvives;
    HeadLayout(m, serial, FIELDS_TYPE, List(FieldValues(fs)));
    ArrayStep(FIELD_TYPE, FieldValues(fs), 12);
    assert AlignUp(12 + 4, AlignmentOf(FIELD_TYPE)) == 16;
    var n := LE(|EncElems(FIELD_TYPE, FieldValues(fs), 16)|, 4);
    assert n + Zeros(0) == n;
  }

  // ---------- when a header is accepted ----------

  lemma OneFieldFault(f: Field, p: nat)
    requires IsBasicField(f)
    ensures FaultOf(FIELD_TYPE, FieldValue(f), p) == FaultOf(f.t, f.v, 0)
  {
    hide Typed, Sig, PadLen, AlignmentOf, Enc, EncParts, FaultOfParts;
    var ts, vs := [Fixed(Byte), Variant], [Num(f.code), Boxed(f.t, f.v)];
    var q := NextPart(InStruct, ts, vs, p);
    assert FaultOf(FIELD_TYPE, FieldValue(f), p) == FaultOfParts(InStruct, ts, vs, p);
    PartsStep(InStruct, ts, vs, p);
    assert ts[1..] == [Variant] && vs[1..] == [Boxed(f.t, f.v)];
    PartsStep(InStruct, ts[1..], vs[1..], q);
    NoParts(InStruct, ts[1..][1..], vs[1..][1..], NextPart(InStruct, ts[1..], vs[1..], q));
    BoxStep(f.t, f.v, q);
    PlainAnywhere(f.t, f.v, PayloadStart(f.t, q));
  }

  lemma {:induction false} FieldsFault(fs: seq<Field>, p: nat)
    requires AreBasicFields(fs)
    ensures AcceptsElems(FIELD_TYPE, FieldValues(fs), p) <==> forall f :: f in fs ==> Accepts(f.t, f.v, 0)
  {
    hide Enc, FaultOf, IsBasicField, EncElems, FaultOfElems, FieldValue, NextElem;
    var vs := FieldValues(fs);
    if fs == [] {
      NoElems(FIELD_TYPE, p);
    } else {
      assert vs[0] == FieldValue(fs[0]) && vs[1..] == FieldValues(fs[1..]);
      ElemsStep(FIELD_TYPE, vs, p);
      OneFieldFault(fs[0], p);
      FieldsFault(fs[1..], NextElem(FIELD_TYPE, vs, p));
      assert fs == [fs[0]] + fs[1..];
    }
  }

  function FieldsLength(fs: seq<Field>): nat {
    |EncElems(FIELD_TYPE, FieldValues(fs), 16)|
  }

  /** The text that was set for a field. */
  function SetText(m: OutMessage, code: byte): Option<Text> {
    if code == PATH_FIELD then m.path
    else if code == INTERFACE_FIELD then m.interfaceName
    else if code == MEMBER_FIELD then m.member
    else if code == ERROR_NAME_FIELD then m.errorName
    else if code == DESTINATION_FIELD then m.destination
    else if code == SIGNATURE_FIELD then m.signature
    else None
  }

  /** A text too long for a variant's inline buffer is marshalled as it is, NUL and all. */
  predicate HoldsBadText(m: OutMessage, code: byte) {
    Carried(m, code).Some? && SetText(m, code).Some?
    && |SetText(m, code).value| > 31 && 0 in SetText(m, code).value
  }

  ghost predicate HoldsNoBadText(m: OutMessage) {
    forall code :: !HoldsBadText(m, code)
  }

  lemma FieldIsAcceptedIff(m: OutMessage, code: byte)
    requires Constructed(m) && Carried(m, code).Some?
    ensures var f := Carried(m, code).value; Accepts(f.t, f.v, 0) <==> !HoldsBadText(m, code)
  {
    if SetText(m, code).Some? {
      UntilNulIsWhole(SetText(m, code).value);
    }
  }

  /** The header is accepted exactly when the interface, as it will be shown, is
      still a valid name, no text of more than 31 bytes in it holds a NUL, and the
      field array is below 64 MiB. */
  lemma HeaderIsAcceptedIff(m: OutMessage, serial: nat, fs: seq<Field>)
    requires Constructed(m) && CarriesExactly(fs, m)
    ensures HeaderAccepted(m, serial, fs)
            <==> InterfaceSurvives(m) && HoldsNoBadText(m) && FieldsLength(fs) < 67108864
  {
    hide Enc, FaultOf, FaultOfParts, FaultOfElems, EncElems, FieldValues, InterfaceSurvives, Constructed,
         HoldsBadText, Carried;
    CarriedAreBasic(m, fs);
    HeadLayout(m, serial, FIELDS_TYPE, List(FieldValues(fs)));
    ArrayStep(FIELD_TYPE, FieldValues(fs), 12);
    FieldsFault(fs, 16);
    forall code | Carried(m, code).Some?
      ensures Carried(m, code).value in fs
      ensures Accepts(Carried(m, code).value.t, Carried(m, code).value.v, 0) <==> !HoldsBadText(m, code)
    {
      CarriedHasItsCode(m, code);
      FieldIsAcceptedIff(m, code);
    }
    NothingCarriedIsFine(m);
  }

  lemma NothingCarriedIsFine(m: OutMessage)
    ensures forall code :: Carried(m, code).None? ==> !HoldsBadText(m, code)
  {
  }

  lemma CarriedHasItsCode(m: OutMessage, code: byte)
    ensures Carried(m, code).Some? ==> Carried(m, code).value.code == code
  {
    RowKeepsItsCode(m, code);
  }

  lemma SelectStep(m: OutMessage, code: byte, codes: seq<byte>)
    ensures Select(m, [code] + codes) ==
            match RowFor(m, code)
            case Refuse(e) => Refused(e)
            case Skip => Select(m, codes)
            case Emit(f) =>
              match Select(m, codes)
              case Refused(e) => Refused(e)
              case Selected(fs) => Selected([f] + fs)
  {
    hide RowFor;
    assert ([code] + codes)[1..] == codes;
  }

  lemma SelectNothing(m: OutMessage, codes: seq<byte>)
    requires codes == []
    ensures Select(m, codes) == Selected([])
  {
  }
}
