/** Creating a message: its bytes in literals, and which error is raised when there
    is none. */
module Creation {
  import opened Bytes
  import opened Options
  import opened InterfaceNames
  import opened Types
  import opened Signatures
  import opened Encoding
  import opened Variants
  import opened WireFormat
  import opened OutgoingMessages
  import M = Marshaller

  // ---------- what a message holds, in literals ----------

  /** The first row of the table that refuses the message. Types 1 to 4 are calls,
      returns, errors and signals; the library keeps 254 and 255 to itself. */
  function RefusalOf(m: OutMessage): Option<CreateError> {
    if m.kind == 255 then Some(NotImplemented)
    else if (m.kind == 1 || m.kind == 4) && IsUnset(m.path) then Some(Missing(1))
    else if m.kind == 4 && IsUnset(m.interfaceName) then Some(Missing(2))
    else if (m.kind == 1 || m.kind == 4) && IsUnset(m.member) then Some(Missing(3))
    else if m.kind == 3 && IsUnset(m.errorName) then Some(Missing(4))
    else if (m.kind == 2 || m.kind == 3) && m.replySerial.None? then Some(Missing(5))
    else if m.kind == 254 then Some(NeverRequired)
    else if m.body != [] && IsUnset(m.signature) then Some(Missing(8))
    else None
  }

  function TextOf(code: byte, k: TextKind, s: Option<Text>): seq<Field> {
    if s.None? then [] else [Field(code, Text(k), Stored(Text(k), Txt(s.value)))]
  }

  /** The fields that the table asks of a message. */
  function TableFieldsOf(m: OutMessage): seq<Field> {
    (if m.kind == 1 || m.kind == 4 then TextOf(1, Path, m.path) else [])
    + (if m.kind == 4 then TextOf(2, String, m.interfaceName) else [])
    + (if m.kind == 1 || m.kind == 4 then TextOf(3, String, m.member) else [])
    + (if m.kind == 3 then TextOf(4, String, m.errorName) else [])
    + (if (m.kind == 2 || m.kind == 3) && m.replySerial.Some? then [Field(5, Fixed(UInt32), Num(m.replySerial.value))]
       else [])
    + (if m.body != [] then TextOf(8, Signature, m.signature) else [])
  }

  /** The fields a complete message carries, in the order they are pushed. A
      signature is there if and only if there is a body, a destination unless it is
      empty; the interface of anything but a signal comes behind the table's fields. */
  function FieldsOf(m: OutMessage): seq<Field> {
    TableFieldsOf(m)
    + (if m.kind != 4 then TextOf(2, String, m.interfaceName) else [])
    + (if IsUnset(m.destination) then [] else TextOf(6, String, m.destination))
  }

  lemma SelectFrom(m: OutMessage, n: nat)
    requires n < 10
    ensures RowFor(m, n).Refuse? ==> Select(m, HEADER_FIELDS[n..]) == Selection.Refused(RowFor(m, n).error)
    ensures !RowFor(m, n).Refuse? ==>
              match Select(m, HEADER_FIELDS[n + 1..])
              case Refused(e) => Select(m, HEADER_FIELDS[n..]) == Selection.Refused(e)
              case Selected(fs) => Select(m, HEADER_FIELDS[n..]) == Selected(RowFields(m, n) + fs)
  {
    hide RowFor;
    assert HEADER_FIELDS[n] == n;
    assert HEADER_FIELDS[n..] == [HEADER_FIELDS[n]] + HEADER_FIELDS[n + 1..];
    SelectStep(m, HEADER_FIELDS[n], HEADER_FIELDS[n + 1..]);
  }

  function RowFields(m: OutMessage, code: byte): seq<Field> {
    match RowFor(m, code)
    case Emit(f) => [f]
    case _ => []
  }

  function RowFieldsFrom(m: OutMessage, n: nat): seq<Field>
    decreases 10 - n
  {
    if n >= 10 then [] else RowFields(m, n) + RowFieldsFrom(m, n + 1)
  }

  lemma {:induction false} SelectedFrom(m: OutMessage, n: nat)
    requires n <= 10 && forall i: byte :: n <= i < 10 ==> !RowFor(m, i).Refuse?
    ensures Select(m, HEADER_FIELDS[n..]) == Selected(RowFieldsFrom(m, n))
    decreases 10 - n
  {
    hide RowFor, RowFields, Select;
    if n == 10 {
      SelectNothing(m, HEADER_FIELDS[10..]);
    } else {
      SelectFrom(m, n);
      SelectedFrom(m, n + 1);
    }
  }

  lemma {:induction false} RefusedFrom(m: OutMessage, n: nat, r: byte)
    requires n <= r < 10 && RowFor(m, r).Refuse? && forall i: byte :: n <= i < r ==> !RowFor(m, i).Refuse?
    ensures Select(m, HEADER_FIELDS[n..]) == Selection.Refused(RowFor(m, r).error)
    decreases 10 - n
  {
    hide RowFor, RowFields, Select;
    SelectFrom(m, n);
    if n < r {
      RefusedFrom(m, n + 1, r);
    }
  }

  /** The error of a message that lacks something is that of the first row, by code,
      that refuses it. */
  lemma RefusalInLiterals(m: OutMessage)
    ensures RefusalOf(m).Some? ==> Select(m, HEADER_FIELDS) == Selection.Refused(RefusalOf(m).value)
    ensures RefusalOf(m).None? ==>
              Select(m, HEADER_FIELDS) == Selected(RowFieldsFrom(m, 0)) && forall i: byte :: i < 10 ==>
                  !RowFor(m, i).Refuse?
  {
    hide RowFor, Select, Stored, RowFieldsFrom;
    RowsInLiterals(m);
    assert HEADER_FIELDS[0..] == HEADER_FIELDS;
    var k := m.kind;
    if RefusalOf(m).None? {
      SelectedFrom(m, 0);
    } else if k == 255 {
      RefusedFrom(m, 0, 0);
    } else if k == 254 {
      RefusedFrom(m, 0, 6);
    } else if RefusalOf(m).value.Missing? {
      RefusedFrom(m, 0, RefusalOf(m).value.code);
    }
  }

  lemma FieldsByRow(m: OutMessage)
    ensures RowFieldsFrom(m, 0) ==
            RowFields(m, 0) + (RowFields(m, 1) + (RowFields(m, 2) + (RowFields(m, 3) + (RowFields(m, 4)
            + (RowFields(m, 5) + (RowFields(m, 6) + (RowFields(m, 7) + (RowFields(m, 8) + (RowFields(m, 9) + [])))))))))
  {
    hide RowFields;
    assert RowFieldsFrom(m, 10) == [];
    assert RowFieldsFrom(m, 9) == RowFields(m, 9) + RowFieldsFrom(m, 10);
    assert RowFieldsFrom(m, 8) == RowFields(m, 8) + RowFieldsFrom(m, 9);
    assert RowFieldsFrom(m, 7) == RowFields(m, 7) + RowFieldsFrom(m, 8);
    assert RowFieldsFrom(m, 6) == RowFields(m, 6) + RowFieldsFrom(m, 7);
    assert RowFieldsFrom(m, 5) == RowFields(m, 5) + RowFieldsFrom(m, 6);
    assert RowFieldsFrom(m, 4) == RowFields(m, 4) + RowFieldsFrom(m, 5);
    assert RowFieldsFrom(m, 3) == RowFields(m, 3) + RowFieldsFrom(m, 4);
    assert RowFieldsFrom(m, 2) == RowFields(m, 2) + RowFieldsFrom(m, 3);
    assert RowFieldsFrom(m, 1) == RowFields(m, 1) + RowFieldsFrom(m, 2);
  }

  lemma TableInLiterals(m: OutMessage)
    requires RefusalOf(m).None?
    ensures RowFieldsFrom(m, 0) == TableFieldsOf(m)
  {
    hide RowFor, RowFieldsFrom, Stored;
    RowsInLiterals(m);
    FieldsByRow(m);
    assert RowFields(m, 0) == RowFields(m, 6) == RowFields(m, 7) == RowFields(m, 9) == [];
    Flatten(RowFields(m, 1), RowFields(m, 2), RowFields(m, 3), RowFields(m, 4), RowFields(m, 5), RowFields(m, 8));
  }

  lemma Flatten(a: seq<Field>, b: seq<Field>, c: seq<Field>, d: seq<Field>, e: seq<Field>, f: seq<Field>)
    ensures [] + (a + (b + (c + (d + (e + ([] + ([] + (f + ([] + []))))))))) == a + b + c + d + e + f
  {
  }

  lemma InterfaceIsInTable(m: OutMessage)
    requires RefusalOf(m).None?
    ensures HasCode(TableFieldsOf(m), INTERFACE_FIELD) <==> m.kind == 4
  {
    hide Stored;
    if m.kind == 4 {
      assert TextOf(2, String, m.interfaceName)[0] in TableFieldsOf(m);
    }
  }

  /** A message that lacks nothing carries exactly these fields. */
  lemma FieldsInLiterals(m: OutMessage)
    requires RefusalOf(m).None?
    ensures HeaderFields(m) == FieldsOf(m)
  {
    hide RowFor, Select, RowFieldsFrom, Stored, HasCode, RefusalOf, TableFieldsOf;
    RefusalInLiterals(m);
    TableInLiterals(m);
    InterfaceIsInTable(m);
  }

  /** The front of a short interface name is still one exactly when a dot stands
      before the first NUL. */
  predicate InterfaceKeepsDot(m: OutMessage) {
    m.interfaceName.Some? && |m.interfaceName.value| <= 31 ==> Code('.') in UntilNul(m.interfaceName.value)
  }

  lemma InterfaceSurvivesIff(m: OutMessage)
    requires Constructed(m)
    ensures InterfaceSurvives(m) <==> InterfaceKeepsDot(m)
  {
    if m.interfaceName.Some? {
      UntilNulIsWhole(m.interfaceName.value);
    }
  }

  // ---------- the bytes, in literals ----------

  /** A field is a struct of its code and a variant. */
  ghost predicate AreFieldValues(vs: seq<Value>, fs: seq<Field>) {
    |vs| == |fs| && forall i :: 0 <= i < |fs| ==> vs[i] == Record([Num(fs[i].code), Boxed(fs[i].t, fs[i].v)])
  }

  /** Where the field array ends and the body starts. */
  ghost predicate AreFieldsAndBody(b: seq<byte>, fs: seq<Field>, body: seq<byte>, vs: seq<Value>) {
    var a := Enc(Array(Struct([Fixed(Byte), Variant])), List(vs), 12);
    && AreFieldValues(vs, fs) && At(b, 12, a) && |b| >= |body| && At(b, |b| - |body|, body)
    && IsNext(12 + |a|, 8, |b| - |body|) && AreZeros(b, 12 + |a|, |b| - |body|)
  }

  /** An "l", the type, the flags and a 1; body length and serial; the array of fields
      at 12; zeros up to a multiple of 8; the body. */
  ghost predicate IsMessage(b: seq<byte>, m: OutMessage, serial: nat, fs: seq<Field>) {
    && |b| >= 16 && b[0] == Code('l') && b[1] == m.kind && b[2] == m.flags && b[3] == 1
    && IsNumber(b, 4, 8, |m.body| % TWO_TO_THE_32) && IsNumber(b, 8, 12, serial)
    && exists vs :: AreFieldsAndBody(b, fs, m.body, vs)
  }

  lemma {:induction false} FieldValuesInLiterals(fs: seq<Field>)
    ensures AreFieldValues(FieldValues(fs), fs)
  {
    if fs != [] {
      FieldValuesInLiterals(fs[1..]);
      forall i | 0 < i < |fs| ensures FieldValues(fs)[i] == Record([Num(fs[i].code), Boxed(fs[i].t, fs[i].v)]) {
        assert FieldValues(fs)[i] == FieldValues(fs[1..])[i - 1] && fs[i] == fs[1..][i - 1];
      }
    }
  }

  lemma FixedPartInLiterals(m: OutMessage, serial: nat, b: seq<byte>)
    requires At(b, 0, FixedPart(m, serial))
    ensures |b| >= 12 && b[0] == Code('l') && b[1] == m.kind && b[2] == m.flags && b[3] == 1
    ensures IsNumber(b, 4, 8, |m.body| % TWO_TO_THE_32) && IsNumber(b, 8, 12, serial)
  {
    hide LE, IsNumber;
    var four := [LITTLE_ENDIAN_MARK, m.kind, m.flags, PROTOCOL_VERSION];
    AtSplit3(b, 0, four, LE(|m.body| % TWO_TO_THE_32, 4), LE(serial, 4));
    assert b[0..4] == four;
    assert b[0] == b[0..4][0] && b[1] == b[0..4][1] && b[2] == b[0..4][2] && b[3] == b[0..4][3];
    NumberIsPlaced(b, 4, |m.body| % TWO_TO_THE_32, 4);
    NumberIsPlaced(b, 8, serial, 4);
  }

  lemma MessageInLiterals(m: OutMessage, serial: nat, fs: seq<Field>)
    requires HeaderAccepted(m, serial, fs)
    ensures IsMessage(MessageBytes(m, serial, fs), m, serial, fs)
  {
    hide LE, IsNumber, AreZeros, IsNext, Enc, FieldValues, FixedPart, HeaderAccepted, HeaderBytes, EncElems, PadLen,
         AreFieldValues, At, Zeros;
    var b, h, vs := MessageBytes(m, serial, fs), HeaderBytes(m, serial, fs), FieldValues(fs);
    var a, z := Enc(FIELDS_TYPE, List(vs), 12), Zeros(PadLen(|h|, 8));
    HeaderLayout(m, serial, fs);
    AtInContext([], b, []);
    assert [] + b + [] == b;
    AtSplit3(b, 0, h, z, m.body);
    AtSplit(b, 0, FixedPart(m, serial), a);
    FixedPartInLiterals(m, serial, b);
    PaddingIsPlaced(b, |h|, 8);
    FieldValuesInLiterals(fs);
    ArrayIsLong(vs);
    assert AreFieldsAndBody(b, fs, m.body, vs);
  }

  lemma ArrayIsLong(vs: seq<Value>)
    ensures |Enc(FIELDS_TYPE, List(vs), 12)| >= 4
  {
    hide EncElems, PadLen, LE;
    ArrayStep(FIELD_TYPE, vs, 12);
  }

  // ---------- creation ----------

  datatype Created = Message(bytes: seq<byte>) | Failed(error: CreateError)

  /** The message in bytes, or why there is none: a required member is missing, or
      the header cannot be marshalled. */
  method CreateDBusMessage(m: OutMessage, serial: nat) returns (r: Created)
    requires Constructed(m) && serial < TWO_TO_THE_32
    ensures r == match RefusalOf(m)
                 case Some(e) => Failed(e)
                 case None =>
                   if HeaderAccepted(m, serial, FieldsOf(m)) then Message(MessageBytes(m, serial, FieldsOf(m)))
                   else Failed(Unmarshallable)
    ensures r.Message? ==> IsMessage(r.bytes, m, serial, FieldsOf(m))
    ensures r.Message? <==> && RefusalOf(m).None? && InterfaceKeepsDot(m) && HoldsNoBadText(m)
                            && FieldsLength(FieldsOf(m)) < 67108864
  {
    hide Select, FaultOfParts, EncParts, RowFor, Complete, PadLen, CarriesExactly, FieldValues, FieldsOf, RefusalOf,
         HoldsNoBadText, FieldsLength, IsMessage, RowFieldsFrom, InterfaceSurvives,
         InterfaceKeepsDot;
    CompleteCarriesExactly(m);
    RefusalInLiterals(m);
    InterfaceSurvivesIff(m);
    if RefusalOf(m).None? {
      FieldsInLiterals(m);
      HeaderIsAcceptedIff(m, serial, FieldsOf(m));
    }
    var selected := SelectFields(m);
    if selected.Refused? {
      return Failed(selected.error);
    }
    var fields := Complete(m, selected.fields);
    if !InterfaceSurvives(m) {
      return Failed(Unmarshallable);
    }
    if HeaderAccepted(m, serial, fields) {
      MessageInLiterals(m, serial, fields);
    }
    var header := new M.Buffer();
    HeadIsTyped(m, serial, fields);
    var fault := header.MarshalParts(TopLevel, HeadTypes(FIELDS_TYPE),
                                     HeadValues(m, serial, List(FieldValues(fields))));
    if fault.Some? {
      return Failed(Unmarshallable);
    }
    assert [] + HeaderBytes(m, serial, fields) == HeaderBytes(m, serial, fields);
    var dbusMessage := new M.Buffer();
    dbusMessage.data := dbusMessage.data + header.data;
    dbusMessage.ApplyPadding(8);
    return Message(dbusMessage.data + m.body);
  }

  /** The loop over the field table. */
  method SelectFields(m: OutMessage) returns (r: Selection)
    ensures r == Select(m, HEADER_FIELDS)
  {
    hide RowFor, Select;
    var fields: seq<Field> := [];
    for i := 0 to |HEADER_FIELDS|
      invariant Select(m, HEADER_FIELDS) ==
                match Select(m, HEADER_FIELDS[i..])
                case Refused(e) => Refused(e)
                case Selected(rest) => Selected(fields + rest)
    {
      SelectStep(m, HEADER_FIELDS[i], HEADER_FIELDS[i + 1..]);
      assert HEADER_FIELDS[i..] == [HEADER_FIELDS[i]] + HEADER_FIELDS[i + 1..];
      match RowFor(m, HEADER_FIELDS[i]) {
        case Refuse(e) => return Refused(e);
        case Skip =>
        case Emit(f) =>
          ghost var tail := Select(m, HEADER_FIELDS[i + 1..]);
          assert tail.Selected? ==> fields + ([f] + tail.fields) == fields + [f] + tail.fields;
          fields := fields + [f];
      }
    }
    SelectNothing(m, HEADER_FIELDS[|HEADER_FIELDS|..]);
    assert fields + [] == fields;
    return Selected(fields);
  }
}
