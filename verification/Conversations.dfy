/** A call and its answer: the serial a caller waits under travels out in the call's
    header, back in the answer's, and routes the answer to that caller; the sender's
    name that the bus puts into the call is where the answer is sent. */
module Conversations {
  import opened Bytes
  import opened Options
  import opened Types
  import opened Signatures
  import opened Encoding
  import opened RoundTrip
  import opened Variants
  import opened Bodies
  import opened OutgoingMessages
  import opened Creation
  import opened IncomingMessages
  import opened Framing
  import T = ReplyTable
  import R = ReplyRouting

  function ReplyTo(request: Incoming): OutMessage {
    OutMessage(METHOD_RETURN, 0, [], None, None, None, request.sender, None, None, Some(request.serial))
  }

  /** None where the error's text cannot be marshalled. */
  function ErrorTo(request: Incoming, errorName: Text, text: Text): Option<OutMessage> {
    var ts, vs := [Text(String)], [Txt(text)];
    if !AcceptsParts(TopLevel, ts, vs, 0) then None
    else
      Some(OutMessage(ERROR, 0, EncParts(TopLevel, ts, vs, 0), None, None, None, request.sender, Some(Sigs(ts)),
                      Some(errorName), Some(request.serial)))
  }

  // ---------- whom an answer goes to, and what it says, in literals ----------

  function SerialField(request: Incoming): Field {
    Field(5, Fixed(UInt32), Num(request.serial))
  }

  /** The destination is the request's sender. */
  function Address(request: Incoming): seq<Field> {
    if IsUnset(request.sender) then [] else [Field(6, Text(String), Stored(Text(String), Txt(request.sender.value)))]
  }

  lemma ReplyInLiterals(request: Incoming)
    ensures RefusalOf(ReplyTo(request)).None?
    ensures ReplyTo(request).kind == 2 && ReplyTo(request).flags == 0 && ReplyTo(request).body == []
    ensures HeaderFields(ReplyTo(request)) == [SerialField(request)] + Address(request)
  {
    hide Stored, RefusalOf, FieldsOf;
    ReplyFields(request);
    FieldsInLiterals(ReplyTo(request));
  }

  lemma ReplyFields(request: Incoming)
    ensures RefusalOf(ReplyTo(request)).None?
    ensures FieldsOf(ReplyTo(request)) == [SerialField(request)] + Address(request)
  {
    hide Stored;
  }

  /** An error there is exactly if its text holds no NUL; it names the error and the
      request, and its body is read as exactly the text. */
  lemma ErrorInLiterals(request: Incoming, errorName: Text, text: Text)
    requires errorName != [] && |text| < 0x8000_0000
    ensures ErrorTo(request, errorName, text).Some? <==> Code('\0') !in text
    ensures ErrorTo(request, errorName, text).Some? ==>
              var e := ErrorTo(request, errorName, text).value;
              && RefusalOf(e).None? && e.kind == 3 && e.flags == 0
              && HeaderFields(e) == [Field(4, Text(String), Stored(Text(String), Txt(errorName))), SerialField(request),
                                     Field(8, Text(TextKind.Signature), Txt([Code('s')]))] + Address(request)
              && ReadBody([Text(String)], [Code('s')], e.body) == Body([Txt(text)])
  {
    hide Stored, RefusalOf, FieldsOf, Sigs, ErrorTo, EncParts, FaultOfParts, Address, ReadBody, Sig;
    OneText(text);
    ErrorIs(request, errorName, text);
    if Code('\0') !in text {
      var e := ErrorTo(request, errorName, text).value;
      ErrorFields(request, errorName, text);
      FieldsInLiterals(e);
      TextBody(text);
    }
  }

  lemma OneText(text: Text)
    ensures AcceptsParts(TopLevel, [Text(String)], [Txt(text)], 0) <==> Code('\0') !in text
    ensures EncParts(TopLevel, [Text(String)], [Txt(text)], 0) == EncText(String, text)
    ensures Sigs([Text(String)]) == [Code('s')]
  {
    hide EncParts, FaultOfParts, Enc, EncText, FaultOf;
    OnlyPart(Text(String), Txt(text), 0);
    TextAlone(text);
    SignaturesOfLists(Text(String), []);
    assert [Text(String)] + [] == [Text(String)];
  }

  lemma TextAlone(text: Text)
    ensures Enc(Text(String), Txt(text), 0) == EncText(String, text)
    ensures Accepts(Text(String), Txt(text), 0) <==> Code('\0') !in text
    ensures Sig(Text(String)) + [] == [Code('s')]
  {
    hide EncText;
  }

  lemma ErrorIs(request: Incoming, errorName: Text, text: Text)
    ensures ErrorTo(request, errorName, text) ==
            if Code('\0') in text then None
            else Some(OutMessage(3, 0, EncText(String, text), None, None, None, request.sender, Some([Code('s')]),
                                 Some(errorName), Some(request.serial)))
  {
    hide EncParts, FaultOfParts, EncText, Sigs;
    OneText(text);
  }

  lemma ErrorFields(request: Incoming, errorName: Text, text: Text)
    requires errorName != [] && Code('\0') !in text
    ensures var e := ErrorTo(request, errorName, text);
            && e.Some? && RefusalOf(e.value).None?
            && FieldsOf(e.value) == [Field(4, Text(String), Stored(Text(String), Txt(errorName))), SerialField(request),
                                     Field(8, Text(TextKind.Signature), Txt([Code('s')]))] + Address(request)
  {
    hide ErrorTo, EncText, Stored;
    ErrorIs(request, errorName, text);
    ShortSignatureStays();
  }

  lemma ShortSignatureStays()
    ensures Stored(Text(TextKind.Signature), Txt([Code('s')])) == Txt([Code('s')])
  {
    UntilNulIsWhole([Code('s')]);
  }

  lemma TextBody(text: Text)
    requires |text| < 0x8000_0000 && Code('\0') !in text
    ensures ReadBody([Text(String)], [Code('s')], EncText(String, text)) == Body([Txt(text)])
  {
    hide EncText, ReadBody, EncParts, FaultOfParts, Sigs, ReceivedParts, LE;
    OneText(text);
    TextLength(text);
    TextIsPart(text);
    BodyRoundTrip([Text(String)], [Txt(text)], [Text(String)]);
  }

  lemma TextLength(text: Text)
    ensures |EncText(String, text)| == |text| + 5
  {
    hide LE;
  }

  lemma TextIsPart(text: Text)
    ensures AllWellFormed([Text(String)]) && PartsTyped([Text(String)], [Txt(text)])
    ensures PartsReadable([Text(String)], [Txt(text)]) && AllVariantFree([Text(String)])
  {
    assert [Text(String)][1..] == [] && [Txt(text)][1..] == [];
  }

  // ---------- the way back ----------

  /** A reply or an error to the request, as built from it or with more set on it. */
  predicate Answers(m: OutMessage, request: Incoming) {
    (m.kind == 2 || m.kind == 3) && m.replySerial == Some(request.serial) && m.destination == request.sender
  }

  lemma RepliesAndErrorsAnswer(request: Incoming, errorName: Text, text: Text)
    requires request.serial < TWO_TO_THE_32 && errorName != []
    ensures Answers(ReplyTo(request), request) && Constructed(ReplyTo(request)) && NoneMissing(ReplyTo(request))
    ensures ErrorTo(request, errorName, text).Some? ==>
              var e := ErrorTo(request, errorName, text).value; Answers(e, request) && Constructed(e) && NoneMissing(e)
  {
    hide EncParts, FaultOfParts;
    assert Sigs([Text(String)]) != [];
  }

  /** A received message with a reply serial is a reply to be routed. */
  function Routed(d: Incoming): Option<R.Event<Incoming>> {
    if d.replySerial.Some? then Some(R.Deliver(T.Reply(d.replySerial.value, d))) else None
  }

  /** The answer is addressed to the request's sender, and comes out of the byte stream
      with the serial of the request. */
  lemma AnswerNamesItsRequest(request: Incoming, answer: OutMessage, serial: nat, sender: Option<Text>, fs: seq<Field>,
                              rest: seq<byte>)
    requires Answers(answer, request) && Sent(answer, serial, sender, fs)
    ensures forall f :: f in fs && f.code == 6 <==> f in Address(request)
    ensures var d := Delivered(answer, serial, sender);
            && ReadFrame(MessageBytes(answer, serial, fs) + rest)
               == Whole(Accepted(d), |MessageBytes(answer, serial, fs)|)
            && Routed(d) == Some(R.Deliver(T.Reply(request.serial, d)))
  {
    hide ReadFrame, NoneMissing, Constructed, HeaderAccepted, FitsTheWire, Stored;
    FrameRoundTrip(answer, serial, sender, fs, rest);
    DeliveredInOwnTerms(answer, serial, sender);
  }

  /** Whatever else is in flight: when a call that was handed to the socket under
      serial `n` has been passed on in the caller's name, read and answered, the answer
      is addressed to the caller, its bytes are read as a reply that is never unknown,
      and that call's caller finds exactly that reply. */
  lemma CallIsAnswered(s: R.System<Incoming>, n: nat, call: OutMessage, caller: Option<Text>, callFields: seq<Field>,
                       behindCall: seq<byte>, answer: OutMessage, serial: nat, callee: Option<Text>,
                       answerFields: seq<Field>, behindAnswer: seq<byte>)
    requires R.Reachable(s) && R.WellShaped(s) && n in s.unanswered
    requires Sent(call, n, caller, callFields) && Sent(answer, serial, callee, answerFields)
    requires Answers(answer, Delivered(call, n, caller))
    ensures ReadFrame(MessageBytes(call, n, callFields) + behindCall)
            == Whole(Accepted(Delivered(call, n, caller)), |MessageBytes(call, n, callFields)|)
    ensures caller.Some? && caller.value != [] ==>
              Field(6, Text(String), Stored(Text(String), Txt(caller.value))) in answerFields
    ensures var d := Delivered(answer, serial, callee);
            var e := R.Deliver(T.Reply(n, d));
            && ReadFrame(MessageBytes(answer, serial, answerFields) + behindAnswer)
               == Whole(Accepted(d), |MessageBytes(answer, serial, answerFields)|)
            && Routed(d) == Some(e) && R.Enabled(s, e)
            && T.Route(s.table, n) != T.UnknownSerial
            && R.WellShaped(R.Next(s, e))
            && R.Awaited(R.Next(s, e)) == R.Awaited(s)[n := Some(T.Reply(n, d))]
  {
    hide ReadFrame, Sent, Answers, Delivered, Address, R.Reachable, R.Awaited, T.Route, R.Next, T.Waiting, Stored;
    FrameRoundTrip(call, n, caller, callFields, behindCall);
    CallIsRead(call, n, caller);
    AnswerNamesItsRequest(Delivered(call, n, caller), answer, serial, callee, answerFields, behindAnswer);
    AddressedToCaller(call, n, caller, answer, serial, callee, answerFields);
    var e := R.Deliver(T.Reply(n, Delivered(answer, serial, callee)));
    R.UnknownSerialIsUnreachable(s, e.reply);
    R.TableRefinesPlainMap(s, e);
  }

  lemma CallIsRead(call: OutMessage, n: nat, caller: Option<Text>)
    ensures Delivered(call, n, caller).serial == n
  {
  }

  lemma AddressedToCaller(call: OutMessage, n: nat, caller: Option<Text>, answer: OutMessage, serial: nat,
                          callee: Option<Text>, fs: seq<Field>)
    requires Answers(answer, Delivered(call, n, caller)) && Sent(answer, serial, callee, fs)
    ensures caller.Some? && caller.value != [] ==>
              Field(6, Text(String), Stored(Text(String), Txt(caller.value))) in fs
  {
    hide Stored, NoneMissing, Constructed, HeaderAccepted, FitsTheWire;
  }

  // ---------- what the caller gets ----------

  /** A return is handed to the caller; an error is raised, with a text if it has one. */
  datatype CallOutcome = Returned(reply: Incoming) | Raised(name: Text, text: Text) | Garbled(error: BodyError)

  function OutcomeOf(reply: Incoming): CallOutcome {
    if reply.kind != ERROR as nat then Returned(reply)
    else
      TextIsPart([]);
      var name := if reply.errorName.Some? then reply.errorName.value else Ascii("Missing");
      if reply.body == [] || reply.signature != Some([Code('s')]) then
        Raised(name, Ascii("No error message was provided by the remote"))
      else
        match ReadBody([Text(String)], [Code('s')], reply.body)
        case Body(vs) => if |vs| == 1 && vs[0].Txt? then Raised(name, vs[0].s) else Garbled(WrongTypes)
        case Refused(e) => Garbled(e)
  }

  /** An error built from a request is raised at the caller under its name and with its
      text, a return is returned. */
  lemma AnswersComeOut(request: Incoming, errorName: Text, text: Text, serial: nat, callee: Option<Text>)
    requires request.serial < TWO_TO_THE_32 && errorName != [] && 0 !in errorName && |text| < 0x8000_0000
    ensures OutcomeOf(Delivered(ReplyTo(request), serial, callee)).Returned?
    ensures ErrorTo(request, errorName, text).Some? ==>
              OutcomeOf(Delivered(ErrorTo(request, errorName, text).value, serial, callee)) == Raised(errorName, text)
  {
    hide ReadBody, EncText, Stored, ErrorTo, RefusalOf, NoneMissing, Constructed, Delivered;
    RepliesAndErrorsAnswer(request, errorName, text);
    DeliveredInOwnTerms(ReplyTo(request), serial, callee);
    ErrorIs(request, errorName, text);
    if Code('\0') !in text {
      var e := ErrorTo(request, errorName, text).value;
      DeliveredInOwnTerms(e, serial, callee);
      ShortSignatureStays();
      StaysAsItIs(errorName);
      StaysAsItIs([Code('s')]);
      TextBody(text);
      TextLength(text);
    }
  }

  lemma StaysAsItIs(s: Text)
    requires 0 !in s
    ensures Stored(Text(String), Txt(s)) == Txt(s)
  {
    UntilNulIsWhole(s);
  }
}
