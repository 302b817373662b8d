/** From a sender's arguments to a receiver's: every layer together. */
module Deliveries {
  import opened Bytes
  import opened Options
  import opened Types
  import opened Signatures
  import opened Encoding
  import opened RoundTrip
  import opened Variants
  import opened Bodies
  import opened OutgoingMessages
  import opened IncomingMessages
  import opened Framing
  import opened MatchRules
  import A = ArgumentWalk

  /** What setting the parameters of a message stores in it. */
  predicate Carries(m: OutMessage, ts: seq<Type>, vs: seq<Value>) {
    && AllWellFormed(ts) && PartsTyped(ts, vs) && AcceptsParts(TopLevel, ts, vs, 0)
    && m.signature == Some(Sigs(ts)) && m.body == EncParts(TopLevel, ts, vs, 0)
  }

  /** With at least one argument there is a body, and so the signature travels whole. */
  lemma SignatureArrives(m: OutMessage, serial: nat, sender: Option<Text>, ts: seq<Type>, vs: seq<Value>)
    requires ts != [] && Carries(m, ts, vs) && Constructed(m) && NoneMissing(m)
    ensures m.body != [] && Delivered(m, serial, sender).signature == Some(Sigs(ts)) &&
            Delivered(m, serial, sender).body == m.body
  {
    hide Enc, EncParts, FaultOf, FaultOfParts, Sigs, Stored;
    PartsStep(TopLevel, ts, vs, 0);
    EncIsNonempty(ts[0], vs[0], 0);
    SigsPassScans(ts);
    DeliveredInOwnTerms(m, serial, sender);
    StaysWhole(Sigs(ts));
  }

  lemma StaysWhole(s: Text)
    requires AllTypeCodes(s)
    ensures Stored(Text(String), Txt(s)) == Txt(s)
  {
    UntilNulIsWhole(s);
  }

  /** Whatever follows it in the stream, a message's arguments are read back as they
      were sent, variants as slices, by a receiver that asks for their types; one
      that asks for any others is refused. */
  lemma ArgumentsArrive(m: OutMessage, serial: nat, sender: Option<Text>, fs: seq<Field>, ts: seq<Type>,
                        vs: seq<Value>, rest: seq<byte>, asked: seq<Type>)
    requires Sent(m, serial, sender, fs) && ts != [] && Carries(m, ts, vs) && PartsReadable(ts, vs) &&
             AllWellFormed(asked)
    ensures var d := Delivered(m, serial, sender);
            && ReadFrame(MessageBytes(m, serial, fs) + rest) == Whole(Accepted(d), |MessageBytes(m, serial, fs)|)
            && d.signature.Some?
            && ReadBody(asked, d.signature.value, d.body) ==
               if asked == ts then Body(ReceivedParts(TopLevel, ts, vs, 0)) else BodyResult.Refused(WrongTypes)
    ensures AllVariantFree(ts) ==> ReceivedParts(TopLevel, ts, vs, 0) == vs
  {
    hide EncParts, FaultOfParts, Sigs, ReadFrame, ReadBody, Delivered, HeaderBytes, ReceivedParts, NoneMissing,
         Constructed, CarriesFrom, HeaderAccepted;
    FrameRoundTrip(m, serial, sender, fs, rest);
    SignatureArrives(m, serial, sender, ts, vs);
    BodyRoundTrip(ts, vs, asked);
  }

  /** And a match rule on the receiver's side sees the plain arguments that were sent. */
  lemma RuleSeesSentArguments(m: OutMessage, serial: nat, sender: Option<Text>, fs: seq<Field>, ts: seq<Type>,
                              vs: seq<Value>, rule: ArgInfo)
    returns (found: A.Found)
    requires Sent(m, serial, sender, fs) && ts != [] && Carries(m, ts, vs)
    requires |ts| == |vs| && A.AllPlain(ts) && A.AllShort(ts, vs)
    ensures var d := Delivered(m, serial, sender);
            && d.signature.Some?
            && A.Collect(d.signature.value, d.body, 0, 0, A.NOTHING_FOUND, true) == A.Collected(found, |d.body|)
    ensures TextHolds(rule, found.strings) <==>
            rule.index < |ts| && ts[rule.index] == Text(String) && vs[rule.index] == Txt(rule.name)
    ensures PathHolds(rule, found.strings, found.paths) <==>
            && rule.index < |ts| && (ts[rule.index] == Text(String) || ts[rule.index] == Text(Path))
            && vs[rule.index].Txt? && PathsMatch(rule.name, vs[rule.index].s)
  {
    hide EncParts, FaultOfParts, Sigs, Delivered, HeaderBytes, NoneMissing, CarriesFrom, HeaderAccepted,
         PathsMatch, A.Collect;
    SignatureArrives(m, serial, sender, ts, vs);
    found := A.WalkFindsExactlyTheTexts(ts, vs, m.body);
    A.RulesSeeTheArguments(ts, vs, found, rule);
  }
}
