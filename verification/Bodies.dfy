/** The typed entry point: a body is read as the types its reader names, if its
    signature is theirs. */
module Bodies {
  import opened Bytes
  import opened Types
  import opened Signatures
  import opened Encoding
  import opened Decoding
  import opened RoundTrip
  import U = Unmarshaller

  datatype BodyError = UnknownTypeCode | UnevenBrackets | WrongTypes | TrailingBytes | Undecodable(error: DecodeError)

  datatype BodyResult = Body(values: seq<Value>) | Refused(error: BodyError)

  function ReadBody(ts: seq<Type>, sig: Text, b: seq<byte>): BodyResult
    requires AllWellFormed(ts)
  {
    if !AllTypeCodes(sig) then Refused(UnknownTypeCode)
    else if Balance(sig) != 0 then Refused(UnevenBrackets)
    else if sig != Sigs(ts) then Refused(WrongTypes)
    else
      match DecParts(TopLevel, ts, b, 0)
      case Err(e) => Refused(Undecodable(e))
      case Ok(vs, next) => if next != |b| then Refused(TrailingBytes) else Body(vs)
  }

  method UnmarshalBody(ts: seq<Type>, sig: Text, b: seq<byte>) returns (r: BodyResult)
    requires AllWellFormed(ts)
    ensures r == ReadBody(ts, sig, b)
  {
    var known := IsDBusTypeCode(sig);
    if !known {
      return Refused(UnknownTypeCode);
    }
    var even := AreDBusTypeCodeBracketsEven(sig);
    if !even {
      return Refused(UnevenBrackets);
    }
    if sig != Sigs(ts) {
      return Refused(WrongTypes);
    }
    var reader := new U.Reader(b, 0);
    var values := reader.UnmarshalParts(TopLevel, ts);
    if values.Failure? {
      return Refused(Undecodable(values.error));
    }
    if reader.pos != |b| {
      return Refused(TrailingBytes);
    }
    return Body(values.value);
  }

  /** A body sent with the signature of its arguments is read back in full by a
      reader that names the same types, and refused to one that names any others. */
  lemma BodyRoundTrip(ts: seq<Type>, vs: seq<Value>, asked: seq<Type>)
    requires AllWellFormed(ts) && PartsTyped(ts, vs) && AcceptsParts(TopLevel, ts, vs, 0) && PartsReadable(ts, vs)
    requires |EncParts(TopLevel, ts, vs, 0)| < TWO_TO_THE_32 && AllWellFormed(asked)
    ensures ReadBody(asked, Sigs(ts), EncParts(TopLevel, ts, vs, 0)) ==
            if asked == ts then Body(ReceivedParts(TopLevel, ts, vs, 0)) else Refused(WrongTypes)
    ensures AllVariantFree(ts) ==> ReceivedParts(TopLevel, ts, vs, 0) == vs
  {
    hide EncParts, DecParts, FaultOfParts, ReceivedParts, Sigs, Balance;
    SigsPassScans(ts);
    SigsAreInjective(asked, ts);
    ArgumentsRoundTrip(ts, vs, EncParts(TopLevel, ts, vs, 0));
  }

  /** With bytes left over behind its arguments, a body is refused. */
  lemma TrailingBytesAreRefused(ts: seq<Type>, vs: seq<Value>, extra: seq<byte>)
    requires AllWellFormed(ts) && PartsTyped(ts, vs) && AcceptsParts(TopLevel, ts, vs, 0) && PartsReadable(ts, vs)
    requires extra != [] && |EncParts(TopLevel, ts, vs, 0)| + |extra| < TWO_TO_THE_32
    ensures ReadBody(ts, Sigs(ts), EncParts(TopLevel, ts, vs, 0) + extra) == Refused(TrailingBytes)
  {
    hide EncParts, DecParts, FaultOfParts, ReceivedParts, Sigs, Balance;
    var e := EncParts(TopLevel, ts, vs, 0);
    SigsPassScans(ts);
    AtInContext([], e, extra);
    assert [] + e + extra == e + extra;
    DecPartsBack(TopLevel, ts, vs, e + extra, 0);
  }

  /** Of what is wrong with a signature, the first is reported: a character that is no
      type code, brackets that do not balance, types other than the reader's. */
  lemma SignatureErrors(ts: seq<Type>, sig: Text, b: seq<byte>)
    requires AllWellFormed(ts)
    ensures var known := forall i :: 0 <= i < |sig| ==> sig[i] as char in "ybnqiuxtdhsogav(){}";
            var count := multiset(sig);
            var even := count[Code('(')] + count[Code('{')] == count[Code(')')] + count[Code('}')];
            && (ReadBody(ts, sig, b) == Refused(UnknownTypeCode) <==> !known)
            && (ReadBody(ts, sig, b) == Refused(UnevenBrackets) <==> known && !even)
            && (ReadBody(ts, sig, b) == Refused(WrongTypes) <==> known && even && sig != Sigs(ts))
  {
    hide DecParts, Sigs, Balance, IsTypeCode;
    BalanceIsCounted(sig);
    forall i | 0 <= i < |sig| ensures IsTypeCode(sig[i]) <==> sig[i] as char in "ybnqiuxtdhsogav(){}" {
      CodesAreTabulated(sig[i]);
    }
  }
}
