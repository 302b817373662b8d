/** Type signatures: how they are generated, that they can be read back in only
    one way, and that each passes the library's two validity scans. */
module Signatures {
  import opened Bytes
  import opened Types

  const DICT_BEGIN: byte := 123
  const DICT_END: byte := 125
  const STRUCT_BEGIN: byte := 40
  const STRUCT_END: byte := 41
  const ARRAY: byte := 97
  const VARIANT: byte := 118
  const STRING: byte := 115
  const OBJECT_PATH: byte := 111
  const SIGNATURE: byte := 103
  const UNIX_FD: byte := 104

  function FixedCode(k: FixedKind): byte {
    match k
    case Byte => 121    // y
    case Bool => 98     // b
    case Int16 => 110   // n
    case UInt16 => 113  // q
    case Int32 => 105   // i
    case UInt32 => 117  // u
    case Int64 => 120   // x
    case UInt64 => 116  // t
    case Double => 100  // d
  }

  function TextCode(k: TextKind): byte {
    match k
    case String => STRING
    case Path => OBJECT_PATH
    case Signature => SIGNATURE
  }

  function Sig(t: Type): (s: Text)
    ensures s != []
    decreases t
  {
    match t
    case Fixed(k) => [FixedCode(k)]
    case Text(k) => [TextCode(k)]
    case Array(e) => [ARRAY] + Sig(e)
    case Struct(fs) => [STRUCT_BEGIN] + (Sigs(fs) + [STRUCT_END])
    case Dict(k, v) => [ARRAY, DICT_BEGIN] + (Sig(k) + (Sig(v) + [DICT_END]))
    case Variant => [VARIANT]
  }

  function Sigs(ts: seq<Type>): Text
    decreases ts
  {
    if ts == [] then [] else Sig(ts[0]) + Sigs(ts[1..])
  }

  // ---------- classifiers ----------

  predicate IsFixedCode(c: byte) {
    c == 121 || c == 98 || c == 110 || c == 113 || c == 105 || c == 117 || c == 120 || c == 116
    || c == 100 || c == UNIX_FD
  }

  predicate IsTextCode(c: byte) {
    c == STRING || c == OBJECT_PATH || c == SIGNATURE
  }

  predicate IsContainerCode(c: byte) {
    c == ARRAY || c == STRUCT_BEGIN || c == STRUCT_END || c == DICT_BEGIN || c == DICT_END || c == VARIANT
  }

  predicate IsTypeCode(c: byte) {
    IsFixedCode(c) || IsTextCode(c) || IsContainerCode(c)
  }

  datatype CodeAlignment = Known(a: Alignment) | Unknown

  /** Alignment by type code; closing brackets and foreign codes have none. */
  function AlignmentOfCode(c: byte): CodeAlignment {
    if c == 121 || c == SIGNATURE || c == VARIANT then Known(1)
    else if c == 110 || c == 113 then Known(2)
    else if c == 98 || c == UNIX_FD || c == 105 || c == 117 then Known(4)
    else if c == STRING || c == OBJECT_PATH || c == ARRAY then Known(4)
    else if c == 120 || c == 116 || c == 100 || c == STRUCT_BEGIN || c == DICT_BEGIN then Known(8)
    else Unknown
  }

  /** The reader's table by first type code and the writer's table by type agree
      everywhere but on dictionaries, where the code stands for the enclosing array. */
  lemma AlignmentTablesAgree(t: Type)
    ensures AlignmentOfCode(Sig(t)[0]) == Known(MemberAlignment(t))
    ensures AlignmentOfCode(Sig(t)[0]) == Known(AlignmentOf(t)) <==> !t.Dict?
  {
  }

  // ---------- in literals ----------

  lemma SignaturesOfBasicTypes()
    ensures Sig(Fixed(Byte)) == [Code('y')] && Sig(Fixed(Bool)) == [Code('b')]
    ensures Sig(Fixed(Int16)) == [Code('n')] && Sig(Fixed(UInt16)) == [Code('q')]
    ensures Sig(Fixed(Int32)) == [Code('i')] && Sig(Fixed(UInt32)) == [Code('u')]
    ensures Sig(Fixed(Int64)) == [Code('x')] && Sig(Fixed(UInt64)) == [Code('t')]
    ensures Sig(Fixed(Double)) == [Code('d')]
    ensures Sig(Text(String)) == [Code('s')] && Sig(Text(Path)) == [Code('o')] && Sig(Text(Signature)) == [Code('g')]
    ensures Sig(Variant) == [Code('v')]
  {
  }

  lemma SignaturesOfContainers(e: Type, k: Type, ts: seq<Type>)
    ensures Sig(Array(e)) == [Code('a')] + Sig(e)
    ensures Sig(Struct(ts)) == [Code('(')] + Sigs(ts) + [Code(')')]
    ensures Sig(Dict(k, e)) == [Code('a'), Code('{')] + Sig(k) + Sig(e) + [Code('}')]
  {
    hide Sig, Sigs;
    ContainersUnfold(e, k, ts);
    Regroup([Code('(')], Sigs(ts), [Code(')')]);
    Regroup([Code('a'), Code('{')], Sig(k), Sig(e));
    Regroup([Code('a'), Code('{')], Sig(k) + Sig(e), [Code('}')]);
    Regroup(Sig(k), Sig(e), [Code('}')]);
  }

  lemma ContainersUnfold(e: Type, k: Type, ts: seq<Type>)
    ensures Sig(Array(e)) == [Code('a')] + Sig(e)
    ensures Sig(Struct(ts)) == [Code('(')] + (Sigs(ts) + [Code(')')])
    ensures Sig(Dict(k, e)) == [Code('a'), Code('{')] + (Sig(k) + (Sig(e) + [Code('}')]))
  {
    hide Sigs;
  }

  lemma SignaturesOfLists(t: Type, ts: seq<Type>)
    ensures Sigs([]) == [] && Sigs([t] + ts) == Sig(t) + Sigs(ts)
  {
    hide Sig;
    assert ([t] + ts)[1..] == ts;
  }

  /** Which characters are type codes, and what each is aligned to. */
  lemma CodesAreTabulated(c: byte)
    ensures IsTypeCode(c) <==> c as char in "ybnqiuxtdhsogav(){}"
    ensures AlignmentOfCode(c) == Known(1) <==> c as char in "ygv"
    ensures AlignmentOfCode(c) == Known(2) <==> c as char in "nq"
    ensures AlignmentOfCode(c) == Known(4) <==> c as char in "biuhsoa"
    ensures AlignmentOfCode(c) == Known(8) <==> c as char in "xtd({"
    ensures IsFixedCode(c) <==> c as char in "ybnqiuxtdh"
    ensures IsTextCode(c) <==> c as char in "sog"
  {
  }

  // ---------- unique readability ----------

  lemma FirstCodeDecides(t: Type, u: Type)
    requires Sig(t)[0] == Sig(u)[0]
    ensures t.Fixed? <==> u.Fixed?
    ensures t.Text? <==> u.Text?
    ensures t.Struct? <==> u.Struct?
    ensures t.Variant? <==> u.Variant?
    ensures t.Fixed? ==> t == u
    ensures t.Text? ==> t == u
  {
  }

  lemma SigIsNotClosing(t: Type)
    ensures Sig(t)[0] != STRUCT_END && Sig(t)[0] != DICT_END && Sig(t)[0] != DICT_BEGIN
  {
  }

  /** Whatever follows, the front of a text spells at most one type: signatures
      are injective and no signature is a proper prefix of another. */
  lemma {:induction false} SigIsUniquelyReadable(t: Type, u: Type, x: Text, y: Text)
    requires Sig(t) + x == Sig(u) + y
    ensures t == u && x == y
    decreases t, 2
  {
    var s := Sig(t) + x;
    assert s[0] == Sig(t)[0] == Sig(u)[0];
    FirstCodeDecides(t, u);
    if t.Struct? {
      StructIsUniquelyReadable(t, u, x, y);
    } else if t.Array? || t.Dict? {
      ArrayIsUniquelyReadable(t, u, x, y);
    } else {
      assert t == u;
      assert x == s[1..] == y;
    }
  }

  lemma {:induction false} StructIsUniquelyReadable(t: Type, u: Type, x: Text, y: Text)
    requires t.Struct? && u.Struct? && Sig(t) + x == Sig(u) + y
    ensures t == u && x == y
    decreases t, 1
  {
    var s := Sig(t) + x;
    var x', y' := [STRUCT_END] + x, [STRUCT_END] + y;
    assert s[1..] == Sigs(t.fields) + x';
    assert s[1..] == Sigs(u.fields) + y';
    SigsAreUniquelyReadable(t.fields, u.fields, x', y');
    assert x == x'[1..] == y'[1..] == y;
  }

  lemma {:induction false} ArrayIsUniquelyReadable(t: Type, u: Type, x: Text, y: Text)
    requires (t.Array? || t.Dict?) && (u.Array? || u.Dict?) && Sig(t) + x == Sig(u) + y
    ensures t == u && x == y
    decreases t, 1
  {
    hide Sig;
    ElementCode(t, x);
    ElementCode(u, y);
    if t.Array? {
      SigIsUniquelyReadable(t.elem, u.elem, x, y);
    } else {
      var x', y' := [DICT_END] + x, [DICT_END] + y;
      SigIsUniquelyReadable(t.key, u.key, Sig(t.val) + x', Sig(u.val) + y');
      SigIsUniquelyReadable(t.val, u.val, x', y');
      assert x == x'[1..] == y'[1..] == y;
    }
  }

  lemma ElementCode(t: Type, x: Text)
    requires t.Array? || t.Dict?
    ensures |Sig(t)| >= 2
    ensures (Sig(t) + x)[1] == DICT_BEGIN <==> t.Dict?
    ensures t.Array? ==> (Sig(t) + x)[1..] == Sig(t.elem) + x
    ensures t.Dict? ==> (Sig(t) + x)[2..] == Sig(t.key) + (Sig(t.val) + ([DICT_END] + x))
  {
    if t.Array? {
      SigIsNotClosing(t.elem);
      assert Sig(t)[1] == Sig(t.elem)[0];
    }
  }

  predicate StartsClosed(x: Text) {
    x == [] || x[0] == STRUCT_END
  }

  /** The same for lists of types, up to a closing bracket or the end. */
  lemma {:induction false} SigsAreUniquelyReadable(ts: seq<Type>, us: seq<Type>, x: Text, y: Text)
    requires Sigs(ts) + x == Sigs(us) + y
    requires StartsClosed(x) && StartsClosed(y)
    ensures ts == us && x == y
    decreases ts, 3
  {
    hide Sig;
    var s := Sigs(ts) + x;
    if ts != [] && us != [] {
      assert s == Sig(ts[0]) + (Sigs(ts[1..]) + x);
      assert s == Sig(us[0]) + (Sigs(us[1..]) + y);
      SigIsUniquelyReadable(ts[0], us[0], Sigs(ts[1..]) + x, Sigs(us[1..]) + y);
      SigsAreUniquelyReadable(ts[1..], us[1..], x, y);
      assert ts == [ts[0]] + ts[1..] && us == [us[0]] + us[1..];
    } else if ts != [] {
      SigIsNotClosing(ts[0]);
      SigsFront(ts, x);
      assert false;
    } else if us != [] {
      SigIsNotClosing(us[0]);
      SigsFront(us, y);
      assert false;
    } else {
      assert x == s == y;
    }
  }

  lemma SigsFront(ts: seq<Type>, x: Text)
    requires ts != []
    ensures (Sigs(ts) + x)[0] == Sig(ts[0])[0]
  {
  }

  /** Two complete types have the same signature only if they are the same, and
      a signature is never the beginning of another one. */
  lemma SigIsInjectiveAndPrefixFree(t: Type, u: Type)
    ensures Sig(t) == Sig(u) <==> t == u
    ensures Sig(t) <= Sig(u) ==> t == u
  {
    if Sig(t) <= Sig(u) {
      var x := Sig(u)[|Sig(t)|..];
      assert Sig(t) + x == Sig(u) + [];
      SigIsUniquelyReadable(t, u, x, []);
    }
  }

  lemma SigsAreInjective(ts: seq<Type>, us: seq<Type>)
    ensures Sigs(ts) == Sigs(us) <==> ts == us
  {
    if Sigs(ts) == Sigs(us) {
      assert Sigs(ts) + [] == Sigs(us) + [];
      SigsAreUniquelyReadable(ts, us, [], []);
    }
  }

  // ---------- the two validity scans ----------

  predicate AllTypeCodes(s: Text) {
    forall i :: 0 <= i < |s| ==> IsTypeCode(s[i])
  }

  function BracketStep(c: byte): int {
    if c == DICT_BEGIN || c == STRUCT_BEGIN then 1
    else if c == DICT_END || c == STRUCT_END then -1
    else 0
  }

  /** Opening minus closing brackets. */
  function Balance(s: Text): int {
    if s == [] then 0 else BracketStep(s[0]) + Balance(s[1..])
  }

  lemma {:induction false} BalanceOfConcat(s: Text, t: Text)
    ensures Balance(s + t) == Balance(s) + Balance(t)
  {
    if s == [] {
      assert s + t == t;
    } else {
      BalanceOfConcat(s[1..], t);
      assert (s + t)[1..] == s[1..] + t;
    }
  }

  /** The balance is zero exactly when as many brackets close as open. */
  lemma {:induction false} BalanceIsCounted(s: Text)
    ensures Balance(s) + multiset(s)[Code(')')] + multiset(s)[Code('}')] ==
            multiset(s)[Code('(')] + multiset(s)[Code('{')]
  {
    if s != [] {
      BalanceIsCounted(s[1..]);
      CountStep(s, Code('('));
      CountStep(s, Code('{'));
      CountStep(s, Code(')'));
      CountStep(s, Code('}'));
    }
  }

  lemma CountStep(s: Text, c: byte)
    requires s != []
    ensures multiset(s)[c] == (if s[0] == c then 1 else 0) + multiset(s[1..])[c]
  {
    assert s == [s[0]] + s[1..];
  }

  method IsDBusTypeCode(s: Text) returns (ok: bool)
    ensures ok <==> AllTypeCodes(s)
  {
    for i := 0 to |s|
      invariant forall j :: 0 <= j < i ==> IsTypeCode(s[j])
    {
      if !IsTypeCode(s[i]) {
        return false;
      }
    }
    return true;
  }

  method AreDBusTypeCodeBracketsEven(s: Text) returns (even: bool)
    ensures even <==> Balance(s) == 0
  {
    var counter := 0;
    for i := 0 to |s|
      invariant counter + Balance(s[i..]) == Balance(s)
    {
      var c := s[i];
      assert s[i..][0] == c && s[i..][1..] == s[i + 1..];
      if c == DICT_BEGIN || c == STRUCT_BEGIN {
        counter := counter + 1;
      } else if c == STRUCT_END || c == DICT_END {
        counter := counter - 1;
      }
    }
    return counter == 0;
  }

  /** Every code of a generated signature is known, and the counter of the bracket
      scan ends at zero. */
  lemma {:induction false} SigPassesScans(t: Type)
    ensures AllTypeCodes(Sig(t)) && Balance(Sig(t)) == 0
    decreases t, 0
  {
    match t {
      case Fixed(_) =>
      case Text(_) =>
      case Variant =>
      case Array(e) =>
        SigPassesScans(e);
        BalanceOfConcat([ARRAY], Sig(e));
      case Struct(fs) =>
        SigsPassScans(fs);
        BalanceOfConcat(Sigs(fs), [STRUCT_END]);
        BalanceOfConcat([STRUCT_BEGIN], Sigs(fs) + [STRUCT_END]);
      case Dict(k, v) =>
        SigPassesScans(k);
        SigPassesScans(v);
        BalanceOfConcat(Sig(v), [DICT_END]);
        BalanceOfConcat(Sig(k), Sig(v) + [DICT_END]);
        BalanceOfConcat([ARRAY, DICT_BEGIN], Sig(k) + (Sig(v) + [DICT_END]));
        assert [ARRAY, DICT_BEGIN][1..] == [DICT_BEGIN];
    }
  }

  lemma {:induction false} SigsPassScans(ts: seq<Type>)
    ensures AllTypeCodes(Sigs(ts)) && Balance(Sigs(ts)) == 0
    decreases ts, 1
  {
    if ts != [] {
      SigPassesScans(ts[0]);
      SigsPassScans(ts[1..]);
      BalanceOfConcat(Sig(ts[0]), Sigs(ts[1..]));
    }
  }

  /** No signature contains a NUL, so none is cut short as a C string. */
  lemma SigHasNoNul(t: Type)
    ensures 0 !in Sig(t)
  {
    SigPassesScans(t);
  }
}
