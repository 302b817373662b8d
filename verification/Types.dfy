/** The D-Bus type system as the library's templates see it, the values that
    inhabit it, and the alignment of each type. */
module Types {
  import opened Bytes
  import opened ObjectPaths

  datatype FixedKind =
    | Byte | Bool | Int16 | UInt16 | Int32 | UInt32 | Int64 | UInt64 | Double

  datatype TextKind = String | Path | Signature

  datatype Type =
    | Fixed(fixed: FixedKind)
    | Text(text: TextKind)
    | Array(elem: Type)
    | Struct(fields: seq<Type>)
    | Dict(key: Type, val: Type)
    | Variant

  /** What a writer holds, and what a reader gets back. A number is its bit
      pattern; a double is eight opaque bytes. A writer's variant is a typed
      value; a reader's variant is a signature and the raw bytes cut out for it. */
  datatype Value =
    | Num(n: nat)
    | Txt(s: seq<byte>)
    | List(elems: seq<Value>)
    | Record(parts: seq<Value>)
    | Map(entries: seq<Entry>)
    | Boxed(t: Type, v: Value)
    | Slice(sig: seq<byte>, data: seq<byte>)

  /** Dictionary entries are listed in the order the writer's map iterates them. */
  datatype Entry = Entry(key: Value, val: Value)

  // ---------- well-formed types ----------

  predicate IsBasic(t: Type) {
    t.Fixed? || t.Text?
  }

  /** Structs are non-empty, dictionary keys are basic, and there are no arrays
      of booleans. */
  predicate WellFormed(t: Type) {
    match t
    case Fixed(_) => true
    case Text(_) => true
    case Array(e) => WellFormed(e) && e != Fixed(Bool)
    case Struct(fs) => fs != [] && AllWellFormed(fs)
    case Dict(k, v) => IsBasic(k) && WellFormed(v)
    case Variant => true
  }

  predicate AllWellFormed(ts: seq<Type>) {
    ts == [] || (WellFormed(ts[0]) && AllWellFormed(ts[1..]))
  }

  // ---------- sizes and alignment ----------

  function Width(k: FixedKind): (w: nat)
    ensures w == 1 || w == 2 || w == 4 || w == 8
  {
    match k
    case Byte => 1
    case Bool => 4
    case Int16 => 2
    case UInt16 => 2
    case Int32 => 4
    case UInt32 => 4
    case Int64 => 8
    case UInt64 => 8
    case Double => 8
  }

  function AlignmentOf(t: Type): Alignment {
    match t
    case Fixed(k) => Width(k)
    case Text(k) => if k.Signature? then 1 else 4
    case Array(_) => 4
    case Struct(_) => 8
    case Dict(_, _) => 8
    case Variant => 1
  }

  lemma FixedIsAligned(k: FixedKind, p: nat)
    ensures AlignmentOf(Fixed(k)) == Width(k)
    ensures Aligned(AlignUp(p, AlignmentOf(Fixed(k))), Width(k))
  {
    AlignUpIsAligned(p, Width(k));
  }

  /** Inside structs and dictionary entries a dictionary is aligned as the array
      it is; everywhere else it is aligned as its entries. */
  function MemberAlignment(t: Type): Alignment {
    if t.Dict? then 4 else AlignmentOf(t)
  }

  /** Where a list of values stands: in a struct, or at the top level of a body. */
  datatype Layout = InStruct | TopLevel

  function PartAlignment(layout: Layout, t: Type): Alignment {
    if layout.InStruct? then MemberAlignment(t) else AlignmentOf(t)
  }

  // ---------- typing ----------

  predicate Typed(t: Type, v: Value)
    decreases v
  {
    match v
    case Num(n) => t.Fixed? && n < Pow256(Width(t.fixed)) && (t.fixed.Bool? ==> n <= 1)
    case Txt(s) => t.Text? && (t.text.Path? ==> IsValidPath(s))
    case List(vs) => t.Array? && AllTyped(t.elem, vs)
    case Record(vs) => t.Struct? && PartsTyped(t.fields, vs)
    case Map(es) => t.Dict? && EntriesTyped(t.key, t.val, es) && DistinctKeys(es)
    case Boxed(u, w) => t.Variant? && WellFormed(u) && Typed(u, w)
    case Slice(_, _) => t.Variant?
  }

  predicate AllTyped(e: Type, vs: seq<Value>)
    decreases vs
  {
    vs == [] || (Typed(e, vs[0]) && AllTyped(e, vs[1..]))
  }

  predicate PartsTyped(ts: seq<Type>, vs: seq<Value>)
    decreases vs
  {
    if vs == [] then ts == []
    else ts != [] && Typed(ts[0], vs[0]) && PartsTyped(ts[1..], vs[1..])
  }

  predicate EntriesTyped(k: Type, t: Type, es: seq<Entry>)
    decreases es
  {
    es == [] || (EntryTyped(k, t, es[0]) && EntriesTyped(k, t, es[1..]))
  }

  predicate EntryTyped(k: Type, t: Type, e: Entry)
    decreases e
  {
    Typed(k, e.key) && Typed(t, e.val)
  }

  predicate HasKey(es: seq<Entry>, k: Value) {
    exists i :: 0 <= i < |es| && es[i].key == k
  }

  predicate DistinctKeys(es: seq<Entry>) {
    forall i, j :: 0 <= i < j < |es| ==> es[i].key != es[j].key
  }
}
