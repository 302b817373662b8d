/** Bytes on the wire: little-endian numbers, padding by absolute position, and
    the placement predicate that says which bytes a buffer holds at a cursor. */
module Bytes {
  type byte = x: int | 0 <= x < 256

  type Text = seq<byte>

  /** The four alignments the wire format knows. */
  type Alignment = a: int | a == 1 || a == 2 || a == 4 || a == 8 witness 1

  const TWO_TO_THE_32: nat := 0x1_0000_0000

  function Code(c: char): byte {
    c as int % 256
  }

  function Ascii(s: string): Text {
    seq(|s|, i requires 0 <= i < |s| => Code(s[i]))
  }

  // ---------- little-endian numbers ----------

  /** The `w` low bytes of `n`, least significant first; higher bytes are cut
      off, as a narrowing cast does. */
  function LE(n: nat, w: nat): (s: seq<byte>)
    ensures |s| == w
  {
    if w == 0 then [] else [n % 256] + LE(n / 256, w - 1)
  }

  function FromLE(s: seq<byte>): nat {
    if s == [] then 0 else s[0] + 256 * FromLE(s[1..])
  }

  function Pow256(w: nat): (r: nat)
    ensures r >= 1
  {
    if w == 0 then 1 else 256 * Pow256(w - 1)
  }

  lemma {:induction false} FromLEOfLE(n: nat, w: nat)
    ensures n < Pow256(w) ==> FromLE(LE(n, w)) == n
    ensures FromLE(LE(n, w)) < Pow256(w)
  {
    if w > 0 {
      FromLEOfLE(n / 256, w - 1);
      assert LE(n, w)[1..] == LE(n / 256, w - 1);
    }
  }

  lemma Pow256Values()
    ensures Pow256(0) == 1
    ensures Pow256(1) == 256
    ensures Pow256(2) == 0x1_0000
    ensures Pow256(3) == 0x100_0000
    ensures Pow256(4) == TWO_TO_THE_32
    ensures Pow256(5) == 0x100_0000_0000
    ensures Pow256(6) == 0x1_0000_0000_0000
    ensures Pow256(7) == 0x100_0000_0000_0000
    ensures Pow256(8) == 0x1_0000_0000_0000_0000
  {
    assert Pow256(1) == 256 * Pow256(0);
    assert Pow256(3) == 256 * Pow256(2);
    assert Pow256(5) == 256 * Pow256(4);
    assert Pow256(7) == 256 * Pow256(6);
  }

  // ---------- digit by digit ----------

  /** Byte `i` stands for multiples of 256^i. */
  ghost predicate IsLittleEndian(s: seq<byte>, n: nat) {
    forall i :: 0 <= i < |s| ==> s[i] == n / Pow256(i) % 256
  }

  /** The sum of the first `k` bytes, each with its weight. */
  ghost function Weighted(s: seq<byte>, k: nat): nat
    requires k <= |s|
  {
    if k == 0 then 0 else Weighted(s, k - 1) + s[k - 1] * Pow256(k - 1)
  }

  lemma {:induction false} LEIsLittleEndian(n: nat, w: nat)
    ensures IsLittleEndian(LE(n, w), n)
  {
    if w > 0 {
      LEIsLittleEndian(n / 256, w - 1);
      var s, tail := LE(n, w), LE(n / 256, w - 1);
      forall i | 0 <= i < |s| ensures s[i] == n / Pow256(i) % 256 {
        if i > 0 {
          assert s[i] == tail[i - 1];
          DivideTwice(n, Pow256(i - 1));
        }
      }
    }
  }

  lemma DivideTwice(n: nat, m: nat)
    requires m > 0
    ensures n / 256 / m == n / (256 * m)
  {
    var q, r := n / 256 / m, n / 256 % m;
    assert n == 256 * (m * q + r) + n % 256;
    assert n == (256 * m) * q + (256 * r + n % 256) by {
      assert 256 * (m * q) == (256 * m) * q;
    }
    Quotient(n, 256 * m, q, 256 * r + n % 256);
  }

  lemma Quotient(n: nat, d: nat, q: nat, r: nat)
    requires n == d * q + r && r < d
    ensures n / d == q
  {
    var x, y := n / d, n % d;
    assert n == d * x + y;
    SameMultiple(d, x, y, q, r);
  }

  lemma SameMultiple(d: nat, x: nat, y: nat, q: nat, r: nat)
    requires d * x + y == d * q + r && y < d && r < d
    ensures x == q
  {
    if x < q {
      Distribute(d, x, q);
    } else if q < x {
      Distribute(d, q, x);
    }
  }

  lemma Distribute(d: nat, x: nat, q: nat)
    requires x < q
    ensures d * q >= d * x + d
  {
    assert d * q == d * x + d * (q - x);
    assert d * (q - x) == d + d * (q - x - 1);
  }

  lemma {:induction false} FromLEIsWeighted(s: seq<byte>)
    ensures FromLE(s) == Weighted(s, |s|)
  {
    if s != [] {
      FromLEIsWeighted(s[1..]);
      ShiftWeights(s, |s| - 1);
    }
  }

  /** The sum by its first byte instead of its last. */
  lemma {:induction false} ShiftWeights(s: seq<byte>, k: nat)
    requires k < |s|
    ensures Weighted(s, k + 1) == s[0] + 256 * Weighted(s[1..], k)
  {
    if k > 0 {
      ShiftWeights(s, k - 1);
      assert s[1..][k - 1] == s[k];
      assert s[k] * Pow256(k) == 256 * (s[k] * Pow256(k - 1));
    } else {
      assert Weighted(s, 1) == Weighted(s, 0) + s[0] * Pow256(0);
    }
  }

  // ---------- padding ----------

  function Zeros(n: nat): (s: seq<byte>)
    ensures |s| == n
  {
    seq(n, _ => 0)
  }

  /** How many bytes bring position `p` to the next multiple of `a`. */
  function PadLen(p: nat, a: Alignment): (n: nat)
    ensures n < a
  {
    var r := p % 8;
    if a == 1 then 0
    else if a == 2 then (if r == 1 || r == 3 || r == 5 || r == 7 then 1 else 0)
    else if a == 4 then (if r == 0 || r == 4 then 0 else if r < 4 then 4 - r else 8 - r)
    else if r == 0 then 0 else 8 - r
  }

  function AlignUp(p: nat, a: Alignment): nat {
    p + PadLen(p, a)
  }

  predicate Aligned(p: nat, a: Alignment) {
    PadLen(p, a) == 0
  }

  /** The padding of a position is the distance to the least multiple of the
      alignment that is not below it. */
  lemma PadLenIsLeast(p: nat, a: Alignment)
    ensures (p + PadLen(p, a)) % a == 0
    ensures forall q: nat :: p <= q && q % a == 0 ==> p + PadLen(p, a) <= q
    ensures PadLen(p, a) == if p % a == 0 then 0 else a - p % a
  {
    hide PadLen;
    if a == 8 {
      PadTo8(p);
    } else if a == 4 {
      PadTo4(p);
    } else if a == 2 {
      PadTo2(p);
    } else {
      PadTo1(p);
    }
  }

  lemma PadTo1(p: nat)
    ensures PadLen(p, 1) == 0
  {
  }

  lemma PadTo8(p: nat)
    ensures PadLen(p, 8) == if p % 8 == 0 then 0 else 8 - p % 8
    ensures (p + PadLen(p, 8)) % 8 == 0
    ensures forall q: nat :: p <= q && q % 8 == 0 ==> p + PadLen(p, 8) <= q
  {
  }

  lemma PadTo4(p: nat)
    ensures PadLen(p, 4) == if p % 4 == 0 then 0 else 4 - p % 4
    ensures (p + PadLen(p, 4)) % 4 == 0
    ensures forall q: nat :: p <= q && q % 4 == 0 ==> p + PadLen(p, 4) <= q
  {
    PadLenByRest(p);
    hide PadLen;
  }

  lemma PadLenByRest(p: nat)
    ensures PadLen(p, 4) == if p % 4 == 0 then 0 else 4 - p % 4
    ensures PadLen(p, 2) == p % 2
  {
    Mod4(p);
    Mod2(p);
  }

  lemma PadTo2(p: nat)
    ensures PadLen(p, 2) == if p % 2 == 0 then 0 else 2 - p % 2
    ensures (p + PadLen(p, 2)) % 2 == 0
    ensures forall q: nat :: p <= q && q % 2 == 0 ==> p + PadLen(p, 2) <= q
  {
    PadLenByRest(p);
    hide PadLen;
  }

  lemma Mod4(p: nat)
    ensures p % 4 == if p % 8 < 4 then p % 8 else p % 8 - 4
  {
    assert p == 4 * (2 * (p / 8)) + p % 8;
  }

  lemma Mod2(p: nat)
    ensures p % 2 == if p % 8 == 1 || p % 8 == 3 || p % 8 == 5 || p % 8 == 7 then 1 else 0
  {
    assert p == 2 * (4 * (p / 8)) + p % 8;
  }

  lemma AlignUpIsAligned(p: nat, a: Alignment)
    ensures Aligned(AlignUp(p, a), a)
  {
  }

  lemma StepKeepsAlignment(p: nat, a: Alignment)
    requires Aligned(p, a)
    ensures Aligned(p + a, a)
  {
    Wrap(p, a);
  }

  lemma PaddingIsIdempotent(p: nat, a: Alignment)
    ensures AlignUp(AlignUp(p, a), a) == AlignUp(p, a)
  {
  }

  lemma AlignedIsWeaker(p: nat, m: Alignment, a: Alignment)
    requires Aligned(p, m) && a <= m
    ensures Aligned(p, a)
  {
  }

  /** Positions that agree modulo `m`. */
  predicate InStep(p: nat, q: nat, m: Alignment) {
    var d := p % 8 - q % 8;
    if m == 1 then true
    else if m == 2 then d == -6 || d == -4 || d == -2 || d == 0 || d == 2 || d == 4 || d == 6
    else if m == 4 then d == -4 || d == 0 || d == 4
    else d == 0
  }

  lemma InStepPadding(p: nat, q: nat, m: Alignment, a: Alignment)
    requires InStep(p, q, m) && a <= m
    ensures PadLen(p, a) == PadLen(q, a)
  {
  }

  lemma InStepAdvance(p: nat, q: nat, m: Alignment, n: nat)
    requires InStep(p, q, m)
    ensures InStep(p + n, q + n, m)
  {
    Wrap(p, n);
    Wrap(q, n);
  }

  lemma Wrap(p: nat, n: nat)
    ensures (p + n) % 8 == if p % 8 + n % 8 < 8 then p % 8 + n % 8 else p % 8 + n % 8 - 8
  {
  }

  // ---------- placement ----------

  /** Buffer `b` holds exactly the bytes `s` at position `p`. */
  predicate At(b: seq<byte>, p: nat, s: seq<byte>) {
    p + |s| <= |b| && b[p..p + |s|] == s
  }

  lemma AtSplit(b: seq<byte>, p: nat, s: seq<byte>, t: seq<byte>)
    requires At(b, p, s + t)
    ensures At(b, p, s) && At(b, p + |s|, t)
  {
    assert b[p..p + |s|] == b[p..p + |s + t|][..|s|] == s;
    assert b[p + |s|..p + |s| + |t|] == b[p..p + |s + t|][|s|..] == t;
  }

  lemma AtSplit3(b: seq<byte>, p: nat, s: seq<byte>, t: seq<byte>, u: seq<byte>)
    requires At(b, p, s + t + u)
    ensures At(b, p, s) && At(b, p + |s|, t) && At(b, p + |s| + |t|, u)
  {
    AtSplit(b, p, s + t, u);
    AtSplit(b, p, s, t);
  }

  lemma AtInContext(pre: seq<byte>, s: seq<byte>, post: seq<byte>)
    ensures At(pre + s + post, |pre|, s)
  {
  }

  lemma FitsIn(b: seq<byte>, p: nat, s: seq<byte>)
    requires At(b, p, s)
    ensures p + |s| <= |b|
  {
  }

  lemma Regroup(x: seq<byte>, y: seq<byte>, z: seq<byte>)
    ensures x + y + z == x + (y + z)
  {
  }
}
