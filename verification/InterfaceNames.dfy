/** The validation of interface and error names, against what its comment says of them. */
module InterfaceNames {
  import opened Bytes

  const MAX_NAME_LENGTH: nat := 255

  /** The library's test. */
  predicate IsInterfaceName(s: Text) {
    s != [] && Code('.') in s && |s| < MAX_NAME_LENGTH
  }

  // ---------- the comment ----------

  /** The elements with a dot between each two. */
  ghost function Dotted(elements: seq<Text>): Text
    requires elements != []
  {
    if |elements| == 1 then elements[0] else elements[0] + [Code('.')] + Dotted(elements[1..])
  }

  ghost predicate AreNameElements(elements: seq<Text>) {
    elements != [] && forall i :: 0 <= i < |elements| ==> elements[i] != [] && Code('.') !in elements[i]
  }

  /** Two or more non-empty elements separated by dots, and no more than 255 bytes. */
  ghost predicate IsAsDocumented(s: Text) {
    |s| <= 255 && exists elements :: |elements| >= 2 && AreNameElements(elements) && s == Dotted(elements)
  }

  // ---------- the same, character by character ----------

  predicate IsDotAt(s: Text, i: int) {
    0 <= i < |s| ==> s[i] == Code('.')
  }

  /** A dot in front, at the end, or behind another. */
  predicate HasEmptyElement(s: Text) {
    s == [] || exists i :: 0 <= i <= |s| && IsDotAt(s, i - 1) && IsDotAt(s, i)
  }

  lemma {:induction false} DottedHasNoEmptyElement(elements: seq<Text>)
    requires AreNameElements(elements)
    ensures !HasEmptyElement(Dotted(elements)) && (Code('.') in Dotted(elements) <==> |elements| >= 2)
  {
    var e, s := elements[0], Dotted(elements);
    if |elements| > 1 {
      var rest := elements[1..];
      assert forall i :: 0 <= i < |rest| ==> rest[i] == elements[i + 1];
      DottedHasNoEmptyElement(rest);
      var t := Dotted(rest);
      assert s == e + [Code('.')] + t && s[|e|] == Code('.');
      forall i | 0 <= i <= |s| ensures !(IsDotAt(s, i - 1) && IsDotAt(s, i)) {
        if i < |e| {
          assert s[i] == e[i];
        } else if i == |e| {
          assert s[i - 1] == e[i - 1];
        } else {
          var j := i - |e| - 1;
          assert !(IsDotAt(t, j - 1) && IsDotAt(t, j));
          assert i < |s| ==> s[i] == t[j];
          assert j > 0 ==> s[i - 1] == t[j - 1];
        }
      }
    } else {
      forall i | 0 <= i <= |s| ensures !(IsDotAt(s, i - 1) && IsDotAt(s, i)) {
        assert s == e;
      }
    }
  }

  /** The length of the run without dots at the front. */
  ghost function DotlessRun(s: Text): (n: nat)
    ensures n <= |s| && Code('.') !in s[..n] && (n < |s| ==> s[n] == Code('.'))
  {
    if s == [] || s[0] == Code('.') then 0
    else
      var n := 1 + DotlessRun(s[1..]);
      assert s[..n] == [s[0]] + s[1..][..n - 1];
      n
  }

  lemma {:induction false} SplitAtDots(s: Text) returns (elements: seq<Text>)
    requires !HasEmptyElement(s)
    ensures AreNameElements(elements) && s == Dotted(elements)
    decreases |s|
  {
    var n := DotlessRun(s);
    assert !(IsDotAt(s, -1) && IsDotAt(s, 0));
    if n == |s| {
      elements := [s];
      assert s[..n] == s;
    } else {
      assert !(IsDotAt(s, n) && IsDotAt(s, n + 1));
      var t := s[n + 1..];
      forall j | 0 <= j <= |t| ensures !(IsDotAt(t, j - 1) && IsDotAt(t, j)) {
        assert !(IsDotAt(s, n + j) && IsDotAt(s, n + 1 + j));
        assert j < |t| ==> t[j] == s[n + 1 + j];
        assert j > 0 ==> t[j - 1] == s[n + j];
      }
      var rest := SplitAtDots(t);
      elements := [s[..n]] + rest;
      assert elements[1..] == rest;
      assert s == s[..n] + [Code('.')] + t;
    }
  }

  lemma DocumentedIff(s: Text)
    ensures IsAsDocumented(s) <==> |s| <= 255 && Code('.') in s && !HasEmptyElement(s)
  {
    if !HasEmptyElement(s) {
      var elements := SplitAtDots(s);
      DottedHasNoEmptyElement(elements);
    }
    forall elements | |elements| >= 2 && AreNameElements(elements) && s == Dotted(elements)
      ensures Code('.') in s && !HasEmptyElement(s)
    {
      DottedHasNoEmptyElement(elements);
    }
  }

  /** The test agrees with the comment on exactly the texts that are neither shorter
      than 255 bytes with a dot and an empty element, nor names of 255 bytes. */
  lemma InterfaceNameTestIsExactIff(s: Text)
    ensures (IsInterfaceName(s) <==> IsAsDocumented(s)) <==>
            !(Code('.') in s && if |s| < 255 then HasEmptyElement(s) else |s| == 255 && !HasEmptyElement(s))
  {
    DocumentedIff(s);
  }

  /** A single dot passes. */
  lemma DotPasses()
    ensures IsInterfaceName([Code('.')]) && !IsAsDocumented([Code('.')])
  {
    DocumentedIff([Code('.')]);
    assert IsDotAt([Code('.')], -1) && IsDotAt([Code('.')], 0);
  }
}
