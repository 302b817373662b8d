/** Object path validation (section "Valid Object Paths" of the D-Bus
    Specification) as a single left-to-right scan. */
module ObjectPaths {
  import opened Bytes

  const SLASH: byte := 47

  datatype PathError = Empty | NoLeadingSlash | EmptyElement | BadCharacter

  datatype Verdict = Valid | Invalid(reason: PathError)

  /** [A-Z][a-z][0-9]_ */
  predicate IsElementChar(c: byte) {
    65 <= c <= 90 || 97 <= c <= 122 || 48 <= c <= 57 || c == 95
  }

  lemma CharactersInLiterals(c: byte)
    ensures var x := c as char;
            IsElementChar(c) <==> 'A' <= x <= 'Z' || 'a' <= x <= 'z' || '0' <= x <= '9' || x == '_'
    ensures c == SLASH <==> c as char == '/'
  {
  }

  // ---------- the grammar ----------

  ghost predicate IsElement(e: Text) {
    e != [] && forall i :: 0 <= i < |e| ==> IsElementChar(e[i])
  }

  /** Each element preceded by a slash. */
  ghost function Join(elements: seq<Text>): Text {
    if elements == [] then [] else [SLASH] + elements[0] + Join(elements[1..])
  }

  ghost predicate AreElements(elements: seq<Text>) {
    elements != [] && forall i :: 0 <= i < |elements| ==> IsElement(elements[i])
  }

  /** The root path, or one or more slash-introduced non-empty elements. */
  ghost predicate IsGrammatical(s: Text) {
    s == [SLASH] || exists elements :: AreElements(elements) && s == Join(elements)
  }

  // ---------- the same, character by character ----------

  /** Every character is a slash or an element character, every slash is followed
      by an element character, and the text opens with a slash. */
  predicate IsSlashed(s: Text) {
    && s != [] && s[0] == SLASH
    && forall i :: 0 <= i < |s| ==> FitsAt(s, i)
  }

  predicate FitsAt(s: Text, i: nat)
    requires i < |s|
  {
    if s[i] == SLASH then i + 1 < |s| && s[i + 1] != SLASH else IsElementChar(s[i])
  }

  /** The scan reports the leftmost place at which the path goes wrong: a slash with
      no element behind it, or a character that is not allowed. */
  predicate IsFirstFault(s: Text, i: nat) {
    i < |s| && !FitsAt(s, i) && forall k :: 0 <= k < i ==> FitsAt(s, k)
  }

  predicate IsValidPath(s: Text) {
    s == [SLASH] || IsSlashed(s)
  }

  /** The scan, as the library does it: `start` is where the current element begins. */
  method Validate(path: Text) returns (v: Verdict)
    ensures v.Valid? <==> IsGrammatical(path)
    ensures v.Valid? <==> IsValidPath(path)
    ensures v == Invalid(Empty) <==> path == []
    ensures v == Invalid(NoLeadingSlash) <==> path != [] && path[0] != SLASH
    ensures v == Invalid(EmptyElement) ==> exists i: nat :: IsFirstFault(path, i) && path[i] == SLASH
    ensures v == Invalid(BadCharacter) ==> exists i: nat :: IsFirstFault(path, i) && path[i] != SLASH
  {
    ValidPathIsGrammatical(path);
    if path == [] { return Invalid(Empty); }
    if path[0] != SLASH { return Invalid(NoLeadingSlash); }
    if |path| == 1 { return Valid; }
    var start := 1;
    for i := 1 to |path| + 1
      invariant 1 <= start <= i && (i == |path| + 1 ==> start == i)
      invariant start <= |path| ==> path[start - 1] == SLASH
      invariant forall k :: start <= k < i && k < |path| ==> IsElementChar(path[k])
      invariant forall k :: 0 <= k < start - 1 && k < |path| ==> FitsAt(path, k)
    {
      if i == |path| || path[i] == SLASH {
        if i == start {
          assert IsFirstFault(path, start - 1);
          return Invalid(EmptyElement);
        }
        assert FitsAt(path, start - 1);
        start := i + 1;
      } else if !IsElementChar(path[i]) {
        assert start < i ==> FitsAt(path, start - 1);
        assert IsFirstFault(path, i);
        return Invalid(BadCharacter);
      }
    }
    return Valid;
  }

  lemma {:induction false} JoinIsSlashed(elements: seq<Text>)
    requires AreElements(elements)
    ensures IsSlashed(Join(elements))
  {
    var e, rest := elements[0], elements[1..];
    if rest != [] {
      assert AreElements(rest);
      JoinIsSlashed(rest);
    }
    var s := Join(elements);
    assert s == [SLASH] + (e + Join(rest));
    assert IsElementChar(e[0]);
    forall i | 0 <= i < |s|
      ensures FitsAt(s, i)
    {
      if 0 < i <= |e| {
        assert s[i] == e[i - 1];
      } else if |e| < i {
        assert FitsAt(Join(rest), i - 1 - |e|);
        assert s[i] == Join(rest)[i - 1 - |e|];
      } else {
        assert s[1] == e[0];
      }
    }
  }

  /** The length of the run of element characters at the front. */
  ghost function Run(s: Text): (n: nat)
    ensures n <= |s|
    ensures forall i :: 0 <= i < n ==> IsElementChar(s[i])
    ensures n < |s| ==> !IsElementChar(s[n])
  {
    if s == [] || !IsElementChar(s[0]) then 0 else 1 + Run(s[1..])
  }

  lemma {:induction false} SlashedIsJoin(s: Text) returns (elements: seq<Text>)
    requires IsSlashed(s)
    ensures AreElements(elements) && s == Join(elements)
    decreases |s|
  {
    var n := Run(s[1..]);
    assert FitsAt(s, 0) && FitsAt(s, 1);
    assert s[1..][0] == s[1];
    var e, rest := s[1..n + 1], s[n + 1..];
    assert forall i :: 0 <= i < n ==> e[i] == s[1..][i];
    assert s == [SLASH] + e + rest;
    if rest == [] {
      elements := [e];
      assert Join([e][1..]) == [];
    } else {
      assert FitsAt(s, n + 1) && rest[0] == s[1..][n];
      forall i | 0 <= i < |rest| ensures FitsAt(rest, i) {
        assert FitsAt(s, n + 1 + i);
      }
      var tail := SlashedIsJoin(rest);
      elements := [e] + tail;
      assert elements[1..] == tail;
    }
  }

  /** The character-by-character test accepts exactly the grammar. */
  lemma ValidPathIsGrammatical(s: Text)
    ensures IsValidPath(s) <==> IsGrammatical(s)
  {
    if IsSlashed(s) {
      var elements := SlashedIsJoin(s);
    }
    forall elements | AreElements(elements) && s == Join(elements)
      ensures IsSlashed(s)
    {
      JoinIsSlashed(elements);
    }
  }
}
