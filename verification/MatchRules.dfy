/** Argument and argument-path conditions of a match rule: the tokenised path test
    against the definition in section "Match Rules" of the D-Bus Specification. */
module MatchRules {
  import opened Bytes
  import opened ObjectPaths
  import opened Options

  // ---------- tokens ----------

  function Concat(ts: seq<Text>): Text {
    if ts == [] then [] else ts[0] + Concat(ts[1..])
  }

  predicate IsToken(t: Text) {
    t == [SLASH] || (t != [] && SLASH !in t)
  }

  /** Two words in a row would be one word. */
  predicate MayFollow(t: Text, u: Text) {
    t == [SLASH] || u == [SLASH]
  }

  predicate AreTokens(ts: seq<Text>) {
    && (forall i :: 0 <= i < |ts| ==> IsToken(ts[i]))
    && (forall i :: 0 < i < |ts| ==> MayFollow(ts[i - 1], ts[i]))
  }

  lemma {:induction false} ConcatPush(ts: seq<Text>, t: Text)
    ensures Concat(ts + [t]) == Concat(ts) + t
  {
    if ts == [] {
      assert [t][1..] == [];
    } else {
      var rest := ts[1..];
      assert (ts + [t])[1..] == rest + [t];
      ConcatPush(rest, t);
      Regroup(ts[0], Concat(rest), t);
    }
  }

  lemma TokensPush(ts: seq<Text>, t: Text)
    requires AreTokens(ts) && IsToken(t) && (ts == [] || MayFollow(ts[|ts| - 1], t))
    ensures AreTokens(ts + [t])
  {
  }

  function NonEmpty(ts: seq<Text>): seq<Text> {
    if ts == [] then []
    else
      var last := |ts| - 1;
      NonEmpty(ts[..last]) + if ts[last] == [] then [] else [ts[last]]
  }

  lemma NonEmptyPush(ts: seq<Text>, t: Text)
    ensures NonEmpty(ts + [t]) == NonEmpty(ts) + if t == [] then [] else [t]
  {
    assert (ts + [t])[..|ts|] == ts;
  }

  // ---------- splitting ----------

  /** The characters up to the next delimiter, which is skipped. */
  method GetLine(s: Text, p: nat) returns (line: Text, next: nat, atEnd: bool)
    requires p < |s|
    ensures SLASH !in line
    ensures p + |line| <= |s| && line == s[p..p + |line|]
    ensures atEnd <==> p + |line| == |s|
    ensures atEnd ==> next == |s|
    ensures !atEnd ==> s[p + |line|] == SLASH && next == p + |line| + 1
  {
    next := p;
    while next < |s| && s[next] != SLASH
      invariant p <= next <= |s| && SLASH !in s[p..next]
    {
      next := next + 1;
    }
    line := s[p..next];
    atEnd := next == |s|;
    if !atEnd {
      next := next + 1;
    }
  }

  method RemoveEmpty(ts: seq<Text>) returns (res: seq<Text>)
    ensures res == NonEmpty(ts)
  {
    res := [];
    for i := 0 to |ts|
      invariant res == NonEmpty(ts[..i])
    {
      NonEmptyPush(ts[..i], ts[i]);
      assert ts[..i + 1] == ts[..i] + [ts[i]];
      if ts[i] != [] {
        res := res + [ts[i]];
      }
    }
    assert ts[..|ts|] == ts;
  }

  ghost predicate Splits(lines: seq<Text>, s: Text) {
    AreTokens(NonEmpty(lines)) && Concat(NonEmpty(lines)) == s
  }

  /** Splitting loses nothing, and leaves each slash and each run of other
      characters as one token. */
  method SplitString(s: Text) returns (res: seq<Text>)
    ensures AreTokens(res) && Concat(res) == s
  {
    res := [];
    var p := 0;
    while p < |s|
      invariant p <= |s| && Splits(res, s[..p])
      invariant p < |s| ==> EndsInSlash(NonEmpty(res))
    {
      hide NonEmpty, Concat, AreTokens;
      var line, next, atEnd := GetLine(s, p);
      ghost var before := res;
      res := res + [line];
      LinePushed(before, s, p, line);
      if !atEnd {
        SlashPushed(res, s, p + |line|);
        res := res + [[SLASH]];
      }
      p := next;
    }
    assert s[..p] == s;
    res := RemoveEmpty(res);
  }

  predicate EndsInSlash(ts: seq<Text>) {
    ts == [] || ts[|ts| - 1] == [SLASH]
  }

  lemma LinePushed(lines: seq<Text>, s: Text, p: nat, line: Text)
    requires p + |line| <= |s| && line == s[p..p + |line|] && SLASH !in line
    requires Splits(lines, s[..p]) && EndsInSlash(NonEmpty(lines))
    ensures Splits(lines + [line], s[..p + |line|])
  {
    hide NonEmpty, Concat, AreTokens;
    NonEmptyPush(lines, line);
    assert s[..p + |line|] == s[..p] + line;
    if line != [] {
      TokensPush(NonEmpty(lines), line);
      ConcatPush(NonEmpty(lines), line);
    } else {
      assert NonEmpty(lines) + [] == NonEmpty(lines);
    }
  }

  lemma SlashPushed(lines: seq<Text>, s: Text, p: nat)
    requires p < |s| && s[p] == SLASH && Splits(lines, s[..p])
    ensures Splits(lines + [[SLASH]], s[..p + 1]) && EndsInSlash(NonEmpty(lines + [[SLASH]]))
  {
    hide NonEmpty, Concat, AreTokens;
    NonEmptyPush(lines, [SLASH]);
    TokensPush(NonEmpty(lines), [SLASH]);
    ConcatPush(NonEmpty(lines), [SLASH]);
    assert s[..p + 1] == s[..p] + [SLASH];
  }

  method IsPathPrefixed(rule: seq<Text>, toCheck: seq<Text>) returns (ok: bool)
    ensures ok <==> rule <= toCheck
  {
    for i := 0 to |rule|
      invariant i <= |toCheck| && rule[..i] == toCheck[..i]
    {
      if i >= |toCheck| || toCheck[i] != rule[i] {
        return false;
      }
    }
    return true;
  }

  // ---------- prefixes of tokens and prefixes of texts ----------

  lemma AreTokensTail(ts: seq<Text>)
    requires ts != [] && AreTokens(ts)
    ensures IsToken(ts[0]) && AreTokens(ts[1..])
    ensures |ts| > 1 ==> MayFollow(ts[0], ts[1])
  {
    var rest := ts[1..];
    forall i | 0 <= i < |rest| ensures IsToken(rest[i]) && (i > 0 ==> MayFollow(rest[i - 1], rest[i])) {
      assert rest[i] == ts[i + 1];
      if i > 0 {
        assert MayFollow(ts[i], ts[i + 1]);
      }
    }
  }

  /** After a word comes a slash or nothing. */
  predicate Closed(t: Text, after: Text) {
    t == [SLASH] || after == [] || after[0] == SLASH
  }

  lemma FrontTokenIsNotShorter(t: Text, after: Text, u: Text, after': Text)
    requires IsToken(t) && IsToken(u) && Closed(t, after) && t + after == u + after'
    ensures |u| <= |t|
  {
    var s := t + after;
    assert s[0] == t[0] == u[0];
    assert forall i :: 0 <= i < |u| ==> u[i] == s[i];
    assert forall i :: 0 <= i < |after| ==> after[i] == s[|t| + i];
  }

  lemma FrontTokenIsUnique(t: Text, after: Text, u: Text, after': Text)
    requires IsToken(t) && IsToken(u) && Closed(t, after) && Closed(u, after') && t + after == u + after'
    ensures t == u && after == after'
  {
    var s := t + after;
    FrontTokenIsNotShorter(t, after, u, after');
    FrontTokenIsNotShorter(u, after', t, after);
    assert t == s[..|t|] && u == s[..|u|];
    assert after == s[|t|..] && after' == s[|u|..];
  }

  lemma HeadIsClosed(ts: seq<Text>, x: Text)
    requires ts != [] && AreTokens(ts) && Closed(ts[|ts| - 1], x)
    ensures Closed(ts[0], Concat(ts[1..]) + x)
  {
    AreTokensTail(ts);
    if |ts| == 1 {
      assert Concat(ts[1..]) + x == x;
    } else if ts[0] != [SLASH] {
      assert ts[1..][0] == [SLASH];
      assert Concat(ts[1..])[0] == SLASH;
    }
  }

  lemma ConcatStep(ts: seq<Text>)
    requires AreTokens(ts)
    ensures ts == [] <==> Concat(ts) == []
    ensures ts != [] ==> Concat(ts) == ts[0] + Concat(ts[1..])
    ensures ts != [] ==> Closed(ts[|ts| - 1], [])
  {
    if ts != [] {
      AreTokensTail(ts);
    }
  }

  /** The first token and what follows it, of both. */
  lemma HeadsAgree(xs: seq<Text>, x: Text, ys: seq<Text>)
    requires AreTokens(xs) && AreTokens(ys) && Concat(ys) == Concat(xs) + x && xs != []
    requires Closed(xs[|xs| - 1], x)
    ensures ys != [] && xs[0] == ys[0] && Concat(ys[1..]) == Concat(xs[1..]) + x
    ensures AreTokens(xs[1..]) && AreTokens(ys[1..])
  {
    hide AreTokens, Closed, Concat, IsToken, MayFollow;
    ConcatStep(xs);
    ConcatStep(ys);
    AreTokensTail(xs);
    AreTokensTail(ys);
    HeadIsClosed(xs, x);
    HeadIsClosed(ys, []);
    Regroup(xs[0], Concat(xs[1..]), x);
    assert Concat(ys[1..]) + [] == Concat(ys[1..]);
    FrontTokenIsUnique(xs[0], Concat(xs[1..]) + x, ys[0], Concat(ys[1..]));
  }

  lemma {:induction false} PrefixOfTokens(xs: seq<Text>, x: Text, ys: seq<Text>)
    requires AreTokens(xs) && AreTokens(ys) && Concat(ys) == Concat(xs) + x
    requires xs == [] || Closed(xs[|xs| - 1], x)
    ensures xs <= ys
  {
    if xs != [] {
      hide AreTokens, Closed, Concat;
      HeadsAgree(xs, x, ys);
      PrefixOfTokens(xs[1..], x, ys[1..]);
      assert xs == [xs[0]] + xs[1..] && ys == [ys[0]] + ys[1..];
    }
  }

  /** What follows a prefix of the tokens, as text. */
  lemma {:induction false} TextOfPrefix(xs: seq<Text>, ys: seq<Text>) returns (x: Text)
    requires AreTokens(ys) && xs <= ys
    ensures Concat(ys) == Concat(xs) + x
    ensures xs == [] || Closed(xs[|xs| - 1], x)
  {
    if xs == [] {
      x := Concat(ys);
    } else {
      hide AreTokens, IsToken, MayFollow, Concat, Closed;
      AreTokensTail(ys);
      ConcatStep(ys);
      assert xs == ys[..|xs|] && xs[1..] == ys[1..][..|xs[1..]|];
      x := TextOfPrefix(xs[1..], ys[1..]);
      PrefixStep(xs);
      Regroup(xs[0], Concat(xs[1..]), x);
      if |xs| == 1 {
        FollowsHead(ys, x);
      }
    }
  }

  lemma PrefixStep(xs: seq<Text>)
    requires xs != []
    ensures Concat(xs) == xs[0] + Concat(xs[1..])
    ensures |xs| == 1 ==> Concat(xs[1..]) == []
  {
  }

  lemma FollowsHead(ys: seq<Text>, x: Text)
    requires AreTokens(ys) && ys != [] && Concat(ys[1..]) == [] + x
    ensures Closed(ys[0], x)
  {
    ConcatStep(ys);
    HeadIsClosed(ys, []);
    assert Concat(ys[1..]) + [] == x;
  }

  /** Where one text is a prefix of another and no word is cut in two. */
  predicate IsWholeTokenPrefix(a: Text, b: Text) {
    a <= b && (a == [] || a == b || a[|a| - 1] == SLASH || b[|a|] == SLASH)
  }

  lemma {:induction false} LastCharacter(ts: seq<Text>)
    requires ts != [] && AreTokens(ts)
    ensures Concat(ts) != []
    ensures Concat(ts)[|Concat(ts)| - 1] == SLASH <==> ts[|ts| - 1] == [SLASH]
  {
    ConcatStep(ts);
    AreTokensTail(ts);
    if |ts| > 1 {
      LastCharacter(ts[1..]);
      var s, t := Concat(ts), Concat(ts[1..]);
      assert s[|s| - 1] == t[|t| - 1];
    }
  }

  /** However two texts are split, the tokens of one begin the tokens of the other
      exactly when the text does so at the end of a token. */
  lemma TokenPrefixIsWholeTokenPrefix(a: Text, b: Text, xs: seq<Text>, ys: seq<Text>)
    requires AreTokens(xs) && Concat(xs) == a && AreTokens(ys) && Concat(ys) == b
    ensures xs <= ys <==> IsWholeTokenPrefix(a, b)
  {
    hide AreTokens, IsToken, MayFollow, Concat;
    ConcatStep(xs);
    if xs != [] {
      LastCharacter(xs);
    }
    if xs <= ys {
      var x := TextOfPrefix(xs, ys);
      assert b[|a|..] == x;
    }
    if IsWholeTokenPrefix(a, b) {
      PrefixOfTokens(xs, b[|a|..], ys);
    }
  }

  /** There is only one way to split a text. */
  lemma TokensAreUnique(xs: seq<Text>, ys: seq<Text>)
    requires AreTokens(xs) && AreTokens(ys) && Concat(xs) == Concat(ys)
    ensures xs == ys
  {
    hide AreTokens, IsToken, MayFollow, Concat;
    TokenPrefixIsWholeTokenPrefix(Concat(xs), Concat(ys), xs, ys);
    TokenPrefixIsWholeTokenPrefix(Concat(ys), Concat(xs), ys, xs);
  }

  // ---------- the argument-path test ----------

  predicate EndsIn(s: Text, c: byte) {
    s != [] && s[|s| - 1] == c
  }

  /** Section "Match Rules" of the D-Bus Specification: the two are equal, or one
      of them ends in a slash and is a prefix of the other. */
  predicate PathsMatch(name: Text, arg: Text) {
    name == arg || (EndsIn(name, SLASH) && name <= arg) || (EndsIn(arg, SLASH) && arg <= name)
  }

  /** It is symmetric: of two that differ one must be the front of the other, and end
      in a slash. */
  lemma PathsMatchIffFrontEndsInSlash(x: Text, y: Text)
    ensures PathsMatch(x, y) <==> PathsMatch(y, x)
    ensures x < y ==> (PathsMatch(x, y) <==> x != [] && x[|x| - 1] as char == '/')
    ensures !(x <= y) && !(y <= x) ==> !PathsMatch(x, y)
    ensures PathsMatch(x, x)
  {
  }

  /** The test looks at the last characters of texts that differ, so it is defined
      unless one of those is empty. */
  predicate HasEnds(name: Text, arg: Text) {
    name == arg || (name != [] && arg != [])
  }

  /** The outcome of a test, or nothing where the code reads the last character of an empty text. */
  type Tested = Option<bool>

  function PathTest(name: Text, arg: Text): Tested {
    if HasEnds(name, arg) then Some(PathsMatch(name, arg)) else None
  }

  method MatchesPath(name: Text, arg: Text) returns (r: Tested)
    ensures r.None? <==> name != arg && (name == [] || arg == [])
    ensures r.Some? ==> (r.value <==> PathsMatch(name, arg))
  {
    hide AreTokens, Concat;
    var splitArg := SplitString(arg);
    var splitName := SplitString(name);
    TokenPrefixIsWholeTokenPrefix(name, arg, splitName, splitArg);
    TokenPrefixIsWholeTokenPrefix(arg, name, splitArg, splitName);
    var ok := name == arg;
    if !ok {
      if name == [] {
        return None;
      }
      if name[|name| - 1] == SLASH {
        ok := IsPathPrefixed(splitName, splitArg);
      }
    }
    if !ok {
      if arg == [] {
        return None;
      }
      if arg[|arg| - 1] == SLASH {
        ok := IsPathPrefixed(splitArg, splitName);
      }
    }
    return Some(ok);
  }

  // ---------- the argument conditions of a rule ----------

  datatype ArgInfo = ArgInfo(name: Text, index: byte)

  type Arguments = map<byte, Text>

  predicate TextHolds(rule: ArgInfo, strings: Arguments) {
    rule.index in strings && strings[rule.index] == rule.name
  }

  /** The text an argument-path condition looks at: an object path if there is one
      under its index, else a string. */
  predicate PathHolds(rule: ArgInfo, strings: Arguments, paths: Arguments) {
    if rule.index in paths then PathsMatch(rule.name, paths[rule.index])
    else rule.index in strings && PathsMatch(rule.name, strings[rule.index])
  }

  function ArgPathTest(rule: ArgInfo, strings: Arguments, paths: Arguments): Tested {
    if rule.index in paths then PathTest(rule.name, paths[rule.index])
    else if rule.index in strings then PathTest(rule.name, strings[rule.index])
    else Some(false)
  }

  /** One after the other, up to the first that fails. */
  function ArgPathsTest(rules: seq<ArgInfo>, strings: Arguments, paths: Arguments): Tested {
    if rules == [] then Some(true)
    else
      var first := ArgPathTest(rules[0], strings, paths);
      if first == Some(true) then ArgPathsTest(rules[1..], strings, paths) else first
  }

  ghost predicate AllPathsHold(rules: seq<ArgInfo>, strings: Arguments, paths: Arguments) {
    forall i :: 0 <= i < |rules| ==> ArgPathTest(rules[i], strings, paths) == Some(true)
  }

  /** The test at `i` is undefined, and all in front of it pass. */
  ghost predicate IsStuckAt(rules: seq<ArgInfo>, i: nat, strings: Arguments, paths: Arguments) {
    i < |rules| && ArgPathTest(rules[i], strings, paths) == None && AllPathsHold(rules[..i], strings, paths)
  }

  lemma PassFirst(rules: seq<ArgInfo>, strings: Arguments, paths: Arguments)
    requires rules != []
    ensures AllPathsHold(rules, strings, paths) <==>
            ArgPathTest(rules[0], strings, paths) == Some(true) && AllPathsHold(rules[1..], strings, paths)
  {
    hide ArgPathTest;
    assert rules == [rules[0]] + rules[1..];
  }

  lemma StuckLater(rules: seq<ArgInfo>, i: nat, strings: Arguments, paths: Arguments)
    requires rules != []
    ensures IsStuckAt(rules, i + 1, strings, paths) <==>
            ArgPathTest(rules[0], strings, paths) == Some(true) && IsStuckAt(rules[1..], i, strings, paths)
  {
    hide ArgPathTest, AllPathsHold;
    if i + 1 < |rules| {
      assert rules[..i + 1][0] == rules[0] && rules[..i + 1][1..] == rules[1..][..i];
      PassFirst(rules[..i + 1], strings, paths);
    }
  }

  /** The tests pass exactly when each of them does, and are undefined exactly when they
      are stuck at one. */
  lemma {:induction false} ArgPathsHold(rules: seq<ArgInfo>, strings: Arguments, paths: Arguments)
    ensures ArgPathsTest(rules, strings, paths) == Some(true) <==> AllPathsHold(rules, strings, paths)
    ensures ArgPathsTest(rules, strings, paths) == None <==> exists i: nat :: IsStuckAt(rules, i, strings, paths)
  {
    hide ArgPathTest, IsStuckAt, AllPathsHold;
    if rules == [] {
      NothingToTest(rules, strings, paths);
    } else {
      ArgPathsHold(rules[1..], strings, paths);
      PassFirst(rules, strings, paths);
      StuckFirst(rules, strings, paths);
      forall i: nat | i > 0
        ensures IsStuckAt(rules, i, strings, paths) <==>
                ArgPathTest(rules[0], strings, paths) == Some(true) && IsStuckAt(rules[1..], i - 1, strings, paths)
      {
        StuckLater(rules, i - 1, strings, paths);
      }
      forall i: nat | IsStuckAt(rules[1..], i, strings, paths) && ArgPathTest(rules[0], strings, paths) == Some(true)
        ensures IsStuckAt(rules, i + 1, strings, paths)
      {
        StuckLater(rules, i, strings, paths);
      }
    }
  }

  lemma NothingToTest(rules: seq<ArgInfo>, strings: Arguments, paths: Arguments)
    requires rules == []
    ensures AllPathsHold(rules, strings, paths) && forall i: nat :: !IsStuckAt(rules, i, strings, paths)
  {
  }

  lemma StuckFirst(rules: seq<ArgInfo>, strings: Arguments, paths: Arguments)
    requires rules != []
    ensures IsStuckAt(rules, 0, strings, paths) <==> ArgPathTest(rules[0], strings, paths) == None
  {
    hide ArgPathTest;
  }

  /** Where it is defined, a test passes exactly when the condition holds. */
  lemma ArgPathTestIsCondition(rule: ArgInfo, strings: Arguments, paths: Arguments)
    ensures ArgPathTest(rule, strings, paths) == Some(true) ==> PathHolds(rule, strings, paths)
    ensures ArgPathTest(rule, strings, paths) == Some(false) ==> !PathHolds(rule, strings, paths)
    ensures ArgPathTest(rule, strings, paths) == None ==>
              rule.name == [] || (rule.index in paths && paths[rule.index] == [])
              || (rule.index in strings && strings[rule.index] == [])
  {
    hide PathsMatch;
  }

  predicate PathNamespaceHolds(namespace: Option<Text>, objectPath: Option<Text>) {
    namespace.None? || (objectPath.Some? && Contains(objectPath.value, namespace.value))
  }

  /** The first argument must be a string, and begin with the namespace. */
  predicate ArgNamespaceHolds(namespace: Option<Text>, strings: Arguments) {
    namespace.None? || (0 in strings && namespace.value <= strings[0])
  }

  method MatchesArguments(args: seq<ArgInfo>, pathNamespace: Option<Text>, argPaths: seq<ArgInfo>,
                          argNamespace: Option<Text>, objectPath: Option<Text>, strings: Arguments, paths: Arguments)
    returns (r: Tested)
    ensures (forall i :: 0 <= i < |args| ==> TextHolds(args[i], strings))
            && PathNamespaceHolds(pathNamespace, objectPath)
            ==> r == match ArgPathsTest(argPaths, strings, paths)
                     case Some(hold) => Some(hold && ArgNamespaceHolds(argNamespace, strings))
                     case None => None
    ensures !((forall i :: 0 <= i < |args| ==> TextHolds(args[i], strings))
              && PathNamespaceHolds(pathNamespace, objectPath))
            ==> r == Some(false)
  {
    hide PathsMatch, Contains;
    var matches := true;
    for i := 0 to |args|
      invariant matches <==> forall j :: 0 <= j < i ==> TextHolds(args[j], strings)
    {
      if !matches {
        return Some(false);
      }
      if args[i].index in strings {
        matches := strings[args[i].index] == args[i].name;
      } else {
        return Some(false);
      }
    }
    if pathNamespace.Some? {
      if objectPath.None? {
        return Some(false);
      }
      matches := matches && Contains(objectPath.value, pathNamespace.value);
    }
    ghost var beforeLoop := matches;
    for i := 0 to |argPaths|
      invariant matches ==> beforeLoop
      invariant beforeLoop ==> ArgPathsTest(argPaths, strings, paths) ==
                               if matches then ArgPathsTest(argPaths[i..], strings, paths) else Some(false)
    {
      if !matches {
        return Some(false);
      }
      var rule := argPaths[i];
      assert argPaths[i..][0] == rule && argPaths[i..][1..] == argPaths[i + 1..];
      if rule.index !in paths && rule.index !in strings {
        return Some(false);
      }
      var tested := MatchesPath(rule.name, if rule.index in paths then paths[rule.index] else strings[rule.index]);
      if tested.None? {
        return None;
      }
      matches := tested.value;
    }
    assert argPaths[|argPaths|..] == [];
    if argNamespace.Some? {
      if 0 !in strings {
        return Some(false);
      }
      matches := matches && argNamespace.value <= strings[0];
    }
    return Some(matches);
  }

  // ---------- the path-namespace condition ----------

  /** What the namespace condition tests: the path contains the namespace somewhere. */
  predicate Contains(s: Text, t: Text) {
    exists i :: 0 <= i <= |s| && t <= s[i..]
  }

  lemma ContainsIff(s: Text, t: Text)
    ensures Contains(s, t) <==> exists x, y :: s == x + t + y
  {
    if Contains(s, t) {
      var i :| 0 <= i <= |s| && t <= s[i..];
      assert s == s[..i] + t + s[i + |t|..];
    }
    forall x, y | s == x + t + y ensures Contains(s, t) {
      assert s[|x|..] == t + y;
    }
  }

  /** What it is documented to test: the path is the namespace, or the namespace
      followed by one or more path components. */
  predicate InNamespace(ns: Text, path: Text) {
    path == ns || ns == [SLASH] || ns + [SLASH] <= path
  }

  lemma StartsThere(s: Text, t: Text)
    requires t <= s
    ensures Contains(s, t)
  {
    assert s[0..] == s;
  }

  lemma NamespaceIsContained(ns: Text, path: Text)
    requires IsValidPath(ns) && IsValidPath(path) && InNamespace(ns, path)
    ensures Contains(path, ns)
  {
    if path == ns || ns + [SLASH] <= path {
      assert ns == path[..|ns|];
    }
    StartsThere(path, ns);
  }

  /** The test accepts everything documented, but it is exact for every path only
      for the root; any other namespace also accepts its name with a character behind. */
  lemma NamespaceTestIsExactIffRoot(ns: Text)
    requires IsValidPath(ns)
    ensures !PathNamespaceHolds(Some(ns), None)
    ensures (forall path :: IsValidPath(path) ==>
               (PathNamespaceHolds(Some(ns), Some(path)) <==> InNamespace(ns, path))) <==> ns == [SLASH]
  {
    if ns == [SLASH] {
      forall path | IsValidPath(path) ensures Contains(path, ns) && InNamespace(ns, path) {
        NamespaceIsContained(ns, path);
      }
    } else {
      var longer := ns + [120];
      forall i | 0 <= i < |longer| ensures FitsAt(longer, i) {
        if i < |ns| {
          assert FitsAt(ns, i);
        }
      }
      StartsThere(longer, ns);
      assert longer[|ns|] == 120 && (ns + [SLASH])[|ns|] == SLASH;
      assert IsValidPath(longer) && !InNamespace(ns, longer);
    }
  }

  /** The path "/ab" passes for one in the namespace "/a". */
  lemma NamespacesApart(ns: Text, path: Text)
    requires ns == [SLASH, 97] && path == [SLASH, 97, 98]
    ensures IsValidPath(ns) && IsValidPath(path) && Contains(path, ns) && !InNamespace(ns, path)
  {
    StartsThere(path, ns);
    assert path[2] == 98 && (ns + [SLASH])[2] == SLASH;
  }

  // ---------- the first-argument-namespace condition ----------

  const DOT: byte := 46

  /** Section "Match Rules": the name is the namespace, or goes on behind a dot. */
  predicate InNames(ns: Text, name: Text) {
    name == ns || ns + [DOT] <= name
  }

  /** The test is for a prefix, so it goes wrong on exactly the names that have the
      namespace in front and then go on without a dot. */
  lemma ArgNamespaceTestIsExactIff(ns: Text, strings: Arguments)
    ensures (ArgNamespaceHolds(Some(ns), strings) <==> 0 in strings && InNames(ns, strings[0])) <==>
            !(0 in strings && ns < strings[0] && strings[0][|ns|] != DOT)
  {
    if 0 in strings {
      var name := strings[0];
      if ns < name {
        assert ns + [name[|ns|]] <= name;
        assert (ns + [DOT])[|ns|] == DOT;
      }
    }
  }
}
