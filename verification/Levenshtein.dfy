/** Levenshtein distance by dynamic programming, and greedy matching of token lists. */
module Levenshtein {
  function Min(a: nat, b: nat): nat { if a < b then a else b }

  function Init(s: string): string
    requires s != ""
  {
    s[..|s| - 1]
  }

  function Last(s: string): char
    requires s != ""
  {
    s[|s| - 1]
  }

  /** The recurrence of the table: no minimum is taken when the last characters are equal. */
  function Distance(s: string, t: string): nat
    decreases |s| + |t|
  {
    if s == "" then |t|
    else if t == "" then |s|
    else if Last(s) == Last(t) then Distance(Init(s), Init(t))
    else Min(Distance(Init(s), Init(t)), Min(Distance(Init(s), t), Distance(s, Init(t)))) + 1
  }

  method LevenshteinDistance(s1: string, s2: string) returns (d: int)
    ensures d == Distance(s1, s2)
  {
    var len1, len2 := |s1|, |s2|;
    var dp := new int[len1 + 1, len2 + 1]((_, _) => 0);
    for i := 0 to len1 + 1
      invariant forall k :: 0 <= k < i ==> dp[k, 0] == k
    {
      dp[i, 0] := i;
    }
    for j := 0 to len2 + 1
      invariant forall k :: 0 <= k <= len1 ==> dp[k, 0] == k
      invariant forall k :: 0 <= k < j ==> dp[0, k] == k
    {
      dp[0, j] := j;
    }
    for i := 1 to len1 + 1
      invariant forall a, b :: 0 <= a < i && 0 <= b <= len2 ==> dp[a, b] == Distance(s1[..a], s2[..b])
      invariant forall a :: i <= a <= len1 ==> dp[a, 0] == a
    {
      FillRow(dp, s1, s2, i);
    }
    assert s1[..len1] == s1 && s2[..len2] == s2;
    d := dp[len1, len2];
  }

  /** The inner loop: row `i` from the row before it. */
  method FillRow(dp: array2<int>, s1: string, s2: string, i: nat)
    requires dp.Length0 == |s1| + 1 && dp.Length1 == |s2| + 1 && 0 < i <= |s1| && dp[i, 0] == i
    requires forall b :: 0 <= b <= |s2| ==> dp[i - 1, b] == Distance(s1[..i - 1], s2[..b])
    modifies dp
    ensures forall b :: 0 <= b <= |s2| ==> dp[i, b] == Distance(s1[..i], s2[..b])
    ensures forall a, b :: 0 <= a <= |s1| && 0 <= b <= |s2| && a != i ==> dp[a, b] == old(dp[a, b])
  {
    for j := 1 to |s2| + 1
      invariant forall b :: 0 <= b < j ==> dp[i, b] == Distance(s1[..i], s2[..b])
      invariant forall a, b :: 0 <= a <= |s1| && 0 <= b <= |s2| && a != i ==> dp[a, b] == old(dp[a, b])
    {
      Cell(s1, s2, i, j);
      if s1[i - 1] == s2[j - 1] {
        dp[i, j] := dp[i - 1, j - 1];
      } else {
        var m := dp[i - 1, j - 1];
        if dp[i - 1, j] < m { m := dp[i - 1, j]; }
        if dp[i, j - 1] < m { m := dp[i, j - 1]; }
        dp[i, j] := m + 1;
      }
    }
  }

  lemma Cell(s1: string, s2: string, i: nat, j: nat)
    requires 0 < i <= |s1| && 0 < j <= |s2|
    ensures Distance(s1[..i], s2[..j]) ==
      if s1[i - 1] == s2[j - 1] then Distance(s1[..i - 1], s2[..j - 1])
      else Min(Distance(s1[..i - 1], s2[..j - 1]), Min(Distance(s1[..i - 1], s2[..j]),
        Distance(s1[..i], s2[..j - 1]))) + 1
  {
    assert Init(s1[..i]) == s1[..i - 1] && Init(s2[..j]) == s2[..j - 1];
  }

  // ---------------------------------------------------------------------------------------------
  // A metric
  // ---------------------------------------------------------------------------------------------

  lemma {:induction false} Symmetric(s: string, t: string)
    ensures Distance(s, t) == Distance(t, s)
    decreases |s| + |t|
  {
    if s != "" && t != "" {
      Symmetric(Init(s), Init(t));
      if Last(s) != Last(t) {
        Symmetric(Init(s), t);
        Symmetric(s, Init(t));
      }
    }
  }

  /** One more character on one side changes the distance by at most one. */
  lemma {:induction false} OneMoreCharacter(s: string, t: string)
    requires t != ""
    ensures Distance(s, t) <= Distance(s, Init(t)) + 1
    ensures Distance(s, Init(t)) <= Distance(s, t) + 1
    decreases |s| + |t|
  {
    if s != "" {
      Symmetric(s, Init(t));
      Symmetric(Init(s), Init(t));
      OneMoreCharacter(Init(t), s);
      if Last(s) != Last(t) {
        OneMoreCharacter(Init(s), t);
      }
    }
  }

  lemma {:induction false} OneMoreInFirst(s: string, t: string)
    requires s != ""
    ensures Distance(s, t) <= Distance(Init(s), t) + 1
    ensures Distance(Init(s), t) <= Distance(s, t) + 1
  {
    OneMoreCharacter(t, s);
    Symmetric(s, t);
    Symmetric(Init(s), t);
  }

  lemma {:induction false} ZeroOnlyWhenEqual(s: string, t: string)
    ensures Distance(s, t) == 0 <==> s == t
    decreases |s| + |t|
  {
    if s != "" && t != "" {
      ZeroOnlyWhenEqual(Init(s), Init(t));
      assert s == Init(s) + [Last(s)] && t == Init(t) + [Last(t)];
    }
  }

  lemma {:induction false} Triangle(s: string, t: string, u: string)
    ensures Distance(s, u) <= Distance(s, t) + Distance(t, u)
    decreases |s| + |t| + |u|
  {
    LengthDifference(s, t);
    LengthDifference(t, u);
    if s != "" && t == "" {
      OneMoreInFirst(s, u);
      Triangle(Init(s), t, u);
    } else if s != "" && u != "" {
      OneMoreInFirst(s, u);
      OneMoreCharacter(s, u);
      Triangle(Init(s), t, u);
      Triangle(s, Init(t), u);
      Triangle(s, t, Init(u));
      Triangle(Init(s), Init(t), u);
      Triangle(s, Init(t), Init(u));
      Triangle(Init(s), Init(t), Init(u));
    }
  }

  /** The distance is at least the difference of the lengths. */
  lemma {:induction false} LengthDifference(s: string, t: string)
    ensures |s| <= Distance(s, t) + |t| && |t| <= Distance(s, t) + |s|
    decreases |s| + |t|
  {
    if s != "" && t != "" {
      LengthDifference(Init(s), Init(t));
      LengthDifference(Init(s), t);
      LengthDifference(s, Init(t));
    }
  }

  // ---------------------------------------------------------------------------------------------
  // Least number of edits
  // ---------------------------------------------------------------------------------------------

  /** One insertion, deletion or substitution of a character, anywhere. */
  datatype Edit = Insert(at: nat, c: char) | Delete(at: nat) | Substitute(at: nat, c: char)

  predicate Applies(e: Edit, s: string) {
    if e.Insert? then e.at <= |s| else e.at < |s|
  }

  function Apply(e: Edit, s: string): string
    requires Applies(e, s)
  {
    match e
    case Insert(at, c) => s[..at] + [c] + s[at..]
    case Delete(at) => s[..at] + s[at + 1..]
    case Substitute(at, c) => s[..at] + [c] + s[at + 1..]
  }

  /** A script is applied from its first edit on. */
  predicate Turns(script: seq<Edit>, s: string, t: string)
    decreases |script|
  {
    if script == [] then s == t else Applies(script[0], s) && Turns(script[1..], Apply(script[0], s), t)
  }

  lemma {:induction false} CommonSuffix(s: string, t: string, z: string)
    ensures Distance(s + z, t + z) <= Distance(s, t)
    decreases |z|
  {
    if z == "" {
      assert s + z == s && t + z == t;
    } else {
      CommonSuffix(s, t, Init(z));
      assert Init(s + z) == s + Init(z) && Init(t + z) == t + Init(z);
    }
  }

  /** A single edit moves a string by a distance of at most one. */
  lemma {:induction false} OneEditIsNear(e: Edit, s: string)
    requires Applies(e, s)
    ensures Distance(s, Apply(e, s)) <= 1
  {
    match e
    case Insert(at, c) =>
      var x, z := s[..at], s[at..];
      OneMoreCharacter(x, x + [c]);
      ZeroOnlyWhenEqual(x, x);
      assert Init(x + [c]) == x && s == x + z;
      CommonSuffix(x, x + [c], z);
    case Delete(at) =>
      var x, z := s[..at], s[at + 1..];
      OneMoreInFirst(x + [s[at]], x);
      ZeroOnlyWhenEqual(x, x);
      assert Init(x + [s[at]]) == x && s == x + [s[at]] + z;
      CommonSuffix(x + [s[at]], x, z);
    case Substitute(at, c) =>
      var x, z := s[..at], s[at + 1..];
      ZeroOnlyWhenEqual(x, x);
      assert Init(x + [s[at]]) == x && Init(x + [c]) == x && s == x + [s[at]] + z;
      CommonSuffix(x + [s[at]], x + [c], z);
  }

  /** No script is shorter than the distance. */
  lemma {:induction false} NoShorterScript(script: seq<Edit>, s: string, t: string)
    requires Turns(script, s, t)
    ensures Distance(s, t) <= |script|
    decreases |script|
  {
    if script == [] {
      ZeroOnlyWhenEqual(s, t);
    } else {
      var m := Apply(script[0], s);
      OneEditIsNear(script[0], s);
      NoShorterScript(script[1..], m, t);
      Triangle(s, m, t);
    }
  }

  lemma ApplyBeforeSuffix(e: Edit, s: string, z: string)
    requires Applies(e, s)
    ensures Applies(e, s + z) && Apply(e, s + z) == Apply(e, s) + z
  {
    assert (s + z)[..e.at] == s[..e.at];
    if e.Insert? {
      assert (s + z)[e.at..] == s[e.at..] + z;
    } else {
      assert (s + z)[e.at + 1..] == s[e.at + 1..] + z;
    }
  }

  /** Edits at the front of a longer string do the same there. */
  lemma {:induction false} ScriptBeforeSuffix(script: seq<Edit>, s: string, t: string, z: string)
    requires Turns(script, s, t)
    ensures Turns(script, s + z, t + z)
    decreases |script|
  {
    if script != [] {
      ApplyBeforeSuffix(script[0], s, z);
      ScriptBeforeSuffix(script[1..], Apply(script[0], s), t, z);
    }
  }

  lemma InitAndLast(s: string)
    requires s != ""
    ensures s == Init(s) + [Last(s)]
  {
  }

  lemma {:induction false} ScriptBeforeLast(script: seq<Edit>, x: string, y: string, c: char, s: string, t: string)
    requires Turns(script, x, y) && s == x + [c] && t == y + [c]
    ensures Turns(script, s, t)
  {
    ScriptBeforeSuffix(script, x, y, [c]);
  }

  lemma {:induction false} FirstEdit(e: Edit, rest: seq<Edit>, s: string, t: string)
    requires Applies(e, s) && Turns(rest, Apply(e, s), t)
    ensures Turns([e] + rest, s, t)
  {
    assert ([e] + rest)[1..] == rest;
  }

  lemma {:induction false} InsertLast(rest: seq<Edit>, s: string, t: string)
    requires t != "" && Turns(rest, s, Init(t))
    ensures Turns([Insert(|s|, Last(t))] + rest, s, t)
  {
    ScriptBeforeSuffix(rest, s, Init(t), [Last(t)]);
    assert t == Init(t) + [Last(t)] && Apply(Insert(|s|, Last(t)), s) == s + [Last(t)];
    FirstEdit(Insert(|s|, Last(t)), rest, s, t);
  }

  lemma {:induction false} DeleteLast(rest: seq<Edit>, s: string, t: string)
    requires s != "" && Turns(rest, Init(s), t)
    ensures Turns([Delete(|s| - 1)] + rest, s, t)
  {
    assert Apply(Delete(|s| - 1), s) == Init(s);
    FirstEdit(Delete(|s| - 1), rest, s, t);
  }

  lemma {:induction false} KeepLast(rest: seq<Edit>, s: string, t: string)
    requires s != "" && t != "" && Last(s) == Last(t) && Turns(rest, Init(s), Init(t))
    ensures Turns(rest, s, t)
  {
    InitAndLast(s);
    InitAndLast(t);
    ScriptBeforeLast(rest, Init(s), Init(t), Last(t), s, t);
  }

  lemma LastSubstituted(s: string, c: char)
    requires s != ""
    ensures Apply(Substitute(|s| - 1, c), s) == Init(s) + [c]
  {
  }

  lemma {:induction false} SubstituteLast(rest: seq<Edit>, s: string, t: string)
    requires s != "" && t != "" && Turns(rest, Init(s), Init(t))
    ensures Turns([Substitute(|s| - 1, Last(t))] + rest, s, t)
  {
    var e := Substitute(|s| - 1, Last(t));
    InitAndLast(t);
    LastSubstituted(s, Last(t));
    ScriptBeforeLast(rest, Init(s), Init(t), Last(t), Apply(e, s), t);
    FirstEdit(e, rest, s, t);
  }

  /** Some script has exactly as many edits as the distance. */
  lemma {:induction false} SomeScript(s: string, t: string) returns (script: seq<Edit>)
    ensures Turns(script, s, t) && |script| == Distance(s, t)
    decreases |s| + |t|
  {
    if s == "" && t == "" {
      script := [];
    } else if s == "" || (t != "" && Last(s) != Last(t) && Distance(s, t) == Distance(s, Init(t)) + 1) {
      var rest := SomeScript(s, Init(t));
      InsertLast(rest, s, t);
      script := [Insert(|s|, Last(t))] + rest;
    } else if t == "" || (Last(s) != Last(t) && Distance(s, t) == Distance(Init(s), t) + 1) {
      var rest := SomeScript(Init(s), t);
      DeleteLast(rest, s, t);
      script := [Delete(|s| - 1)] + rest;
    } else {
      var rest := SomeScript(Init(s), Init(t));
      if Last(s) == Last(t) {
        KeepLast(rest, s, t);
        script := rest;
      } else {
        SubstituteLast(rest, s, t);
        script := [Substitute(|s| - 1, Last(t))] + rest;
      }
    }
  }

  /** The distance is the least number of edits that turn one string into the other. */
  lemma {:induction false} DistanceIsLeastEdits(s: string, t: string)
    ensures exists script :: Turns(script, s, t) && |script| == Distance(s, t)
    ensures forall script :: Turns(script, s, t) ==> Distance(s, t) <= |script|
  {
    var best := SomeScript(s, t);
    forall script | Turns(script, s, t)
      ensures Distance(s, t) <= |script|
    {
      NoShorterScript(script, s, t);
    }
  }

  // ---------------------------------------------------------------------------------------------
  // Greedy matching of tokens
  // ---------------------------------------------------------------------------------------------

  /** The characters that stream extraction skips. */
  predicate IsSpace(c: char) {
    c == ' ' || c == '\t' || c == '\n' || c == '\r' || c as int == 11 || c as int == 12
  }

  /** The first position from `i` on whose character is, or is not, white space. */
  function Skip(s: string, i: nat, space: bool): (e: nat)
    requires i <= |s|
    ensures i <= e <= |s| && (forall k :: i <= k < e ==> IsSpace(s[k]) == space) && (e < |s| ==> IsSpace(s[e]) != space)
    decreases |s| - i
  {
    if i < |s| && IsSpace(s[i]) == space then Skip(s, i + 1, space) else i
  }

  /** The maximal runs of other characters, from position `i` on. */
  function Tokens(s: string, i: nat): seq<string>
    requires i <= |s|
    decreases |s| - i
  {
    var start := Skip(s, i, true);
    var end := Skip(s, start, false);
    if start == |s| then [] else [s[start..end]] + Tokens(s, end)
  }

  method Tokenize(s: string) returns (tokens: seq<string>)
    ensures tokens == Tokens(s, 0)
  {
    tokens := [];
    var i := 0;
    while true
      invariant i <= |s| && tokens + Tokens(s, i) == Tokens(s, 0)
      decreases |s| - i
    {
      var start := Skip(s, i, true);
      if start == |s| {
        return;
      }
      var end := Skip(s, start, false);
      assert tokens + ([s[start..end]] + Tokens(s, end)) == tokens + [s[start..end]] + Tokens(s, end);
      tokens := tokens + [s[start..end]];
      i := end;
    }
  }

  predicate WhiteSpace(s: string) {
    forall k :: 0 <= k < |s| ==> s[k] in [' ', '\t', '\n', '\r', '\U{0B}', '\U{0C}']
  }

  predicate IsWord(s: string) {
    s != "" && forall k :: 0 <= k < |s| ==> s[k] !in [' ', '\t', '\n', '\r', '\U{0B}', '\U{0C}']
  }

  /** Words written down, each with white space before it, and white space at the end. */
  function Written(words: seq<string>, gaps: seq<string>, trail: string): string
    requires |words| == |gaps|
  {
    if words == [] then trail else gaps[0] + (words[0] + Written(words[1..], gaps[1..], trail))
  }

  lemma SpaceIsListed(c: char)
    ensures IsSpace(c) <==> c in [' ', '\t', '\n', '\r', '\U{0B}', '\U{0C}']
  {
    var vertical, feed := '\U{0B}', '\U{0C}';
    assert vertical as int == 11 && feed as int == 12;
    if c as int == 11 {
      assert c == vertical;
    } else if c as int == 12 {
      assert c == feed;
    }
  }

  lemma {:induction false} SkipsTo(s: string, i: nat, e: nat, space: bool)
    requires i <= e <= |s| && (forall k :: i <= k < e ==> IsSpace(s[k]) == space)
    requires e < |s| ==> IsSpace(s[e]) != space
    ensures Skip(s, i, space) == e
    decreases e - i
  {
    if i < e {
      SkipsTo(s, i + 1, e, space);
    }
  }

  lemma PartIsAll(s: string, a: nat, b: nat, part: string, space: bool)
    requires a <= b <= |s| && s[a..b] == part && if space then WhiteSpace(part) else IsWord(part)
    ensures forall k :: a <= k < b ==> IsSpace(s[k]) == space
  {
    forall k | a <= k < b
      ensures IsSpace(s[k]) == space
    {
      SpaceIsListed(s[k]);
      assert s[k] == part[k - a];
    }
  }

  lemma CutText(s: string, i: nat, gap: string, word: string, rest: string)
    requires i <= |s| && s[i..] == gap + (word + rest)
    ensures var a, b := i + |gap|, i + |gap| + |word|;
      b <= |s| && s[i..a] == gap && s[a..b] == word && s[b..] == rest && (rest != "" ==> s[b] == rest[0])
  {
    var all, a, b := gap + (word + rest), i + |gap|, i + |gap| + |word|;
    assert all[..|gap|] == gap && all[|gap|..|gap| + |word|] == word && all[|gap| + |word|..] == rest;
    assert s[i..a] == all[..|gap|] && s[a..b] == all[|gap|..|gap| + |word|] && s[b..] == all[|gap| + |word|..];
  }

  lemma StartsWithSpace(rest: string, c: char)
    requires rest != "" && c == rest[0] && WhiteSpace(rest[..1])
    ensures IsSpace(c)
  {
    SpaceIsListed(c);
    assert rest[..1][0] == c;
  }

  /** One word from a position on, with the white space before it. */
  lemma OneToken(s: string, i: nat, gap: string, word: string, rest: string) returns (j: nat)
    requires i <= |s| && s[i..] == gap + (word + rest) && WhiteSpace(gap) && IsWord(word)
    requires rest == "" || WhiteSpace(rest[..1])
    ensures j == i + |gap| + |word| <= |s| && s[j..] == rest && Tokens(s, i) == [word] + Tokens(s, j)
  {
    j := i + |gap| + |word|;
    CutText(s, i, gap, word, rest);
    TokenThere(s, i, i + |gap|, j, gap, word, rest);
  }

  lemma TokenThere(s: string, i: nat, a: nat, b: nat, gap: string, word: string, rest: string)
    requires i <= a <= b <= |s| && s[i..a] == gap && s[a..b] == word && WhiteSpace(gap) && IsWord(word)
    requires (b < |s| ==> rest != "" && s[b] == rest[0]) && (rest == "" || WhiteSpace(rest[..1]))
    ensures Tokens(s, i) == [word] + Tokens(s, b)
  {
    PartIsAll(s, i, a, gap, true);
    PartIsAll(s, a, b, word, false);
    if b < |s| {
      StartsWithSpace(rest, s[b]);
    }
    TokenEnds(s, i, a, b);
  }

  lemma TokenEnds(s: string, i: nat, a: nat, b: nat)
    requires i <= a < b <= |s| && (forall k :: i <= k < a ==> IsSpace(s[k]))
    requires forall k :: a <= k < b ==> !IsSpace(s[k])
    requires b < |s| ==> IsSpace(s[b])
    ensures Tokens(s, i) == [s[a..b]] + Tokens(s, b)
  {
    SkipsTo(s, i, a, true);
    SkipsTo(s, a, b, false);
  }

  predicate WellWritten(words: seq<string>, gaps: seq<string>, trail: string) {
    && |words| == |gaps| && WhiteSpace(trail)
    && forall k :: 0 <= k < |words| ==> IsWord(words[k]) && WhiteSpace(gaps[k]) && (k > 0 ==> gaps[k] != "")
  }

  lemma MoreWellWritten(words: seq<string>, gaps: seq<string>, trail: string)
    requires words != [] && WellWritten(words, gaps, trail)
    ensures IsWord(words[0]) && WhiteSpace(gaps[0])
    ensures WellWritten(words[1..], gaps[1..], trail)
    ensures var rest := Written(words[1..], gaps[1..], trail); rest == "" || WhiteSpace(rest[..1])
  {
  }

  lemma NoMoreTokens(s: string, i: nat)
    requires i <= |s| && WhiteSpace(s[i..])
    ensures Tokens(s, i) == []
  {
    forall k | i <= k < |s|
      ensures IsSpace(s[k])
    {
      SpaceIsListed(s[k]);
      assert s[k] == s[i..][k - i];
    }
    SkipsTo(s, i, |s|, true);
  }

  lemma FirstToken(words: seq<string>, gaps: seq<string>, trail: string, s: string, i: nat) returns (j: nat)
    requires words != [] && WellWritten(words, gaps, trail) && i <= |s| && s[i..] == Written(words, gaps, trail)
    ensures j <= |s| && s[j..] == Written(words[1..], gaps[1..], trail) && Tokens(s, i) == [words[0]] + Tokens(s, j)
  {
    MoreWellWritten(words, gaps, trail);
    j := OneToken(s, i, gaps[0], words[0], Written(words[1..], gaps[1..], trail));
  }

  lemma WordsJoin(words: seq<string>, tokens: seq<string>, more: seq<string>)
    requires words != [] && tokens == [words[0]] + more && more == words[1..]
    ensures tokens == words
  {
  }

  /** Words with white space between them, before them and after them are the tokens of the text. */
  lemma {:induction false} WordsAreTokens(words: seq<string>, gaps: seq<string>, trail: string, s: string, i: nat,
                                          tokens: seq<string>)
    requires WellWritten(words, gaps, trail) && i <= |s| && s[i..] == Written(words, gaps, trail)
    requires tokens == Tokens(s, i)
    ensures tokens == words
    decreases |words|
  {
    if words == [] {
      NoMoreTokens(s, i);
    } else {
      var j := FirstToken(words, gaps, trail, s, i);
      MoreWellWritten(words, gaps, trail);
      WordsAreTokens(words[1..], gaps[1..], trail, s, j, Tokens(s, j));
      WordsJoin(words, tokens, Tokens(s, j));
    }
  }

  /** Positions from `i` on, strictly increasing, that put each of the wanted tokens from `j` on within the
      allowed distance. */
  ghost predicate Places(tokens: seq<string>, wanted: seq<string>, max: int, i: nat, j: nat, at: seq<nat>) {
    && j <= |wanted| && |at| == |wanted| - j
    && (forall k :: 0 <= k < |at| ==> i <= at[k] < |tokens| && Distance(tokens[at[k]], wanted[j + k]) <= max)
    && (forall k, l :: 0 <= k < l < |at| ==> at[k] < at[l])
  }

  ghost predicate CanPlace(tokens: seq<string>, wanted: seq<string>, max: int, i: nat, j: nat) {
    exists at :: Places(tokens, wanted, max, i, j, at)
  }

  /** Taking the first fit, or passing over a token that does not fit, keeps every solution. */
  lemma GreedyStep(tokens: seq<string>, wanted: seq<string>, max: int, i: nat, j: nat)
    requires i < |tokens| && j < |wanted|
    ensures CanPlace(tokens, wanted, max, i, j) <==>
      CanPlace(tokens, wanted, max, i + 1, if Distance(tokens[i], wanted[j]) <= max then j + 1 else j)
  {
    if CanPlace(tokens, wanted, max, i, j) {
      var at :| Places(tokens, wanted, max, i, j, at);
      if Distance(tokens[i], wanted[j]) <= max {
        assert Places(tokens, wanted, max, i + 1, j + 1, at[1..]) by {
          forall k | 0 <= k < |at| - 1
            ensures i + 1 <= at[1..][k] < |tokens| && Distance(tokens[at[1..][k]], wanted[j + 1 + k]) <= max
          {
            assert at[0] < at[k + 1];
          }
        }
      } else {
        assert at[0] != i;
        assert Places(tokens, wanted, max, i + 1, j, at);
      }
    }
    if Distance(tokens[i], wanted[j]) <= max {
      if CanPlace(tokens, wanted, max, i + 1, j + 1) {
        var at :| Places(tokens, wanted, max, i + 1, j + 1, at);
        assert Places(tokens, wanted, max, i, j, [i] + at);
      }
    } else if CanPlace(tokens, wanted, max, i + 1, j) {
      var at :| Places(tokens, wanted, max, i + 1, j, at);
      assert Places(tokens, wanted, max, i, j, at);
    }
  }

  /** True exactly when the tokens of the second string can be found, each within the distance, at strictly
      increasing positions of the first. */
  method IsNearlyMatched(str1: string, str2: string, maxDistance: int) returns (matched: bool)
    ensures matched <==> CanPlace(Tokens(str1, 0), Tokens(str2, 0), maxDistance, 0, 0)
  {
    var tokens1 := Tokenize(str1);
    var tokens2 := Tokenize(str2);
    var i, j := 0, 0;
    while i < |tokens1| && j < |tokens2|
      invariant i <= |tokens1| && j <= |tokens2|
      invariant CanPlace(tokens1, tokens2, maxDistance, i, j) <==> CanPlace(tokens1, tokens2, maxDistance, 0, 0)
    {
      var dist := LevenshteinDistance(tokens1[i], tokens2[j]);
      GreedyStep(tokens1, tokens2, maxDistance, i, j);
      if dist <= maxDistance {
        j := j + 1;
      }
      i := i + 1;
    }
    matched := j == |tokens2|;
    if matched {
      assert Places(tokens1, tokens2, maxDistance, i, j, []);
    } else {
      forall at
        ensures !Places(tokens1, tokens2, maxDistance, i, j, at)
      {
        assert |at| > 0 ==> !(i <= at[0] < |tokens1|);
      }
    }
  }
}
