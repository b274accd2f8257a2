/** The pattern language of keys: '?' is any one character, '*' any run of characters. */
module Wildcards {
  /** The position of the first NUL from `i` on, or the length. */
  function Nul(s: string, i: nat): (k: nat)
    requires i <= |s|
    ensures i <= k <= |s|
    decreases |s| - i
  {
    if i == |s| || s[i] == '\0' then i else Nul(s, i + 1)
  }

  lemma {:induction false} NulIsFirst(s: string, i: nat)
    requires i <= |s|
    ensures var k := Nul(s, i); (forall j :: i <= j < k ==> s[j] != '\0') && (k < |s| ==> s[k] == '\0')
    decreases |s| - i
  {
    if i < |s| && s[i] != '\0' {
      NulIsFirst(s, i + 1);
    }
  }

  /** What `c_str()` shows of a `std::string`. */
  function CStr(s: string): (c: string)
  {
    s[..Nul(s, 0)]
  }

  lemma CStrIsCString(s: string)
    ensures var c := CStr(s); c <= s && '\0' !in c && (|c| < |s| ==> s[|c|] == '\0')
  {
    NulIsFirst(s, 0);
  }

  // ---------------------------------------------------------------------------------------------
  // The language of a pattern
  // ---------------------------------------------------------------------------------------------

  /** The rest of the pattern from `w` matches the rest of the string from `s`. */
  predicate MatchesFrom(wild: string, str: string, w: nat, s: nat)
    requires w <= |wild| && s <= |str|
    decreases |wild| - w, |str| - s
  {
    if w == |wild| then s == |str|
    else if wild[w] == '*' then MatchesFrom(wild, str, w + 1, s) || (s < |str| && MatchesFrom(wild, str, w, s + 1))
    else s < |str| && (wild[w] == str[s] || wild[w] == '?') && MatchesFrom(wild, str, w + 1, s + 1)
  }

  predicate Matches(wild: string, str: string) {
    MatchesFrom(wild, str, 0, 0)
  }

  /** The same on the rests themselves. */
  predicate Suits(wild: string, str: string)
    decreases |wild|, |str|
  {
    if wild == "" then str == ""
    else if wild[0] == '*' then Suits(wild[1..], str) || (str != "" && Suits(wild, str[1..]))
    else str != "" && (wild[0] == str[0] || wild[0] == '?') && Suits(wild[1..], str[1..])
  }

  /** One piece of the string for each character of the pattern. */
  ghost predicate Stands(c: char, piece: string) {
    c == '*' || (|piece| == 1 && (c == '?' || piece[0] == c))
  }

  ghost function Joined(pieces: seq<string>): string {
    if pieces == [] then "" else pieces[0] + Joined(pieces[1..])
  }

  ghost predicate Spelled(wild: string, pieces: seq<string>, str: string) {
    |pieces| == |wild| && Joined(pieces) == str && forall i :: 0 <= i < |wild| ==> Stands(wild[i], pieces[i])
  }

  /** A string is in the language of the pattern when it is put together from such pieces. */
  ghost predicate InLanguage(wild: string, str: string) {
    exists pieces :: Spelled(wild, pieces, str)
  }

  lemma {:induction false} SuitsInLanguage(wild: string, str: string) returns (pieces: seq<string>)
    requires Suits(wild, str)
    ensures Spelled(wild, pieces, str)
    decreases |wild|, |str|
  {
    if wild == "" {
      pieces := [];
    } else if wild[0] == '*' && !Suits(wild[1..], str) {
      var rest := SuitsInLanguage(wild, str[1..]);
      pieces := [[str[0]] + rest[0]] + rest[1..];
      assert pieces[1..] == rest[1..];
    } else {
      var first := if wild[0] == '*' then "" else str[..1];
      var rest := SuitsInLanguage(wild[1..], str[|first|..]);
      pieces := [first] + rest;
      assert pieces[1..] == rest;
    }
  }

  lemma {:induction false} LanguageSuits(wild: string, pieces: seq<string>, str: string)
    requires Spelled(wild, pieces, str)
    ensures Suits(wild, str)
    decreases |wild|, |str|
  {
    if wild != "" {
      assert Stands(wild[0], pieces[0]);
      if wild[0] == '*' && pieces[0] != "" {
        var rest := [pieces[0][1..]] + pieces[1..];
        assert rest[1..] == pieces[1..];
        LanguageSuits(wild, rest, str[1..]);
      } else {
        LanguageSuits(wild[1..], pieces[1..], str[|pieces[0]|..]);
      }
    }
  }

  lemma MatchesIsLanguage(wild: string, str: string)
    ensures Matches(wild, str) <==> InLanguage(wild, str)
  {
    MatchesIsSuits(wild, str);
    if Suits(wild, str) {
      var pieces := SuitsInLanguage(wild, str);
    }
    if InLanguage(wild, str) {
      var pieces :| Spelled(wild, pieces, str);
      LanguageSuits(wild, pieces, str);
    }
  }

  // ---------------------------------------------------------------------------------------------
  // Why the last star is enough
  // ---------------------------------------------------------------------------------------------

  /** A pattern that starts with a star matches as early as it can. */
  lemma {:induction false} StarAbsorbs(wild: string, str: string, k: nat)
    requires wild != "" && wild[0] == '*' && k <= |str| && Suits(wild, str[k..])
    ensures Suits(wild, str)
    decreases k
  {
    if k == 0 {
      assert str[0..] == str;
    } else {
      assert str[1..][k - 1..] == str[k..];
      StarAbsorbs(wild, str[1..], k - 1);
    }
  }

  lemma {:induction false} SkipSegment(segment: string, rest: string, str: string)
    requires '*' !in segment && Suits(segment + rest, str)
    ensures |segment| <= |str| && Suits(rest, str[|segment|..])
    decreases |segment|
  {
    if segment == "" {
      assert segment + rest == rest && str[0..] == str;
    } else {
      assert (segment + rest)[0] == segment[0] && (segment + rest)[1..] == segment[1..] + rest;
      SkipSegment(segment[1..], rest, str[1..]);
      assert str[1..][|segment| - 1..] == str[|segment|..];
    }
  }

  /** After a star, a segment without stars is found somewhere, and the rest of the pattern follows it. */
  lemma {:induction false} FindSegment(segment: string, rest: string, str: string) returns (p: nat)
    requires '*' !in segment && Suits("*" + segment + rest, str)
    ensures p + |segment| <= |str| && Suits(rest, str[p + |segment|..])
    decreases |str|
  {
    var wild := "*" + segment + rest;
    assert wild[1..] == segment + rest;
    if Suits(segment + rest, str) {
      SkipSegment(segment, rest, str);
      p := 0;
    } else {
      var q := FindSegment(segment, rest, str[1..]);
      p := q + 1;
      assert str[1..][q + |segment|..] == str[p + |segment|..];
    }
  }

  // ---------------------------------------------------------------------------------------------
  // The matcher
  // ---------------------------------------------------------------------------------------------

  lemma {:induction false} FromIsSuits(wild: string, str: string, w: nat, s: nat)
    requires w <= |wild| && s <= |str|
    ensures MatchesFrom(wild, str, w, s) <==> Suits(wild[w..], str[s..])
    decreases |wild| - w, |str| - s
  {
    if w < |wild| {
      assert wild[w..][1..] == wild[w + 1..];
      if s < |str| {
        assert str[s..][1..] == str[s + 1..];
        FromIsSuits(wild, str, w + 1, s + 1);
      }
      FromIsSuits(wild, str, w + 1, s);
      if wild[w] == '*' && s < |str| {
        FromIsSuits(wild, str, w, s + 1);
      }
    }
  }

  lemma {:induction false} MatchesIsSuits(wild: string, str: string)
    ensures Matches(wild, str) <==> Suits(wild, str)
  {
    FromIsSuits(wild, str, 0, 0);
    assert wild[0..] == wild && str[0..] == str;
  }

  /** What can still match when the last star was at `mp - 1` and the segment after it is tried from `cp - 1`. */
  ghost predicate Resumes(wild: string, str: string, mp: nat, cp: nat)
    requires 0 < mp <= |wild|
  {
    cp <= |str| && MatchesFrom(wild, str, mp - 1, cp)
  }

  /** `wild[mp..w]` is the segment after the last star, and `str[cp - 1..s]` is read against it. */
  ghost predicate Segment(wild: string, str: string, mp: nat, cp: nat, w: nat, s: nat) {
    && 0 < mp <= w <= |wild| && 0 < cp <= s + 1 && s <= |str| && w - mp == s - (cp - 1)
    && wild[mp - 1] == '*' && forall i :: mp <= i < w ==> wild[i] != '*'
  }

  lemma Resumed(wild: string, str: string, mp: nat, cp: nat, w: nat, s: nat) returns (k: nat)
    requires Segment(wild, str, mp, cp, w, s) && Resumes(wild, str, mp, cp)
    ensures s < k <= |str| && Suits(wild[w..], str[k..])
  {
    FromIsSuits(wild, str, mp - 1, cp);
    assert wild[mp - 1..] == "*" + wild[mp..w] + wild[w..];
    var p := FindSegment(wild[mp..w], wild[w..], str[cp..]);
    k := cp + p + (w - mp);
    assert str[cp..][p + |wild[mp..w]|..] == str[k..];
  }

  /** At the next star, going back to the one before cannot match anything more. */
  lemma {:induction false} LastStarIsEnough(wild: string, str: string, mp: nat, cp: nat, w: nat, s: nat)
    requires Segment(wild, str, mp, cp, w, s) && w < |wild| && wild[w] == '*'
    ensures Resumes(wild, str, mp, cp) ==> MatchesFrom(wild, str, w, s)
  {
    if Resumes(wild, str, mp, cp) {
      var k := Resumed(wild, str, mp, cp, w, s);
      assert str[s..][k - s..] == str[k..];
      StarAbsorbs(wild[w..], str[s..], k - s);
      FromIsSuits(wild, str, w, s);
    }
  }

  /** At the end of the string, going back to the last star cannot match any more. */
  lemma NothingToResume(wild: string, str: string, mp: nat, cp: nat, w: nat)
    requires Segment(wild, str, mp, cp, w, |str|)
    ensures !Resumes(wild, str, mp, cp)
  {
    if Resumes(wild, str, mp, cp) {
      var k := Resumed(wild, str, mp, cp, w, |str|);
    }
  }

  lemma {:induction false} TrailingStar(wild: string, str: string, w: nat, s: nat)
    requires w + 1 == |wild| && wild[w] == '*' && s <= |str|
    ensures MatchesFrom(wild, str, w, s)
    decreases |str| - s
  {
    if s < |str| {
      TrailingStar(wild, str, w, s + 1);
    }
  }

  /** True exactly when the string is in the language of the pattern. The terminating NUL is left off both. */
  method Wildcmp(wild: string, str: string) returns (matched: bool)
    ensures matched <==> Matches(wild, str)
  {
    var w, s := 0, 0;
    while s < |str| && !(w < |wild| && wild[w] == '*')
      invariant 0 <= w <= |wild| && 0 <= s <= |str|
      invariant Matches(wild, str) == MatchesFrom(wild, str, w, s)
    {
      if w == |wild| || (wild[w] != str[s] && wild[w] != '?') {
        return false;
      }
      w, s := w + 1, s + 1;
    }
    matched := ResumeAtStars(wild, str, w, s);
  }

  /** What is still to be decided: a match from here, or from a later place after the last star. */
  ghost predicate Pending(wild: string, str: string, mp: nat, cp: nat, w: nat, s: nat)
    requires w <= |wild| && s <= |str| && 0 < mp <= |wild|
  {
    MatchesFrom(wild, str, w, s) || Resumes(wild, str, mp, cp)
  }

  lemma {:induction false} NewStar(wild: string, str: string, mp: nat, cp: nat, w: nat, s: nat)
    requires w < |wild| && wild[w] == '*' && s < |str| && mp <= |wild| && (mp != 0 ==> Segment(wild, str, mp, cp, w, s))
    ensures Pending(wild, str, w + 1, s + 1, w + 1, s) ==
      if mp == 0 then MatchesFrom(wild, str, w, s) else Pending(wild, str, mp, cp, w, s)
  {
    if mp != 0 {
      LastStarIsEnough(wild, str, mp, cp, w, s);
    }
  }

  lemma OneMatches(wild: string, str: string, mp: nat, cp: nat, w: nat, s: nat)
    requires w < |wild| && wild[w] != '*' && s < |str| && (wild[w] == str[s] || wild[w] == '?') && 0 < mp <= |wild|
    ensures Pending(wild, str, mp, cp, w + 1, s + 1) == Pending(wild, str, mp, cp, w, s)
  {
  }

  lemma Rewind(wild: string, str: string, mp: nat, cp: nat, w: nat, s: nat)
    requires Segment(wild, str, mp, cp, w, s) && s < |str|
    requires w == |wild| || (wild[w] != '*' && wild[w] != str[s] && wild[w] != '?')
    ensures Pending(wild, str, mp, cp + 1, mp, cp) == Pending(wild, str, mp, cp, w, s)
  {
  }

  /** The two other loops. `mp == 0` stands for no star seen yet. */
  method ResumeAtStars(wild: string, str: string, wildStart: nat, strStart: nat) returns (matched: bool)
    requires wildStart <= |wild| && strStart <= |str|
    requires strStart == |str| || (wildStart < |wild| && wild[wildStart] == '*')
    ensures matched <==> MatchesFrom(wild, str, wildStart, strStart)
  {
    ghost var goal := MatchesFrom(wild, str, wildStart, strStart);
    var w, s := wildStart, strStart;
    var mp, cp := 0, 0;
    while s < |str|
      invariant 0 <= w <= |wild| && 0 <= s <= |str| && 0 <= mp <= |wild| && 0 <= cp <= |str| + 1
      invariant mp == 0 ==> w == wildStart && s == strStart
      invariant mp != 0 ==> Segment(wild, str, mp, cp, w, s) && goal == Pending(wild, str, mp, cp, w, s)
      decreases |wild| - mp, |str| + 1 - cp, |str| - s
    {
      if w < |wild| && wild[w] == '*' {
        NewStar(wild, str, mp, cp, w, s);
        w := w + 1;
        if w == |wild| {
          TrailingStar(wild, str, w - 1, s);
          return true;
        }
        mp, cp := w, s + 1;
      } else if w < |wild| && (wild[w] == str[s] || wild[w] == '?') {
        OneMatches(wild, str, mp, cp, w, s);
        w, s := w + 1, s + 1;
      } else {
        Rewind(wild, str, mp, cp, w, s);
        w, s, cp := mp, cp, cp + 1;
      }
    }
    if mp != 0 {
      NothingToResume(wild, str, mp, cp, w);
    }
    matched := OnlyStarsLeft(wild, str, w);
  }

  method OnlyStarsLeft(wild: string, str: string, start: nat) returns (matched: bool)
    requires start <= |wild|
    ensures matched <==> MatchesFrom(wild, str, start, |str|)
  {
    var w := start;
    while w < |wild| && wild[w] == '*'
      invariant start <= w <= |wild| && MatchesFrom(wild, str, start, |str|) == MatchesFrom(wild, str, w, |str|)
    {
      w := w + 1;
    }
    matched := w == |wild|;
  }
}
