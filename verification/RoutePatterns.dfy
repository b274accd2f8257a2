/** Route patterns: how they are tokenised, what one parameter consumes, and which URLs they match. */
module RoutePatterns {
  import opened Wrappers

  // ---------------------------------------------------------------------------------------------
  // Patterns and URLs
  // ---------------------------------------------------------------------------------------------

  datatype ParamKind = Int | UInt | Double | Str | Path

  /** The position of a parameter kind in a node's array of parameter children. */
  function Slot(kind: ParamKind): (s: nat)
    ensures s < 5
  {
    match kind
    case Int => 0
    case UInt => 1
    case Double => 2
    case Str => 3
    case Path => 4
  }

  datatype Token = Lit(c: char) | Hole(kind: ParamKind)

  datatype Params = Params(ints: seq<int>, uints: seq<nat>, doubles: seq<real>, strings: seq<string>)

  const NO_PARAMS := Params([], [], [], [])

  /** `StartsAt(s, pos, t)` says that `s` reads `t` from position `pos` on. */
  predicate StartsAt(s: string, pos: nat, t: string) {
    pos + |t| <= |s| && s[pos..pos + |t|] == t
  }

  predicate Is(s: string, i: nat, c: char) {
    i < |s| && s[i] == c
  }

  /** The parameter tag that follows a '<' at position `i` of a pattern: its kind and its length, '<' and
      '>' included.  The tags are <int>, <uint>, <float>, <double>, <str>, <string> and <path>. */
  function Tag(s: string, i: nat): (t: Option<(ParamKind, nat)>)
    ensures t.Some? ==> 0 < t.value.1 && i + t.value.1 <= |s| && s[i + t.value.1 - 1] == '>'
  {
    if Is(s, i + 1, 'i') && Is(s, i + 2, 'n') && Is(s, i + 3, 't') && Is(s, i + 4, '>') then Some((Int, 5))
    else if Is(s, i + 1, 'u') && Is(s, i + 2, 'i') && Is(s, i + 3, 'n') && Is(s, i + 4, 't') && Is(s, i + 5, '>')
      then Some((UInt, 6))
    else if Is(s, i + 1, 'f') && Is(s, i + 2, 'l') && Is(s, i + 3, 'o') && Is(s, i + 4, 'a') && Is(s, i + 5, 't')
      && Is(s, i + 6, '>') then Some((Double, 7))
    else if Is(s, i + 1, 'd') && Is(s, i + 2, 'o') && Is(s, i + 3, 'u') && Is(s, i + 4, 'b') && Is(s, i + 5, 'l')
      && Is(s, i + 6, 'e') && Is(s, i + 7, '>') then Some((Double, 8))
    else if Is(s, i + 1, 's') && Is(s, i + 2, 't') && Is(s, i + 3, 'r') && Is(s, i + 4, '>') then Some((Str, 5))
    else if Is(s, i + 1, 's') && Is(s, i + 2, 't') && Is(s, i + 3, 'r') && Is(s, i + 4, 'i') && Is(s, i + 5, 'n')
      && Is(s, i + 6, 'g') && Is(s, i + 7, '>') then Some((Str, 8))
    else if Is(s, i + 1, 'p') && Is(s, i + 2, 'a') && Is(s, i + 3, 't') && Is(s, i + 4, 'h') && Is(s, i + 5, '>')
      then Some((Path, 6))
    else None
  }

  /** The token at position `i` of a pattern, and its length; nothing at an unknown tag. */
  function NextToken(url: string, i: nat): (t: Option<(Token, nat)>)
    requires i < |url|
    ensures t.Some? ==> 0 < t.value.1 && i + t.value.1 <= |url|
  {
    if url[i] == '<' then
      var tag := Tag(url, i);
      if tag.Some? then Some((Hole(tag.value.0), tag.value.1)) else None
    else Some((Lit(url[i]), 1))
  }

  /** Every '<' met while reading the pattern from `i` opens a known tag. */
  predicate KnownTags(url: string, i: nat)
    requires i <= |url|
    decreases |url| - i
  {
    i < |url| ==>
      var t := NextToken(url, i);
      t.Some? && KnownTags(url, i + t.value.1)
  }

  /** The tokens of the pattern from position `i` on. */
  function Tokens(url: string, i: nat): seq<Token>
    requires i <= |url| && KnownTags(url, i)
    decreases |url| - i
  {
    if i == |url| then []
    else
      var (token, len) := NextToken(url, i).value;
      [token] + Tokens(url, i + len)
  }

  /** `done` is what has been read of the pattern when the reading stands at `i`. */
  ghost predicate SplitsAt(url: string, i: nat, done: seq<Token>)
    requires i <= |url| && KnownTags(url, 0) && KnownTags(url, i)
    ensures SplitsAt(url, i, done) && i == |url| ==> done == Tokens(url, 0)
  {
    Tokens(url, 0) == done + Tokens(url, i)
  }

  method ReadToken(url: string, i: nat, ghost done: seq<Token>) returns (token: Token, len: nat)
    requires i < |url| && KnownTags(url, 0) && KnownTags(url, i) && SplitsAt(url, i, done)
    ensures i + len <= |url| && 0 < len && KnownTags(url, i + len) && SplitsAt(url, i + len, done + [token])
  {
    var next := NextToken(url, i).value;
    return next.0, next.1;
  }

  // ---------------------------------------------------------------------------------------------
  // When the reading of a pattern ends
  // ---------------------------------------------------------------------------------------------

  /** One more than the largest `unsigned`. */
  const UNSIGNED: nat := 0x1_0000_0000

  function Increment(i: nat): nat { (i + 1) % UNSIGNED }
  function Decrement(i: nat): nat { (i + UNSIGNED - 1) % UNSIGNED }

  /** Where one round of the source's loop leaves its index: a tag is jumped over and the index stepped back, also
      when no tag fits, and then the loop steps it forward. */
  function Round(url: string, i: nat): nat
    requires i < |url|
  {
    if url[i] != '<' then Increment(i)
    else
      var tag := Tag(url, i);
      Increment(Decrement(if tag.Some? then i + tag.value.1 else i))
  }

  /** The index after `n` rounds from `i` on. */
  function Rounds(url: string, i: nat, n: nat): nat
    decreases n
  {
    if n == 0 || i >= |url| then i else Rounds(url, Round(url, i), n - 1)
  }

  lemma RoundMoves(url: string, i: nat)
    requires i < |url| < UNSIGNED
    ensures Round(url, i) == match NextToken(url, i) case Some(t) => i + t.1 case None => i
  {
  }

  lemma {:induction false} KnownTagsEnd(url: string, i: nat) returns (n: nat)
    requires i <= |url| < UNSIGNED && KnownTags(url, i)
    ensures Rounds(url, i, n) == |url|
    decreases |url| - i
  {
    n := 0;
    if i < |url| {
      RoundMoves(url, i);
      n := KnownTagsEnd(url, Round(url, i));
      n := n + 1;
    }
  }

  lemma {:induction false} EndKnowsTags(url: string, i: nat, n: nat)
    requires i <= |url| < UNSIGNED && Rounds(url, i, n) == |url|
    ensures KnownTags(url, i)
    decreases n
  {
    if i < |url| {
      RoundMoves(url, i);
      EndKnowsTags(url, Round(url, i), n - 1);
    }
  }

  /** The loop comes to the end of the pattern exactly when every '<' it meets opens a known tag. */
  lemma ReadingEndsExactlyOnKnownTags(url: string)
    requires |url| < UNSIGNED
    ensures KnownTags(url, 0) <==> exists n :: Rounds(url, 0, n) == |url|
  {
    if KnownTags(url, 0) {
      var n := KnownTagsEnd(url, 0);
    }
    if n :| Rounds(url, 0, n) == |url| {
      EndKnowsTags(url, 0, n);
    }
  }

  /** An unknown tag holds the index where it is, however many rounds there are. */
  lemma {:induction false} UnknownTagHolds(url: string, i: nat, n: nat)
    requires i < |url| < UNSIGNED && url[i] == '<' && Tag(url, i) == None
    ensures Rounds(url, i, n) == i
    decreases n
  {
    if n > 0 {
      RoundMoves(url, i);
      UnknownTagHolds(url, i, n - 1);
    }
  }

  /** For example, no number of rounds reads this pattern. */
  lemma UnknownTagExample(n: nat)
    ensures Rounds(['<', 'x', '>'], 0, n) == 0
  {
    UnknownTagHolds(['<', 'x', '>'], 0, n);
  }

  // ---------------------------------------------------------------------------------------------
  // What one parameter consumes
  // ---------------------------------------------------------------------------------------------

  predicate IsDigit(c: char) { '0' <= c <= '9' }

  /** The first position at or after `pos` that does not hold a digit. */
  function DigitsEnd(s: string, pos: nat): (e: nat)
    requires pos <= |s|
    ensures pos <= e <= |s|
    decreases |s| - pos
  {
    if pos < |s| && IsDigit(s[pos]) then DigitsEnd(s, pos + 1) else pos
  }

  function DigitsValue(s: string): nat
    requires forall i :: 0 <= i < |s| ==> IsDigit(s[i])
  {
    if s == "" then 0
    else
      assert IsDigit(s[|s| - 1]);
      10 * DigitsValue(s[..|s| - 1]) + (s[|s| - 1] as int - '0' as int)
  }

  lemma {:induction false} DigitsAreDigits(s: string, pos: nat)
    requires pos <= |s|
    ensures forall i :: pos <= i < DigitsEnd(s, pos) ==> IsDigit(s[i])
    decreases |s| - pos
  {
    if pos < |s| && IsDigit(s[pos]) {
      DigitsAreDigits(s, pos + 1);
    }
  }

  /** An optional sign and the digits after it: the value and the end, or nothing without digits. */
  function ScanInteger(s: string, pos: nat): (r: Option<(int, nat)>)
    requires pos < |s|
    ensures r.Some? ==> pos < r.value.1 <= |s|
  {
    var start := if s[pos] == '+' || s[pos] == '-' then pos + 1 else pos;
    var end := DigitsEnd(s, start);
    DigitsAreDigits(s, start);
    if end == start then None
    else
      var v: int := DigitsValue(s[start..end]);
      Some((if s[pos] == '-' then -v else v, end))
  }

  const TWO_TO_THE_63 := 0x8000_0000_0000_0000
  const TWO_TO_THE_64 := 0x1_0000_0000_0000_0000

  /** `strtoll` at a digit or a sign; nothing when the value is out of range. */
  function Strtoll(s: string, pos: nat): (r: Option<(int, nat)>)
    requires pos < |s|
    ensures r.Some? ==> pos < r.value.1 <= |s| && -TWO_TO_THE_63 <= r.value.0 < TWO_TO_THE_63
  {
    var r := ScanInteger(s, pos);
    if r.Some? && -TWO_TO_THE_63 <= r.value.0 < TWO_TO_THE_63 then r else None
  }

  /** `strtoull` at a digit or a plus sign; nothing when the value is out of range. */
  function Strtoull(s: string, pos: nat): (r: Option<(nat, nat)>)
    requires pos < |s|
    ensures r.Some? ==> pos < r.value.1 <= |s| && r.value.0 < TWO_TO_THE_64
  {
    var r := ScanInteger(s, pos);
    if r.Some? && 0 <= r.value.0 < TWO_TO_THE_64 then Some((r.value.0 as nat, r.value.1)) else None
  }

  /** `strtod` is a parameter of the model: any function that consumes at least one character. */
  type Strtod = f: (string, nat) -> Option<(real, nat)> | Sane(f) witness (s, pos) => None

  ghost predicate Sane(f: (string, nat) -> Option<(real, nat)>) {
    forall s, pos: nat :: f(s, pos).Some? ==> pos < f(s, pos).value.1 <= |s|
  }

  /** The first '/' at or after `pos`, or the end. */
  function SlashOrEnd(s: string, pos: nat): (e: nat)
    requires pos <= |s|
    ensures pos <= e <= |s|
    ensures forall i :: pos <= i < e ==> s[i] != '/'
    ensures e < |s| ==> s[e] == '/'
    decreases |s| - pos
  {
    if pos == |s| || s[pos] == '/' then pos else SlashOrEnd(s, pos + 1)
  }

  /** The only way in which a parameter of this kind can be read at `pos`: where it ends and the
      parameters collected so far with the new one pushed. */
  function Consume(kind: ParamKind, url: string, pos: nat, ps: Params, strtod: Strtod): (r: Option<(nat, Params)>)
    requires pos < |url|
    ensures r.Some? ==> pos < r.value.0 <= |url|
  {
    match kind
    case Int =>
      if IsDigit(url[pos]) || url[pos] == '+' || url[pos] == '-' then
        var v := Strtoll(url, pos);
        if v.Some? then Some((v.value.1, ps.(ints := ps.ints + [v.value.0]))) else None
      else None
    case UInt =>
      if IsDigit(url[pos]) || url[pos] == '+' then
        var v := Strtoull(url, pos);
        if v.Some? then Some((v.value.1, ps.(uints := ps.uints + [v.value.0]))) else None
      else None
    case Double =>
      if IsDigit(url[pos]) || url[pos] == '+' || url[pos] == '-' || url[pos] == '.' then
        var v := strtod(url, pos);
        if v.Some? then Some((v.value.1, ps.(doubles := ps.doubles + [v.value.0]))) else None
      else None
    case Str =>
      var e := SlashOrEnd(url, pos);
      if e != pos then Some((e, ps.(strings := ps.strings + [url[pos..e]]))) else None
    case Path =>
      Some((|url|, ps.(strings := ps.strings + [url[pos..]])))
  }

  /** The meaning of a pattern: whether the tokens read the whole rest of the URL, and with which
      parameters.  This definition knows nothing about tries. */
  function Match(ts: seq<Token>, url: string, pos: nat, ps: Params, strtod: Strtod): Option<Params>
    requires pos <= |url|
  {
    if ts == [] then
      if pos == |url| then Some(ps) else None
    else if pos == |url| then None
    else match ts[0]
      case Lit(c) => if url[pos] == c then Match(ts[1..], url, pos + 1, ps, strtod) else None
      case Hole(kind) =>
        var r := Consume(kind, url, pos, ps, strtod);
        if r.Some? then Match(ts[1..], url, r.value.0, r.value.1, strtod) else None
  }
}
