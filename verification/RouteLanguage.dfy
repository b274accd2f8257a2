/** Which URLs a pattern matches, told without the tokens and scanners: a pattern is a list of pieces, a URL puts a text
    in the place of each, and the parameters are what these texts stand for. */
module RouteLanguage {
  import opened Wrappers
  import opened Numerals
  import opened RoutePatterns
  import opened RouteArena

  // ---------------------------------------------------------------------------------------------
  // Pieces
  // ---------------------------------------------------------------------------------------------

  datatype Sign = NoSign | Plus | Minus

  function SignText(sign: Sign): string {
    match sign
    case NoSign => ""
    case Plus => "+"
    case Minus => "-"
  }

  /** A text without '<', or a tag with what stands in its place: a number as a sign, leading zeros and a magnitude;
      a floating-point text with its value; a segment; the rest of a path. Two tags have a longer name as well. */
  datatype Piece =
    | Text(s: string)
    | Number(sign: Sign, zeros: nat, magnitude: nat)
    | Unsigned(sign: Sign, zeros: nat, magnitude: nat)
    | Float(long: bool, s: string, value: real)
    | Segment(long: bool, s: string)
    | Rest(s: string)

  /** What the pattern shows. */
  function PatternText(p: Piece): string {
    match p
    case Text(s) => s
    case Number(_, _, _) => "<int>"
    case Unsigned(_, _, _) => "<uint>"
    case Float(long, _, _) => if long then "<double>" else "<float>"
    case Segment(long, _) => if long then "<string>" else "<str>"
    case Rest(_) => "<path>"
  }

  function Numeral(sign: Sign, zeros: nat, magnitude: nat): string {
    SignText(sign) + Zeros(zeros) + Decimal(magnitude)
  }

  /** What the URL shows. */
  function UrlText(p: Piece): string {
    match p
    case Text(s) => s
    case Number(sign, zeros, n) => Numeral(sign, zeros, n)
    case Unsigned(sign, zeros, n) => Numeral(sign, zeros, n)
    case Float(_, s, _) => s
    case Segment(_, s) => s
    case Rest(s) => s
  }

  function Signed(sign: Sign, n: nat): int { if sign.Minus? then -(n as int) else n }

  /** The parameters with those of one more piece. */
  function With(ps: Params, p: Piece): Params {
    match p
    case Text(_) => ps
    case Number(sign, _, n) => ps.(ints := ps.ints + [Signed(sign, n)])
    case Unsigned(sign, _, n) => ps.(uints := ps.uints + [n])
    case Float(_, _, v) => ps.(doubles := ps.doubles + [v])
    case Segment(_, s) => ps.(strings := ps.strings + [s])
    case Rest(s) => ps.(strings := ps.strings + [s])
  }

  /** Whether the part of the URL from `pos` to `end` may stand in the place of the piece: numbers are in the range of
      64 bits and go on for as long as there are digits, segments go on to the next slash, paths to the end. */
  predicate Fits(p: Piece, url: string, pos: nat, end: nat, strtod: Strtod)
    requires pos <= end <= |url|
  {
    match p
    case Text(s) => '<' !in s
    case Number(sign, _, n) =>
      -0x8000_0000_0000_0000 <= Signed(sign, n) < 0x8000_0000_0000_0000 && (end == |url| || url[end] !in DIGITS)
    case Unsigned(sign, _, n) =>
      !sign.Minus? && n < 0x1_0000_0000_0000_0000 && (end == |url| || url[end] !in DIGITS)
    case Float(_, s, v) => s != "" && s[0] in DIGITS + "+-." && strtod(url, pos) == Some((v, end))
    case Segment(_, s) => s != "" && '/' !in s && (end == |url| || url[end] == '/')
    case Rest(s) => s != "" && end == |url|
  }

  function Pattern(pieces: seq<Piece>): string {
    if pieces == [] then "" else PatternText(pieces[0]) + Pattern(pieces[1..])
  }

  function Url(pieces: seq<Piece>): string {
    if pieces == [] then "" else UrlText(pieces[0]) + Url(pieces[1..])
  }

  /** The URL from `pos` on is put together from the pieces. */
  predicate Laid(pieces: seq<Piece>, url: string, pos: nat, strtod: Strtod)
    requires pos <= |url|
    decreases |pieces|
  {
    if pieces == [] then pos == |url|
    else
      var end := pos + |UrlText(pieces[0])|;
      end <= |url| && url[pos..end] == UrlText(pieces[0]) && Fits(pieces[0], url, pos, end, strtod)
      && Laid(pieces[1..], url, end, strtod)
  }

  function Collected(ps: Params, pieces: seq<Piece>): Params
    decreases |pieces|
  {
    if pieces == [] then ps else Collected(With(ps, pieces[0]), pieces[1..])
  }

  /** The texts hold no '<', so the tags of the pattern are those of the pieces. */
  predicate Plain(pieces: seq<Piece>) {
    forall p :: p in pieces && p.Text? ==> '<' !in p.s
  }

  /** The same pattern, piece by piece. */
  predicate SameShape(a: seq<Piece>, b: seq<Piece>) {
    |a| == |b| && forall i :: 0 <= i < |a| ==> PatternText(a[i]) == PatternText(b[i])
  }

  // ---------------------------------------------------------------------------------------------
  // The tokens of a pattern
  // ---------------------------------------------------------------------------------------------

  function KindOf(p: Piece): ParamKind
    requires !p.Text?
  {
    match p
    case Number(_, _, _) => Int
    case Unsigned(_, _, _) => UInt
    case Float(_, _, _) => Double
    case Segment(_, _) => Str
    case Rest(_) => Path
  }

  function TokensOf(pieces: seq<Piece>): seq<Token> {
    if pieces == [] then []
    else (if pieces[0].Text? then Lits(pieces[0].s) else [Hole(KindOf(pieces[0]))]) + TokensOf(pieces[1..])
  }

  /** A pattern reads the same after other text. */
  lemma NextTokenLater(a: string, b: string, i: nat)
    requires i < |b|
    ensures NextToken(a + b, |a| + i) == NextToken(b, i)
  {
    assert forall m: nat, c :: m >= |a| ==> Is(a + b, m, c) == Is(b, m - |a|, c);
  }

  lemma {:induction false} TokensLater(a: string, b: string, i: nat)
    requires i <= |b| && KnownTags(b, i)
    ensures KnownTags(a + b, |a| + i) && Tokens(a + b, |a| + i) == Tokens(b, i)
    decreases |b| - i
  {
    if i < |b| {
      NextTokenLater(a, b, i);
      TokensLater(a, b, i + NextToken(b, i).value.1);
    }
  }

  lemma {:induction false} CharToken(c: char, rest: string)
    requires c != '<' && KnownTags(rest, 0)
    ensures KnownTags([c] + rest, 0) && Tokens([c] + rest, 0) == [Lit(c)] + Tokens(rest, 0)
  {
    TokensLater([c], rest, 0);
    assert NextToken([c] + rest, 0) == Some((Lit(c), 1));
  }

  lemma FirstLit(s: string, ts: seq<Token>)
    requires s != ""
    ensures [Lit(s[0])] + (Lits(s[1..]) + ts) == Lits(s) + ts
  {
  }

  lemma {:induction false} TextTokens(s: string, rest: string)
    requires '<' !in s && KnownTags(rest, 0)
    ensures KnownTags(s + rest, 0) && Tokens(s + rest, 0) == Lits(s) + Tokens(rest, 0)
    decreases |s|
  {
    if s == "" {
      assert s + rest == rest;
    } else {
      TextTokens(s[1..], rest);
      CharToken(s[0], s[1..] + rest);
      FirstLit(s, Tokens(rest, 0));
      assert s + rest == [s[0]] + (s[1..] + rest);
    }
  }

  /** The names of the tags, character by character. */
  lemma TagOfPiece(p: Piece, rest: string)
    requires !p.Text?
    ensures Tag(PatternText(p) + rest, 0) == Some((KindOf(p), |PatternText(p)|)) && PatternText(p)[0] == '<'
  {
    var s := PatternText(p) + rest;
    assert forall j: nat :: j < |PatternText(p)| ==> s[j] == PatternText(p)[j];
  }

  lemma {:induction false} TagTokens(p: Piece, rest: string)
    requires !p.Text? && KnownTags(rest, 0)
    ensures KnownTags(PatternText(p) + rest, 0)
    ensures Tokens(PatternText(p) + rest, 0) == [Hole(KindOf(p))] + Tokens(rest, 0)
  {
    TagOfPiece(p, rest);
    var s := PatternText(p) + rest;
    assert NextToken(s, 0) == Some((Hole(KindOf(p)), |PatternText(p)|));
    TokensLater(PatternText(p), rest, 0);
  }

  lemma {:induction false} PatternTokens(pieces: seq<Piece>)
    requires Plain(pieces)
    ensures KnownTags(Pattern(pieces), 0) && Tokens(Pattern(pieces), 0) == TokensOf(pieces)
    decreases |pieces|
  {
    if pieces != [] {
      PatternTokens(pieces[1..]);
      if pieces[0].Text? {
        TextTokens(pieces[0].s, Pattern(pieces[1..]));
      } else {
        TagTokens(pieces[0], Pattern(pieces[1..]));
      }
    }
  }

  // ---------------------------------------------------------------------------------------------
  // Numbers
  // ---------------------------------------------------------------------------------------------

  lemma DigitChars(c: char)
    ensures c in DIGITS <==> IsDigit(c)
    ensures IsDigit(c) ==> DIGITS[c as int - '0' as int] == c
  {
    assert forall d :: 0 <= d < 10 ==> DIGITS[d] as int == '0' as int + d;
    if IsDigit(c) {
      assert DIGITS[c as int - '0' as int] == c;
    }
  }

  predicate AllDigits(s: string) {
    forall i :: 0 <= i < |s| ==> IsDigit(s[i])
  }

  lemma {:induction false} ValueOfMore(s: string, c: char)
    requires AllDigits(s) && IsDigit(c)
    ensures AllDigits(s + [c]) && DigitsValue(s + [c]) == 10 * DigitsValue(s) + (c as int - '0' as int)
  {
    assert (s + [c])[..|s|] == s;
  }

  lemma {:induction false} ValueOfZeros(k: nat)
    ensures AllDigits(Zeros(k)) && DigitsValue(Zeros(k)) == 0
  {
    if k > 0 {
      ValueOfZeros(k - 1);
      ValueOfMore(Zeros(k - 1), '0');
      assert Zeros(k) == Zeros(k - 1) + ['0'];
    }
  }

  /** Reading the digits of a printed number gives the number. */
  lemma {:induction false} ValueOfDecimal(k: nat, n: nat)
    ensures AllDigits(Zeros(k) + Decimal(n)) && DigitsValue(Zeros(k) + Decimal(n)) == n
    decreases n
  {
    var c := DIGITS[n % 10];
    assert c as int == '0' as int + n % 10;
    if n < 10 {
      ValueOfZeros(k);
      ValueOfMore(Zeros(k), c);
    } else {
      ValueOfDecimal(k, n / 10);
      ValueOfMore(Zeros(k) + Decimal(n / 10), c);
      assert Zeros(k) + Decimal(n) == Zeros(k) + Decimal(n / 10) + [c];
    }
  }

  lemma {:induction false} ZerosMore(k: nat, d: nat)
    requires d < 10
    ensures Zeros(k) + Decimal(0) + [DIGITS[d]] == Zeros(k + 1) + Decimal(d)
    ensures "" + [DIGITS[d]] == Zeros(0) + Decimal(d)
  {
    assert DIGITS[0] == '0';
    assert Zeros(k + 1) == Zeros(k) + ['0'];
  }

  lemma {:induction false} PrintedMore(s: string, d: nat, k: nat, m: nat) returns (k': nat)
    requires s == Zeros(k) + Decimal(m) && d < 10
    ensures s + [DIGITS[d]] == Zeros(k') + Decimal(10 * m + d)
  {
    if m == 0 {
      k' := k + 1;
      ZerosMore(k, d);
    } else {
      k' := k;
      DecimalMore(m, d);
      Join3(Zeros(k), Decimal(m), [DIGITS[d]]);
    }
  }

  lemma Join3(a: string, b: string, c: string)
    ensures a + b + c == a + (b + c)
  {
  }

  /** Digits are the printed form of their value, after some zeros. */
  lemma {:induction false} DigitsArePrinted(s: string) returns (k: nat)
    requires s != "" && AllDigits(s)
    ensures s == Zeros(k) + Decimal(DigitsValue(s))
    decreases |s|
  {
    var n := |s| - 1;
    var init, c := s[..n], s[n];
    DigitChars(c);
    assert s == init + [c];
    ValueOfMore(init, c);
    if n == 0 {
      k := 0;
      ZerosMore(0, c as int - '0' as int);
    } else {
      k := DigitsArePrinted(init);
      k := PrintedMore(init, c as int - '0' as int, k, DigitsValue(init));
    }
  }

  lemma {:induction false} DigitsEndThere(url: string, pos: nat, end: nat)
    requires pos <= end <= |url| && AllDigits(url[pos..end]) && (end == |url| || !IsDigit(url[end]))
    ensures DigitsEnd(url, pos) == end
    decreases end - pos
  {
    if pos < end {
      assert url[pos] == url[pos..end][0];
      assert url[pos + 1..end] == url[pos..end][1..];
      DigitsEndThere(url, pos + 1, end);
    }
  }

  lemma {:induction false} DigitsEndIsEnd(url: string, pos: nat)
    requires pos <= |url|
    ensures var e := DigitsEnd(url, pos); e == |url| || !IsDigit(url[e])
    decreases |url| - pos
  {
    if pos < |url| && IsDigit(url[pos]) {
      DigitsEndIsEnd(url, pos + 1);
    }
  }

  predicate Opens(sign: Sign, c: char) {
    match sign
    case NoSign => IsDigit(c)
    case Plus => c == '+'
    case Minus => c == '-'
  }

  lemma SignLength(sign: Sign)
    ensures |SignText(sign)| == (if sign.NoSign? then 0 else 1)
    ensures !sign.NoSign? ==> Opens(sign, SignText(sign)[0])
  {
  }

  /** Reading a sign and the digits after it. */
  lemma {:induction false} SignedDigitsAreRead(url: string, pos: nat, end: nat, sign: Sign, digits: string)
    requires pos < |url| && Opens(sign, url[pos])
    requires var start := pos + if sign.NoSign? then 0 else 1;
      start < end <= |url| && url[start..end] == digits && AllDigits(digits) && (end == |url| || !IsDigit(url[end]))
    ensures ScanInteger(url, pos) == Some((Signed(sign, DigitsValue(digits)), end))
  {
    var start := pos + if sign.NoSign? then 0 else 1;
    DigitsEndThere(url, start, end);
  }

  lemma PartsOf(url: string, pos: nat, end: nat, a: string, b: string)
    requires pos <= end <= |url| && url[pos..end] == a + b && b != ""
    ensures pos + |a| < end && url[pos + |a|..end] == b && url[pos] == if a == "" then b[0] else a[0]
  {
    assert url[pos..end][0] == url[pos] && url[pos..end][|a|..] == url[pos + |a|..end];
  }

  /** A numeral that no digit follows is read as what it stands for. */
  lemma {:induction false} NumeralIsRead(url: string, pos: nat, end: nat, sign: Sign, zeros: nat, n: nat)
    requires pos <= end <= |url| && url[pos..end] == Numeral(sign, zeros, n) && (end == |url| || url[end] !in DIGITS)
    ensures pos < |url| && ScanInteger(url, pos) == Some((Signed(sign, n), end)) && Opens(sign, url[pos])
  {
    var digits := Zeros(zeros) + Decimal(n);
    ValueOfDecimal(zeros, n);
    SignLength(sign);
    Join3(SignText(sign), Zeros(zeros), Decimal(n));
    PartsOf(url, pos, end, SignText(sign), digits);
    if end < |url| { DigitChars(url[end]); }
    SignedDigitsAreRead(url, pos, end, sign, digits);
  }

  /** What is read as a number is the numeral of the number. */
  lemma {:induction false} ReadIsNumeral(url: string, pos: nat) returns (sign: Sign, zeros: nat, n: nat)
    requires pos < |url| && ScanInteger(url, pos).Some?
    ensures var (v, end) := ScanInteger(url, pos).value;
      v == Signed(sign, n) && url[pos..end] == Numeral(sign, zeros, n) && (end == |url| || url[end] !in DIGITS)
    ensures sign.Minus? <==> url[pos] == '-'
  {
    var (v, end) := ScanInteger(url, pos).value;
    sign := if url[pos] == '+' then Plus else if url[pos] == '-' then Minus else NoSign;
    var start := pos + if sign.NoSign? then 0 else 1;
    DigitsBetween(url, start, end);
    DigitsEndIsEnd(url, start);
    n := DigitsValue(url[start..end]);
    zeros := DigitsArePrinted(url[start..end]);
    if end < |url| { DigitChars(url[end]); }
    FromParts(url, pos, start, end, sign, Zeros(zeros), Decimal(n));
  }

  lemma DigitsBetween(url: string, start: nat, end: nat)
    requires start <= |url| && end == DigitsEnd(url, start)
    ensures AllDigits(url[start..end])
  {
    DigitsAreDigits(url, start);
  }

  lemma FromParts(url: string, pos: nat, start: nat, end: nat, sign: Sign, b: string, c: string)
    requires pos <= start <= end <= |url| && start == pos + (if sign.NoSign? then 0 else 1) && url[start..end] == b + c
    requires sign.NoSign? || Opens(sign, url[pos])
    ensures url[pos..end] == SignText(sign) + b + c
  {
    Join3(SignText(sign), b, c);
    assert url[pos..end] == url[pos..start] + url[start..end];
    assert url[pos..start] == SignText(sign);
  }

  // ---------------------------------------------------------------------------------------------
  // Matching is laying out pieces
  // ---------------------------------------------------------------------------------------------

  lemma {:induction false} SlashIsThere(url: string, pos: nat, end: nat)
    requires pos <= end <= |url| && '/' !in url[pos..end] && (end == |url| || url[end] == '/')
    ensures SlashOrEnd(url, pos) == end
    decreases end - pos
  {
    if pos < end {
      assert url[pos] == url[pos..end][0];
      assert url[pos + 1..end] == url[pos..end][1..];
      SlashIsThere(url, pos + 1, end);
    }
  }

  lemma FloatStarts(c: char)
    ensures c in DIGITS + "+-." <==> IsDigit(c) || c == '+' || c == '-' || c == '.'
  {
    DigitChars(c);
  }

  /** A tag consumes a text that fits in its place. */
  lemma FittingIsConsumed(p: Piece, url: string, pos: nat, end: nat, ps: Params, strtod: Strtod)
    requires !p.Text? && pos <= end <= |url| && url[pos..end] == UrlText(p) && Fits(p, url, pos, end, strtod)
    ensures pos < |url| && Consume(KindOf(p), url, pos, ps, strtod) == Some((end, With(ps, p)))
  {
    match p
    case Number(sign, zeros, n) => NumeralIsRead(url, pos, end, sign, zeros, n);
    case Unsigned(sign, zeros, n) => NumeralIsRead(url, pos, end, sign, zeros, n);
    case Float(_, s, _) =>
      FloatStarts(s[0]);
      assert url[pos] == url[pos..end][0];
    case Segment(_, s) => SlashIsThere(url, pos, end);
    case Rest(s) => assert url[pos..] == url[pos..end];
  }

  predicate Stands(p: Piece, url: string, pos: nat, end: nat, ps: Params, more: Params, strtod: Strtod) {
    && pos <= end <= |url| && url[pos..end] == UrlText(p) && Fits(p, url, pos, end, strtod)
    && With(ps, p) == more
  }

  lemma ConsumedInt(url: string, pos: nat, ps: Params, strtod: Strtod) returns (p: Piece)
    requires pos < |url| && Consume(Int, url, pos, ps, strtod).Some?
    ensures var (end, more) := Consume(Int, url, pos, ps, strtod).value;
      p.Number? && Stands(p, url, pos, end, ps, more, strtod)
  {
    var sign, zeros, n := ReadIsNumeral(url, pos);
    p := Number(sign, zeros, n);
  }

  lemma ConsumedUInt(url: string, pos: nat, ps: Params, strtod: Strtod) returns (p: Piece)
    requires pos < |url| && Consume(UInt, url, pos, ps, strtod).Some?
    ensures var (end, more) := Consume(UInt, url, pos, ps, strtod).value;
      p.Unsigned? && Stands(p, url, pos, end, ps, more, strtod)
  {
    DigitChars(url[pos]);
    var sign, zeros, n := ReadIsNumeral(url, pos);
    p := Unsigned(sign, zeros, n);
  }

  lemma ConsumedDouble(url: string, pos: nat, ps: Params, strtod: Strtod, long: bool) returns (p: Piece)
    requires pos < |url| && Consume(Double, url, pos, ps, strtod).Some?
    ensures var (end, more) := Consume(Double, url, pos, ps, strtod).value;
      p.Float? && p.long == long && Stands(p, url, pos, end, ps, more, strtod)
  {
    var (v, end) := strtod(url, pos).value;
    FloatStarts(url[pos]);
    p := Float(long, url[pos..end], v);
    assert url[pos..end][0] == url[pos];
  }

  lemma ConsumedStr(url: string, pos: nat, ps: Params, strtod: Strtod, long: bool) returns (p: Piece)
    requires pos < |url| && Consume(Str, url, pos, ps, strtod).Some?
    ensures var (end, more) := Consume(Str, url, pos, ps, strtod).value;
      p.Segment? && p.long == long && Stands(p, url, pos, end, ps, more, strtod)
  {
    p := Segment(long, url[pos..SlashOrEnd(url, pos)]);
  }

  lemma ConsumedPath(url: string, pos: nat, ps: Params, strtod: Strtod) returns (p: Piece)
    requires pos < |url|
    ensures Consume(Path, url, pos, ps, strtod).Some?
    ensures var (end, more) := Consume(Path, url, pos, ps, strtod).value;
      p.Rest? && Stands(p, url, pos, end, ps, more, strtod)
  {
    p := Rest(url[pos..|url|]);
    assert url[pos..] == url[pos..|url|];
  }

  /** What a tag consumes fits in its place. */
  lemma ConsumedFits(tag: Piece, url: string, pos: nat, ps: Params, strtod: Strtod) returns (p: Piece)
    requires !tag.Text? && pos < |url| && Consume(KindOf(tag), url, pos, ps, strtod).Some?
    ensures var (end, more) := Consume(KindOf(tag), url, pos, ps, strtod).value;
      PatternText(p) == PatternText(tag) && Stands(p, url, pos, end, ps, more, strtod)
  {
    match tag
    case Number(_, _, _) => p := ConsumedInt(url, pos, ps, strtod);
    case Unsigned(_, _, _) => p := ConsumedUInt(url, pos, ps, strtod);
    case Float(long, _, _) => p := ConsumedDouble(url, pos, ps, strtod, long);
    case Segment(long, _) => p := ConsumedStr(url, pos, ps, strtod, long);
    case Rest(_) => p := ConsumedPath(url, pos, ps, strtod);
  }

  lemma {:induction false} MatchTag(tag: Piece, rest: seq<Token>, url: string, pos: nat, ps: Params, strtod: Strtod)
    requires !tag.Text? && pos <= |url|
    ensures Match([Hole(KindOf(tag))] + rest, url, pos, ps, strtod) ==
      if pos == |url| then None
      else
        match Consume(KindOf(tag), url, pos, ps, strtod)
        case None => None
        case Some(r) => Match(rest, url, r.0, r.1, strtod)
  {
    assert ([Hole(KindOf(tag))] + rest)[1..] == rest;
  }

  lemma {:induction false} LaidMatches(pieces: seq<Piece>, url: string, pos: nat, ps: Params, strtod: Strtod)
    requires pos <= |url| && Laid(pieces, url, pos, strtod)
    ensures Match(TokensOf(pieces), url, pos, ps, strtod) == Some(Collected(ps, pieces))
    decreases |pieces|
  {
    if pieces != [] {
      var p := pieces[0];
      var end := pos + |UrlText(p)|;
      LaidMatches(pieces[1..], url, end, With(ps, p), strtod);
      if p.Text? {
        MatchFragment(p.s, TokensOf(pieces[1..]), url, pos, ps, strtod);
      } else {
        FittingIsConsumed(p, url, pos, end, ps, strtod);
        MatchTag(p, TokensOf(pieces[1..]), url, pos, ps, strtod);
      }
    }
  }

  /** The first piece of a match: where it ends, and what is collected then. */
  lemma {:induction false} FirstIsLaid(tag: Piece, rest: seq<Token>, url: string, pos: nat, ps: Params, strtod: Strtod)
    returns (p: Piece, end: nat, more: Params)
    requires pos <= |url| && (tag.Text? ==> '<' !in tag.s)
    requires Match(TokensOf([tag]) + rest, url, pos, ps, strtod).Some?
    ensures PatternText(p) == PatternText(tag) && Stands(p, url, pos, end, ps, more, strtod)
    ensures Match(TokensOf([tag]) + rest, url, pos, ps, strtod) == Match(rest, url, end, more, strtod)
  {
    OneTokens(tag);
    if tag.Text? {
      MatchFragment(tag.s, rest, url, pos, ps, strtod);
      p, end, more := tag, pos + |tag.s|, ps;
    } else {
      MatchTag(tag, rest, url, pos, ps, strtod);
      var r := Consume(KindOf(tag), url, pos, ps, strtod).value;
      end, more := r.0, r.1;
      p := ConsumedFits(tag, url, pos, ps, strtod);
    }
  }

  lemma {:induction false} OneTokens(p: Piece)
    ensures TokensOf([p]) == if p.Text? then Lits(p.s) else [Hole(KindOf(p))]
  {
    assert [p][1..] == [];
  }

  lemma {:induction false} MoreTokens(pieces: seq<Piece>)
    requires pieces != []
    ensures TokensOf(pieces) == TokensOf([pieces[0]]) + TokensOf(pieces[1..])
  {
    OneTokens(pieces[0]);
  }

  lemma {:induction false} OneMoreLaid(p: Piece, rest: seq<Piece>, url: string, pos: nat, end: nat, ps: Params,
                                       more: Params, strtod: Strtod)
    requires Stands(p, url, pos, end, ps, more, strtod) && Laid(rest, url, end, strtod)
    ensures Laid([p] + rest, url, pos, strtod) && Collected(ps, [p] + rest) == Collected(more, rest)
  {
    FirstPiece(p, rest, [p] + rest);
    FirstOfLaid(p, rest, [p] + rest, url, pos, end, ps, more, strtod);
  }

  lemma FirstPiece(p: Piece, rest: seq<Piece>, pieces: seq<Piece>)
    requires pieces == [p] + rest
    ensures pieces != [] && pieces[0] == p && pieces[1..] == rest
  {
  }

  lemma {:induction false} FirstOfLaid(p: Piece, rest: seq<Piece>, pieces: seq<Piece>, url: string, pos: nat, end: nat,
                                       ps: Params, more: Params, strtod: Strtod)
    requires pieces != [] && pieces[0] == p && pieces[1..] == rest
    requires Stands(p, url, pos, end, ps, more, strtod) && Laid(rest, url, end, strtod)
    ensures Laid(pieces, url, pos, strtod) && Collected(ps, pieces) == Collected(more, rest)
  {
    assert |url[pos..end]| == end - pos;
  }

  lemma {:induction false} MatchIsLaid(shape: seq<Piece>, url: string, pos: nat, ps: Params, strtod: Strtod)
    returns (pieces: seq<Piece>)
    requires pos <= |url| && Plain(shape) && Match(TokensOf(shape), url, pos, ps, strtod).Some?
    ensures SameShape(shape, pieces) && Laid(pieces, url, pos, strtod)
    ensures Match(TokensOf(shape), url, pos, ps, strtod) == Some(Collected(ps, pieces))
    decreases |shape|
  {
    pieces := [];
    if shape != [] {
      MoreTokens(shape);
      var p, end, more := FirstIsLaid(shape[0], TokensOf(shape[1..]), url, pos, ps, strtod);
      var rest := MatchIsLaid(shape[1..], url, end, more, strtod);
      pieces := [p] + rest;
      OneMoreLaid(p, rest, url, pos, end, ps, more, strtod);
    }
  }

  /** A pattern matches exactly the URLs that are put together from its texts and from texts that fit its tags, and
      gives the values of these. */
  lemma MatchesExactly(shape: seq<Piece>, url: string, strtod: Strtod, found: Params)
    requires Plain(shape)
    ensures KnownTags(Pattern(shape), 0)
    ensures Match(Tokens(Pattern(shape), 0), url, 0, NO_PARAMS, strtod) == Some(found) <==>
      exists pieces :: SameShape(shape, pieces) && Laid(pieces, url, 0, strtod) && Collected(NO_PARAMS, pieces) == found
  {
    PatternTokens(shape);
    if Match(TokensOf(shape), url, 0, NO_PARAMS, strtod) == Some(found) {
      var pieces := MatchIsLaid(shape, url, 0, NO_PARAMS, strtod);
    }
    forall pieces | SameShape(shape, pieces) && Laid(pieces, url, 0, strtod)
      ensures Match(TokensOf(shape), url, 0, NO_PARAMS, strtod) == Some(Collected(NO_PARAMS, pieces))
    {
      LaidMatches(pieces, url, 0, NO_PARAMS, strtod);
      LaidIsPlain(pieces, url, 0, strtod);
      SameTokens(shape, pieces);
    }
  }

  lemma {:induction false} LaidIsPlain(pieces: seq<Piece>, url: string, pos: nat, strtod: Strtod)
    requires pos <= |url| && Laid(pieces, url, pos, strtod)
    ensures Plain(pieces)
    decreases |pieces|
  {
    if pieces != [] {
      LaidIsPlain(pieces[1..], url, pos + |UrlText(pieces[0])|, strtod);
      assert pieces == [pieces[0]] + pieces[1..];
    }
  }

  lemma {:induction false} SamePattern(a: seq<Piece>, b: seq<Piece>)
    requires SameShape(a, b)
    ensures Pattern(a) == Pattern(b)
    decreases |a|
  {
    if a != [] {
      assert forall i :: 0 <= i < |a| - 1 ==> a[1..][i] == a[i + 1] && b[1..][i] == b[i + 1];
      SamePattern(a[1..], b[1..]);
    }
  }

  lemma SameTokens(a: seq<Piece>, b: seq<Piece>)
    requires SameShape(a, b) && Plain(a) && Plain(b)
    ensures TokensOf(a) == TokensOf(b)
  {
    SamePattern(a, b);
    PatternTokens(a);
    PatternTokens(b);
  }

  // ---------------------------------------------------------------------------------------------
  // One tag between two texts
  // ---------------------------------------------------------------------------------------------

  /** Numbers in range, and texts that can stand for a segment or for the rest of a path. */
  predicate InRange(p: Piece, post: string) {
    match p
    case Number(sign, _, n) => -0x8000_0000_0000_0000 <= Signed(sign, n) < 0x8000_0000_0000_0000
    case Unsigned(sign, _, n) => !sign.Minus? && n < 0x1_0000_0000_0000_0000
    case Segment(_, s) => s != "" && '/' !in s
    case Rest(s) => s != "" && post == ""
    case _ => false
  }

  lemma ThreeSlices(a: string, b: string, c: string, url: string)
    requires url == a + b + c
    ensures var i := |a| + |b|;
      i <= |url| && url[0..|a|] == a && url[|a|..i] == b && url[i..|url|] == c && (c != "" ==> url[i] == c[0])
  {
  }

  lemma SlashIsNoDigit(c: char)
    requires c == '/'
    ensures c !in DIGITS
  {
    DigitChars(c);
  }

  lemma TagStands(p: Piece, url: string, pos: nat, end: nat, post: string, strtod: Strtod)
    requires InRange(p, post) && pos <= end <= |url| && url[pos..end] == UrlText(p)
    requires if post == "" then end == |url| else end < |url| && url[end] == '/'
    ensures Stands(p, url, pos, end, NO_PARAMS, With(NO_PARAMS, p), strtod)
  {
    if post != "" {
      SlashIsNoDigit(url[end]);
    }
  }

  function Between(pre: string, p: Piece, post: string): seq<Piece> {
    [Text(pre)] + ([p] + ([Text(post)] + []))
  }

  lemma {:induction false} BetweenPattern(pre: string, p: Piece, post: string)
    ensures Pattern(Between(pre, p, post)) == pre + PatternText(p) + post
  {
    OneMorePiece(Text(pre), [p] + ([Text(post)] + []));
    OneMorePiece(p, [Text(post)] + []);
    OneMorePiece(Text(post), []);
    Join3(pre, PatternText(p), post);
    assert post + "" == post;
  }

  lemma {:induction false} BetweenIsLaid(pre: string, p: Piece, post: string, url: string, strtod: Strtod)
    requires '<' !in pre && '<' !in post && (post == "" || post[0] == '/') && InRange(p, post)
    requires url == pre + UrlText(p) + post
    ensures Laid(Between(pre, p, post), url, 0, strtod)
    ensures Collected(NO_PARAMS, Between(pre, p, post)) == With(NO_PARAMS, p)
  {
    var i, ps := |pre| + |UrlText(p)|, With(NO_PARAMS, p);
    ThreeSlices(pre, UrlText(p), post, url);
    TagStands(p, url, |pre|, i, post, strtod);
    OneMoreLaid(Text(post), [], url, i, |url|, ps, ps, strtod);
    OneMoreLaid(p, [Text(post)] + [], url, |pre|, i, NO_PARAMS, ps, strtod);
    OneMoreLaid(Text(pre), [p] + ([Text(post)] + []), url, 0, |pre|, NO_PARAMS, NO_PARAMS, strtod);
  }

  lemma {:induction false} TagBetween(pre: string, p: Piece, post: string, strtod: Strtod)
    requires '<' !in pre && '<' !in post && (post == "" || post[0] == '/') && InRange(p, post)
    ensures KnownTags(pre + PatternText(p) + post, 0)
    ensures Match(Tokens(pre + PatternText(p) + post, 0), pre + UrlText(p) + post, 0, NO_PARAMS, strtod)
         == Some(With(NO_PARAMS, p))
  {
    var pieces, url := Between(pre, p, post), pre + UrlText(p) + post;
    BetweenPattern(pre, p, post);
    BetweenIsLaid(pre, p, post, url, strtod);
    LaidIsPlain(pieces, url, 0, strtod);
    PatternTokens(pieces);
    LaidMatches(pieces, url, 0, NO_PARAMS, strtod);
  }

  function SignedDecimal(n: int): string {
    if n < 0 then "-" + Decimal(-n) else Decimal(n)
  }

  lemma PlainNumeral(n: nat)
    ensures Numeral(NoSign, 0, n) == Decimal(n) && Numeral(Minus, 0, n) == "-" + Decimal(n)
  {
    NothingBefore("", Zeros(0), Decimal(n));
    NothingBefore("-", Zeros(0), Decimal(n));
  }

  lemma NothingBefore(a: string, b: string, c: string)
    requires b == ""
    ensures a + b + c == a + c && "" + c == c
  {
  }

  lemma Alone<T>(x: T)
    ensures [] + [x] == [x]
  {
  }

  /** A signed number of 64 bits in the place of <int> is read as itself. */
  lemma IntegerRoute(pre: string, n: int, post: string, strtod: Strtod)
    requires '<' !in pre && '<' !in post && (post == "" || post[0] == '/')
    requires -0x8000_0000_0000_0000 <= n < 0x8000_0000_0000_0000
    ensures KnownTags(pre + "<int>" + post, 0)
    ensures Match(Tokens(pre + "<int>" + post, 0), pre + SignedDecimal(n) + post, 0, NO_PARAMS, strtod)
         == Some(Params([n], [], [], []))
  {
    var p := if n < 0 then Number(Minus, 0, -n) else Number(NoSign, 0, n);
    PlainNumeral(p.magnitude);
    Alone(n);
    TagBetween(pre, p, post, strtod);
  }

  lemma UnsignedRoute(pre: string, n: nat, post: string, strtod: Strtod)
    requires '<' !in pre && '<' !in post && (post == "" || post[0] == '/') && n < 0x1_0000_0000_0000_0000
    ensures KnownTags(pre + "<uint>" + post, 0)
    ensures Match(Tokens(pre + "<uint>" + post, 0), pre + Decimal(n) + post, 0, NO_PARAMS, strtod)
         == Some(Params([], [n], [], []))
  {
    var p := Unsigned(NoSign, 0, n);
    PlainNumeral(n);
    Alone(n);
    TagBetween(pre, p, post, strtod);
  }

  lemma SegmentRoute(pre: string, s: string, post: string, strtod: Strtod)
    requires '<' !in pre && '<' !in post && (post == "" || post[0] == '/') && s != "" && '/' !in s
    ensures KnownTags(pre + "<str>" + post, 0) && KnownTags(pre + "<string>" + post, 0)
    ensures Match(Tokens(pre + "<str>" + post, 0), pre + s + post, 0, NO_PARAMS, strtod)
         == Match(Tokens(pre + "<string>" + post, 0), pre + s + post, 0, NO_PARAMS, strtod)
         == Some(Params([], [], [], [s]))
  {
    Alone(s);
    TagBetween(pre, Segment(false, s), post, strtod);
    TagBetween(pre, Segment(true, s), post, strtod);
  }

  lemma PathRoute(pre: string, s: string, strtod: Strtod)
    requires '<' !in pre && s != ""
    ensures KnownTags(pre + "<path>", 0)
    ensures Match(Tokens(pre + "<path>", 0), pre + s, 0, NO_PARAMS, strtod) == Some(Params([], [], [], [s]))
  {
    Alone(s);
    TagBetween(pre, Rest(s), "", strtod);
    assert pre + "<path>" + "" == pre + "<path>" && pre + s + "" == pre + s;
  }

  // ---------------------------------------------------------------------------------------------
  // Every pattern with known tags is made of pieces
  // ---------------------------------------------------------------------------------------------

  predicate IsNameAt(p: Piece, url: string, i: nat) {
    && !p.Text? && Tag(url, i) == Some((KindOf(p), |PatternText(p)|))
    && i + |PatternText(p)| <= |url| && url[i..i + |PatternText(p)|] == PatternText(p)
  }

  lemma DoubleIsName(url: string, i: nat, long: bool)
    requires i < |url| && url[i] == '<' && Tag(url, i) == Some((Double, if long then 8 else 7))
    ensures IsNameAt(Float(long, "", 0.0), url, i)
  {
    NameAt(url, i, if long then "<double>" else "<float>");
  }

  lemma StrIsName(url: string, i: nat, long: bool)
    requires i < |url| && url[i] == '<' && Tag(url, i) == Some((Str, if long then 8 else 5))
    ensures IsNameAt(Segment(long, ""), url, i)
  {
    NameAt(url, i, if long then "<string>" else "<str>");
  }

  /** A tag is one of the seven names. */
  lemma TagIsName(url: string, i: nat) returns (p: Piece)
    requires i < |url| && url[i] == '<' && Tag(url, i).Some?
    ensures IsNameAt(p, url, i)
  {
    var (kind, len) := Tag(url, i).value;
    match kind
    case Int =>
      p := Number(NoSign, 0, 0);
      NameAt(url, i, "<int>");
    case UInt =>
      p := Unsigned(NoSign, 0, 0);
      NameAt(url, i, "<uint>");
    case Double =>
      p := Float(len == 8, "", 0.0);
      DoubleIsName(url, i, len == 8);
    case Str =>
      p := Segment(len == 8, "");
      StrIsName(url, i, len == 8);
    case Path =>
      p := Rest("");
      NameAt(url, i, "<path>");
  }

  lemma NameAt(url: string, i: nat, name: string)
    requires i + |name| <= |url| && forall j :: 0 <= j < |name| ==> Is(url, i + j, name[j])
    ensures url[i..i + |name|] == name
  {
  }

  lemma {:induction false} KnownPatternHasPieces(url: string, i: nat) returns (shape: seq<Piece>)
    requires i <= |url| && KnownTags(url, i)
    ensures Plain(shape) && Pattern(shape) == url[i..]
    decreases |url| - i
  {
    shape := [];
    if i < |url| {
      var p := Text([url[i]]);
      if url[i] == '<' {
        p := TagIsName(url, i);
      }
      var next := i + NextToken(url, i).value.1;
      assert url[i..next] == PatternText(p);
      var rest := KnownPatternHasPieces(url, next);
      shape := [p] + rest;
      OneMorePiece(p, rest);
      assert url[i..] == url[i..next] + url[next..];
    }
  }

  lemma OneMorePiece(p: Piece, rest: seq<Piece>)
    ensures Pattern([p] + rest) == PatternText(p) + Pattern(rest)
  {
    assert ([p] + rest)[1..] == rest;
  }
}
