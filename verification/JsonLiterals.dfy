/** Strings and numbers of JSON texts, told without the scanner: how they may be written, and what they stand for. */
module JsonLiterals {
  import opened Wrappers
  import opened Numerals
  import opened JsonText
  import opened JsonGrammar

  // ---------------------------------------------------------------------------------------------
  // Strings
  // ---------------------------------------------------------------------------------------------

  /** A character as it is, a short escape, or a code unit in four hexadecimal digits, each in lower or upper case. */
  datatype Unit =
    | Plain(c: char)
    | Short(c: char)
    | CodeUnit(n: nat, upper: seq<bool>)

  const SHORT_NAMES: string := ['"', '\\', '/', 'b', 'f', 'n', 'r', 't']
  const SHORT_VALUES: string := ['"', '\\', '/', '\U{8}', '\U{C}', '\n', '\r', '\t']

  predicate UnitOk(u: Unit) {
    match u
    case Plain(c) => c != '"' && c != '\\' && c != '\0'
    case Short(c) => c in SHORT_NAMES
    case CodeUnit(n, upper) => n < 0x10000 && |upper| == 4
  }

  function FourDigits(n: nat, upper: seq<bool>): string
    requires n < 0x10000 && |upper| == 4
  {
    [Numerals.HexDigit(n / 4096, upper[0]), Numerals.HexDigit(n / 256 % 16, upper[1]),
     Numerals.HexDigit(n / 16 % 16, upper[2]), Numerals.HexDigit(n % 16, upper[3])]
  }

  function UnitText(u: Unit): string
    requires UnitOk(u)
  {
    match u
    case Plain(c) => [c]
    case Short(c) => ['\\', c]
    case CodeUnit(n, upper) => ['\\', 'u'] + FourDigits(n, upper)
  }

  /** The number that one, two or three bytes of UTF-8 stand for, in the shortest form. */
  function FromUtf8(b: string): Option<nat> {
    if |b| == 1 && b[0] as int < 0x80 then Some(b[0] as nat)
    else if |b| == 2 && 0xC2 <= b[0] as int < 0xE0 && 0x80 <= b[1] as int < 0xC0 then
      Some((b[0] as nat - 0xC0) * 64 + (b[1] as nat - 0x80))
    else if |b| == 3 && 0xE0 <= b[0] as int < 0xF0 && 0x80 <= b[1] as int < 0xC0 && 0x80 <= b[2] as int < 0xC0 then
      var n := (b[0] as nat - 0xE0) * 4096 + (b[1] as nat - 0x80) * 64 + (b[2] as nat - 0x80);
      if n < 0x800 then None else Some(n)
    else None
  }

  /** The bytes that a unit stands for. */
  predicate UnitMeans(u: Unit, bytes: string) {
    match u
    case Plain(c) => bytes == [c]
    case Short(c) => exists i :: 0 <= i < 8 && SHORT_NAMES[i] == c && bytes == [SHORT_VALUES[i]]
    case CodeUnit(n, _) => FromUtf8(bytes) == Some(n)
  }

  predicate UnitsOk(units: seq<Unit>) {
    forall u :: u in units ==> UnitOk(u)
  }

  function UnitsText(units: seq<Unit>): string
    requires UnitsOk(units)
  {
    if units == [] then "" else UnitText(units[0]) + UnitsText(units[1..])
  }

  /** The bytes are those of the units, one after the other. */
  ghost predicate UnitsMean(units: seq<Unit>, bytes: string) {
    if units == [] then bytes == ""
    else exists k :: 0 < k <= |bytes| && UnitMeans(units[0], bytes[..k]) && UnitsMean(units[1..], bytes[k..])
  }

  lemma HexDigitIsRead(d: nat, upper: bool)
    requires d < 16
    ensures IsHex(Numerals.HexDigit(d, upper)) && FromHex(Numerals.HexDigit(d, upper)) == d
  {
    HexDigitAt(d);
  }

  lemma HexCharIsDigit(c: char) returns (upper: bool)
    requires IsHex(c)
    ensures c == Numerals.HexDigit(FromHex(c), upper)
  {
    HexDigitAt(FromHex(c));
    upper := 'A' <= c <= 'F';
  }

  lemma FourDigitsAreRead(n: nat, upper: seq<bool>)
    requires n < 0x10000 && |upper| == 4
    ensures var s := FourDigits(n, upper);
      IsHex(s[0]) && IsHex(s[1]) && IsHex(s[2]) && IsHex(s[3]) && Code(s[0], s[1], s[2], s[3]) == n
  {
    HexDigitIsRead(n / 4096, upper[0]);
    HexDigitIsRead(n / 256 % 16, upper[1]);
    HexDigitIsRead(n / 16 % 16, upper[2]);
    HexDigitIsRead(n % 16, upper[3]);
    DigitsOf16(n);
  }

  lemma DigitsOf16(n: nat)
    requires n < 0x10000
    ensures n / 4096 < 16 && n / 4096 * 4096 + n / 256 % 16 * 256 + n / 16 % 16 * 16 + n % 16 == n
  {
    assert n / 256 == n / 4096 * 16 + n / 256 % 16;
    assert n / 16 == n / 256 * 16 + n / 16 % 16;
  }

  lemma DigitsOfCode(a: nat, b: nat, c: nat, d: nat)
    requires a < 16 && b < 16 && c < 16 && d < 16
    ensures var n := a * 4096 + b * 256 + c * 16 + d;
      n < 0x10000 && n / 4096 == a && n / 256 % 16 == b && n / 16 % 16 == c && n % 16 == d
  {
    var n := a * 4096 + b * 256 + c * 16 + d;
    assert n / 16 == a * 256 + b * 16 + c;
    assert n / 256 == a * 16 + b;
  }

  lemma CodeIsDigits(a: char, b: char, c: char, d: char) returns (upper: seq<bool>)
    requires IsHex(a) && IsHex(b) && IsHex(c) && IsHex(d)
    ensures |upper| == 4 && [a, b, c, d] == FourDigits(Code(a, b, c, d), upper)
  {
    var ua := HexCharIsDigit(a);
    var ub := HexCharIsDigit(b);
    var uc := HexCharIsDigit(c);
    var ud := HexCharIsDigit(d);
    upper := [ua, ub, uc, ud];
    FourDigitsOf(FromHex(a), FromHex(b), FromHex(c), FromHex(d), Code(a, b, c, d), upper, [a, b, c, d]);
  }

  lemma FourDigitsOf(a: nat, b: nat, c: nat, d: nat, n: nat, upper: seq<bool>, s: string)
    requires a < 16 && b < 16 && c < 16 && d < 16 && n == a * 4096 + b * 256 + c * 16 + d && |upper| == |s| == 4
    requires s[0] == Numerals.HexDigit(a, upper[0]) && s[1] == Numerals.HexDigit(b, upper[1])
    requires s[2] == Numerals.HexDigit(c, upper[2]) && s[3] == Numerals.HexDigit(d, upper[3])
    ensures n < 0x10000 && s == FourDigits(n, upper)
  {
    DigitsOfCode(a, b, c, d);
  }

  /** What is written for a code unit is read back by the decoder. */
  lemma Utf8IsDecoded(n: nat)
    requires n < 0x10000
    ensures FromUtf8(Utf8(n)) == Some(n)
  {
    if n >= 0x800 {
      assert n == n / 4096 * 4096 + n / 64 % 64 * 64 + n % 64;
    }
  }

  lemma ShortIsRead(c: char)
    requires c in SHORT_NAMES
    ensures IsPlainEscape(c) && UnitMeans(Short(c), [PlainEscape(c)])
  {
    var i :| 0 <= i < 8 && SHORT_NAMES[i] == c;
    assert SHORT_VALUES[i] == PlainEscape(c);
  }

  lemma PlainEscapeIsShort(c: char)
    requires IsPlainEscape(c)
    ensures c in SHORT_NAMES
  {
    assert SHORT_NAMES[0] == '"' && SHORT_NAMES[1] == '\\' && SHORT_NAMES[2] == '/' && SHORT_NAMES[3] == 'b';
    assert SHORT_NAMES[4] == 'f' && SHORT_NAMES[5] == 'n' && SHORT_NAMES[6] == 'r' && SHORT_NAMES[7] == 't';
  }

  /** A unit at the front of a text is one unit for the scanner, with the bytes that it stands for. */
  lemma UnitIsRead(u: Unit, rest: string)
    requires UnitOk(u)
    ensures var s := UnitText(u) + rest;
      && UnitLength(s) == |UnitText(u)| > 0 && s[|UnitText(u)|..] == rest
      && s[0] != '"' && s[0] != '\0' && UnitMeans(u, UnescapeUnit(s))
  {
    var s := UnitText(u) + rest;
    match u
    case Plain(c) =>
    case Short(c) => ShortIsRead(c);
    case CodeUnit(n, upper) =>
      FourDigitsAreRead(n, upper);
      Utf8IsDecoded(n);
      assert forall i :: 0 <= i < 4 ==> s[i + 2] == FourDigits(n, upper)[i];
      assert !IsPlainEscape('u');
  }

  /** The first unit that the scanner passes is one of the three. */
  lemma FirstUnit(s: string) returns (u: Unit)
    requires UnitLength(s) > 0 && s[0] != '"' && s[0] != '\0'
    ensures UnitOk(u) && UnitText(u) == s[..UnitLength(s)]
  {
    if s[0] != '\\' {
      u := Plain(s[0]);
    } else if IsPlainEscape(s[1]) {
      u := Short(s[1]);
      PlainEscapeIsShort(s[1]);
    } else {
      var upper := CodeIsDigits(s[2], s[3], s[4], s[5]);
      u := CodeUnit(Code(s[2], s[3], s[4], s[5]), upper);
      assert s[..6] == ['\\', 'u'] + [s[2], s[3], s[4], s[5]];
    }
  }

  lemma {:induction false} UnitsAreScanned(units: seq<Unit>, rest: string)
    requires UnitsOk(units)
    ensures ScanString(UnitsText(units) + (['"'] + rest)) == Some(|UnitsText(units)|)
    decreases |units|
  {
    var tail := ['"'] + rest;
    if units == [] {
      assert UnitsText(units) + tail == tail;
    } else {
      var u, more := units[0], UnitsText(units[1..]);
      UnitsAreScanned(units[1..], rest);
      MoreUnitsAreScanned(u, more, UnitsText(units), tail);
    }
  }

  lemma {:induction false} MoreUnitsAreScanned(u: Unit, more: string, text: string, tail: string)
    requires UnitOk(u) && text == UnitText(u) + more && ScanString(more + tail) == Some(|more|)
    ensures ScanString(text + tail) == Some(|text|)
  {
    AssociateText(UnitText(u), more, tail);
    OneUnitIsScanned(u, more + tail);
  }

  lemma {:induction false} OneUnitIsScanned(u: Unit, more: string)
    requires UnitOk(u)
    ensures ScanString(UnitText(u) + more) ==
      match ScanString(more) case Some(n) => Some(|UnitText(u)| + n) case None => None
  {
    UnitIsRead(u, more);
  }

  lemma {:induction false} UnitsAreWellEscaped(units: seq<Unit>)
    requires UnitsOk(units)
    ensures WellEscaped(UnitsText(units)) && UnitsMean(units, Unescape(UnitsText(units)))
    decreases |units|
  {
    if units != [] {
      var u, more := units[0], UnitsText(units[1..]);
      UnitsAreWellEscaped(units[1..]);
      UnitIsRead(u, more);
      var bytes := UnescapeUnit(UnitText(u) + more);
      assert bytes[..|bytes|] == bytes;
      FirstBytes(units, bytes, Unescape(more));
    }
  }

  lemma {:induction false} FirstBytes(units: seq<Unit>, bytes: string, more: string)
    requires units != [] && bytes != "" && UnitMeans(units[0], bytes) && UnitsMean(units[1..], more)
    ensures UnitsMean(units, bytes + more)
  {
    var k := |bytes|;
    assert (bytes + more)[..k] == bytes && (bytes + more)[k..] == more;
  }

  /** For example, one code unit: unescaping gives the bytes that decode to its number. */
  lemma {:induction false} CodeUnitIsUnescaped(n: nat, upper: seq<bool>)
    requires n < 0x10000 && |upper| == 4
    ensures var s := ['\\', 'u'] + FourDigits(n, upper); WellEscaped(s) && FromUtf8(Unescape(s)) == Some(n)
  {
    var u := CodeUnit(n, upper);
    var s := UnitText(u);
    assert s + "" == s;
    UnitIsRead(u, "");
    OnlyUnit(s);
  }

  lemma {:induction false} OnlyUnit(s: string)
    requires UnitLength(s) == |s| > 0
    ensures WellEscaped(s) && Unescape(s) == UnescapeUnit(s)
  {
    assert s[|s|..] == "";
  }

  lemma {:induction false} ScannedIsUnits(s: string) returns (units: seq<Unit>)
    requires ScanString(s).Some?
    ensures UnitsOk(units) && UnitsText(units) == s[..ScanString(s).value]
    decreases |s|
  {
    var n := ScanString(s).value;
    units := [];
    if n > 0 {
      var k := UnitLength(s);
      var u := FirstUnit(s);
      var more := ScannedIsUnits(s[k..]);
      units := [u] + more;
      OneMoreUnit(u, more);
      CutAt(s, k, n);
    }
  }

  lemma OneMoreUnit(u: Unit, more: seq<Unit>)
    requires UnitOk(u) && UnitsOk(more)
    ensures UnitsOk([u] + more) && UnitsText([u] + more) == UnitText(u) + UnitsText(more)
  {
    assert ([u] + more)[1..] == more;
  }

  /** How a byte is printed: by its short escape if it has one other than `/`, by its code in lower case if it is
      below the space, and as it is otherwise. */
  predicate IsPrinted(u: Unit, c: char) {
    match u
    case Plain(d) => d == c && c >= ' ' && c != '"' && c != '\\'
    case Short(d) => exists i :: 0 <= i < 8 && i != 2 && SHORT_NAMES[i] == d && SHORT_VALUES[i] == c
    case CodeUnit(n, upper) => n == c as nat < 32 && c !in SHORT_VALUES && upper == [false, false, false, false]
  }

  lemma LowerDigit(d: nat)
    requires d < 16
    ensures JsonText.HexDigit(d) == Numerals.HexDigit(d, false)
  {
    HexDigitAt(d);
  }

  lemma ControlIsPrinted(c: char)
    requires c < ' ' && c !in SHORT_VALUES
    ensures var u := CodeUnit(c as nat, [false, false, false, false]);
      UnitOk(u) && UnitText(u) == EscapeOne(c) && IsPrinted(u, c)
  {
    LowerDigit(0);
    LowerDigit(c as nat / 16);
    LowerDigit(c as nat % 16);
    assert SHORT_VALUES[0] == '"' && SHORT_VALUES[1] == '\\' && SHORT_VALUES[3] == '\U{8}';
    assert SHORT_VALUES[4] == '\U{C}' && SHORT_VALUES[5] == '\n';
    assert SHORT_VALUES[6] == '\r' && SHORT_VALUES[7] == '\t';
  }

  lemma ShortIsPrinted(i: nat)
    requires i < 8 && i != 2
    ensures var c, u := SHORT_VALUES[i], Short(SHORT_NAMES[i]);
      UnitOk(u) && UnitText(u) == EscapeOne(c) && IsPrinted(u, c)
  {
  }

  lemma UnitIsPrinted(c: char) returns (u: Unit)
    ensures UnitOk(u) && UnitText(u) == EscapeOne(c) && IsPrinted(u, c)
  {
    if i :| 0 <= i < 8 && i != 2 && SHORT_VALUES[i] == c {
      ShortIsPrinted(i);
      u := Short(SHORT_NAMES[i]);
    } else if c < ' ' {
      ControlIsPrinted(c);
      u := CodeUnit(c as nat, [false, false, false, false]);
    } else {
      assert SHORT_VALUES[0] == '"' && SHORT_VALUES[1] == '\\';
      u := Plain(c);
    }
  }

  /** An escaped string is its bytes, each printed in this way. */
  lemma {:induction false} EscapedIsPrinted(s: string) returns (units: seq<Unit>)
    ensures UnitsOk(units) && UnitsText(units) == Escape(s)
    ensures |units| == |s| && forall i :: 0 <= i < |s| ==> IsPrinted(units[i], s[i])
    decreases |s|
  {
    units := [];
    if s != "" {
      var u := UnitIsPrinted(s[0]);
      var more := EscapedIsPrinted(s[1..]);
      OneMoreUnit(u, more);
      units := [u] + more;
    }
  }

  // ---------------------------------------------------------------------------------------------
  // Numbers
  // ---------------------------------------------------------------------------------------------

  /** The sign of an exponent is at most one of the two. */
  datatype Exponent = Exponent(big: bool, sign: string, digits: string)

  datatype Numeral = Numeral(minus: bool, whole: nat, fraction: Option<string>, exponent: Option<Exponent>)

  predicate OnlyDigits(s: string) {
    forall i :: 0 <= i < |s| ==> s[i] in DIGITS
  }

  predicate ExponentOk(e: Exponent) {
    (e.sign == "" || e.sign == "+" || e.sign == "-") && OnlyDigits(e.digits) && (e.sign == "" ==> e.digits != "")
  }

  /** The digits after the point may be missing, and those of an exponent after its sign. A zero has an exponent only
      after a point. */
  predicate NumeralOk(n: Numeral) {
    && (n.fraction.Some? ==> OnlyDigits(n.fraction.value))
    && (n.exponent.Some? ==> ExponentOk(n.exponent.value))
    && (n.whole == 0 && n.exponent.Some? ==> n.fraction.Some?)
  }

  function ExponentText(e: Option<Exponent>): string {
    match e
    case None => ""
    case Some(Exponent(big, sign, digits)) => (if big then "E" else "e") + (sign + digits)
  }

  function FractionText(fraction: Option<string>, e: Option<Exponent>): string {
    match fraction
    case None => ExponentText(e)
    case Some(digits) => "." + (digits + ExponentText(e))
  }

  function WholeAndFractionText(n: Numeral): string {
    Numerals.Decimal(n.whole) + FractionText(n.fraction, n.exponent)
  }

  function NumeralText(n: Numeral): string {
    (if n.minus then ['-'] else []) + WholeAndFractionText(n)
  }

  /** An integer of at most ten digits is a number; any other numeral is kept as it is written. */
  function NumeralValue(n: Numeral): Value {
    if n.fraction.None? && n.exponent.None? && n.whole < 10000000000 && !(n.minus && n.whole == 0) then
      Integer(if n.minus then -(n.whole as int) else n.whole)
    else Real(NumeralText(n))
  }

  lemma DigitIsDigit(c: char)
    ensures c in DIGITS <==> IsDigit(c)
  {
    if IsDigit(c) {
      DigitAt(c as nat - '0' as nat);
    }
  }

  lemma SignFirst(sign: string, digits: string, rest: string)
    ensures sign == "" && digits != "" ==> sign + digits + rest == [digits[0]] + (digits[1..] + rest)
    ensures |sign| == 1 ==> sign + digits + rest == [sign[0]] + (digits + rest)
  {
  }

  lemma Regrouped(a: string, b: string, c: string, rest: string)
    ensures a + (b + c) + rest == a + (b + (c + rest)) && b + c + rest == b + (c + rest)
    ensures a == "" ==> a + (b + c) == b + c
  {
  }

  // Forwards: each state passes the text that may follow it.

  lemma {:induction false} DigitsPass(s: string, rest: string, state: NumberState, k: nat)
    requires OnlyDigits(s) && (state.Digits? || state.DigitsAfterPoints? || state.DigitsAfterE?)
    requires ScanNumber(rest, state) == Some(k)
    ensures ScanNumber(s + rest, state) == Some(|s| + k)
    decreases |s|
  {
    if s == "" {
      assert s + rest == rest;
    } else {
      DigitIsDigit(s[0]);
      DigitsPass(s[1..], rest, state, k);
      OnePasses(s[0], s[1..] + rest, state, |s| - 1 + k);
      assert s + rest == [s[0]] + (s[1..] + rest);
    }
  }

  lemma {:induction false} OnePasses(c: char, rest: string, state: NumberState, k: nat)
    requires IsNumberChar(c) && !state.Invalid? && ScanNumber(rest, NextState(state, c)) == Some(k)
    ensures ScanNumber([c] + rest, state) == Some(1 + k)
  {
    assert ([c] + rest)[1..] == rest;
  }

  lemma {:induction false} EndPasses(rest: string, state: NumberState)
    requires Ends(rest) && Accepts(state)
    ensures ScanNumber(rest, state) == Some(0)
  {
  }

  lemma {:induction false} ExponentDigitsPass(e: Exponent, rest: string)
    requires ExponentOk(e) && Ends(rest)
    ensures ScanNumber(e.sign + e.digits + rest, E) == Some(|e.sign + e.digits|)
  {
    EndPasses(rest, DigitsAfterE);
    if e.sign == "" {
      DigitIsDigit(e.digits[0]);
      var more := e.digits[1..];
      DigitsPass(more, rest, DigitsAfterE, 0);
      OnePasses(e.digits[0], more + rest, E, |more|);
      SignFirst(e.sign, e.digits, rest);
    } else {
      DigitsPass(e.digits, rest, DigitsAfterE, 0);
      OnePasses(e.sign[0], e.digits + rest, E, |e.digits|);
      SignFirst(e.sign, e.digits, rest);
    }
  }

  lemma {:induction false} ExponentPasses(e: Option<Exponent>, rest: string, state: NumberState)
    requires (e.Some? ==> ExponentOk(e.value)) && Ends(rest) && (state.Digits? || state.DigitsAfterPoints?)
    ensures ScanNumber(ExponentText(e) + rest, state) == Some(|ExponentText(e)|)
  {
    match e
    case None =>
      EndPasses(rest, state);
      assert ExponentText(e) + rest == rest;
    case Some(x) =>
      var c := if x.big then 'E' else 'e';
      ExponentDigitsPass(x, rest);
      OnePasses(c, x.sign + x.digits + rest, state, |x.sign + x.digits|);
      assert ExponentText(e) == [c] + (x.sign + x.digits);
      AssociateText([c], x.sign + x.digits, rest);
  }

  lemma {:induction false} FractionPasses(n: Numeral, rest: string)
    requires NumeralOk(n) && Ends(rest)
    ensures var s := FractionText(n.fraction, n.exponent);
      ScanNumber(s + rest, if n.whole == 0 then ZeroFirst else Digits) == Some(|s|)
  {
    match n.fraction
    case None =>
      if n.whole == 0 {
        EndPasses(rest, ZeroFirst);
        assert "" + rest == rest;
      } else {
        ExponentPasses(n.exponent, rest, Digits);
      }
    case Some(digits) =>
      ExponentPasses(n.exponent, rest, DigitsAfterPoints);
      PointPasses(digits, ExponentText(n.exponent), rest, if n.whole == 0 then ZeroFirst else Digits);
  }

  lemma {:induction false} PointPasses(digits: string, tail: string, rest: string, state: NumberState)
    requires OnlyDigits(digits) && (state.ZeroFirst? || state.Digits?)
    requires ScanNumber(tail + rest, DigitsAfterPoints) == Some(|tail|)
    ensures ScanNumber((['.'] + (digits + tail)) + rest, state) == Some(1 + |digits| + |tail|)
  {
    DigitsPass(digits, tail + rest, DigitsAfterPoints, |tail|);
    OnePasses('.', digits + (tail + rest), state, |digits| + |tail|);
    Regrouped(['.'], digits, tail, rest);
  }

  lemma {:induction false} WholePasses(n: nat, rest: string, state: NumberState, k: nat)
    requires (state.Minus? || state.AfterMinus?) && ScanNumber(rest, if n == 0 then ZeroFirst else Digits) == Some(k)
    ensures ScanNumber(Numerals.Decimal(n) + rest, state) == Some(|Numerals.Decimal(n)| + k)
    decreases n
  {
    var d, init := DecimalParts(n);
    var c := DIGITS[d];
    AssociateText(init, [c], rest);
    if n < 10 {
      assert "" + ([c] + rest) == [c] + rest;
      OnePasses(c, rest, state, k);
    } else {
      OnePasses(c, rest, Digits, k);
      WholePasses(n / 10, [c] + rest, state, 1 + k);
    }
  }

  lemma {:induction false} WholeAndFractionPass(n: Numeral, rest: string, state: NumberState)
    requires NumeralOk(n) && Ends(rest) && (state.Minus? || state.AfterMinus?)
    ensures var s := WholeAndFractionText(n); ScanNumber(s + rest, state) == Some(|s|)
  {
    var w, f := Numerals.Decimal(n.whole), FractionText(n.fraction, n.exponent);
    FractionPasses(n, rest);
    WholePasses(n.whole, f + rest, state, |f|);
    TogetherPass(w, f, rest, state);
  }

  lemma TogetherPass(w: string, f: string, rest: string, state: NumberState)
    requires ScanNumber(w + (f + rest), state) == Some(|w| + |f|)
    ensures ScanNumber((w + f) + rest, state) == Some(|w + f|)
  {
    AssociateText(w, f, rest);
  }

  lemma {:induction false} SignPasses(s: string, minus: bool, text: string, rest: string)
    requires text == (if minus then ['-'] else []) + s
    requires ScanNumber(s + rest, if minus then AfterMinus else Minus) == Some(|s|)
    ensures ScanNumber(text + rest, Minus) == Some(|text|)
  {
    if minus {
      OnePasses('-', s + rest, Minus, |s|);
      AssociateText(['-'], s, rest);
    } else {
      assert text == s;
    }
  }

  /** A numeral is passed by the scanner as a whole. */
  lemma {:induction false} NumeralIsScanned(n: Numeral, rest: string)
    requires NumeralOk(n) && Ends(rest)
    ensures ScanNumber(NumeralText(n) + rest, Minus) == Some(|NumeralText(n)|)
  {
    WholeAndFractionPass(n, rest, if n.minus then AfterMinus else Minus);
    SignPasses(WholeAndFractionText(n), n.minus, NumeralText(n), rest);
  }

  // Backwards: what each state has passed.

  lemma {:induction false} ScanStep(s: string, state: NumberState)
    requires ScanNumber(s, state).Some? && ScanNumber(s, state).value > 0
    ensures s != "" && IsNumberChar(s[0]) && !NextState(state, s[0]).Invalid?
    ensures ScanNumber(s[1..], NextState(state, s[0])) == Some(ScanNumber(s, state).value - 1)
    ensures var n := ScanNumber(s, state).value; s[..n] == [s[0]] + s[1..][..n - 1]
  {
  }

  lemma {:induction false} ScanStops(s: string, state: NumberState)
    requires ScanNumber(s, state) == Some(0)
    ensures Accepts(state) && Ends(s)
  {
  }

  lemma {:induction false} AfterEIsDigits(s: string)
    requires ScanNumber(s, DigitsAfterE).Some?
    ensures var n := ScanNumber(s, DigitsAfterE).value; OnlyDigits(s[..n]) && Ends(s[n..])
    decreases |s|
  {
    var n := ScanNumber(s, DigitsAfterE).value;
    if n == 0 {
      ScanStops(s, DigitsAfterE);
    } else {
      ScanStep(s, DigitsAfterE);
      DigitIsDigit(s[0]);
      AfterEIsDigits(s[1..]);
      assert s[1..][n - 1..] == s[n..];
    }
  }

  lemma {:induction false} AfterLetterIsExponent(s: string, big: bool) returns (e: Exponent)
    requires ScanNumber(s, E).Some?
    ensures var n := ScanNumber(s, E).value;
      ExponentOk(e) && e.big == big && s[..n] == e.sign + e.digits && Ends(s[n..])
  {
    var n := ScanNumber(s, E).value;
    if n == 0 {
      ScanStops(s, E);
      assert false;
    }
    ScanStep(s, E);
    DigitIsDigit(s[0]);
    AfterEIsDigits(s[1..]);
    e := if IsDigit(s[0]) then Exponent(big, "", s[..n]) else Exponent(big, [s[0]], s[1..][..n - 1]);
    assert s[1..][n - 1..] == s[n..];
  }

  /** An exponent, or the end. */
  lemma {:induction false} MaybeExponent(s: string, state: NumberState) returns (e: Option<Exponent>)
    requires (state.Digits? || state.DigitsAfterPoints?) && ScanNumber(s, state).Some?
    requires ScanNumber(s, state).value > 0 ==> s[0] == 'e' || s[0] == 'E'
    ensures var n := ScanNumber(s, state).value;
      (e.Some? ==> ExponentOk(e.value)) && s[..n] == ExponentText(e) && Ends(s[n..])
  {
    var n := ScanNumber(s, state).value;
    if n == 0 {
      ScanStops(s, state);
      e := None;
    } else {
      ScanStep(s, state);
      var x := AfterLetterIsExponent(s[1..], s[0] == 'E');
      e := Some(x);
      assert s[1..][n - 1..] == s[n..];
    }
  }

  /** Digits and then no more of them. */
  lemma {:induction false} SplitDigits(s: string, state: NumberState) returns (k: nat)
    requires (state.Digits? || state.DigitsAfterPoints?) && ScanNumber(s, state).Some?
    ensures k <= ScanNumber(s, state).value && OnlyDigits(s[..k]) && (k < |s| ==> s[k] !in DIGITS)
    ensures ScanNumber(s[k..], state) == Some(ScanNumber(s, state).value - k)
    decreases |s|
  {
    k := 0;
    assert s[0..] == s;
    if s != "" {
      DigitIsDigit(s[0]);
      if IsDigit(s[0]) {
        ScanStep(s, state);
        k := SplitDigits(s[1..], state);
        FirstAndMore(s, k);
        k := k + 1;
      }
    }
  }

  lemma {:induction false} CutAt(s: string, k: nat, n: nat)
    requires k <= n <= |s|
    ensures s[..n] == s[..k] + s[k..][..n - k] && s[k..][n - k..] == s[n..]
  {
  }

  lemma {:induction false} AfterPointIsFraction(s: string) returns (digits: string, e: Option<Exponent>)
    requires ScanNumber(s, DigitsAfterPoints).Some?
    ensures var n := ScanNumber(s, DigitsAfterPoints).value;
      OnlyDigits(digits) && (e.Some? ==> ExponentOk(e.value)) && s[..n] == digits + ExponentText(e) && Ends(s[n..])
  {
    var n := ScanNumber(s, DigitsAfterPoints).value;
    var k := SplitDigits(s, DigitsAfterPoints);
    digits := s[..k];
    if n > k {
      ScanStep(s[k..], DigitsAfterPoints);
      DigitIsDigit(s[k]);
    }
    e := MaybeExponent(s[k..], DigitsAfterPoints);
    CutAt(s, k, n);
  }

  /** After the first zero, or after all digits of another whole number. */
  lemma {:induction false} MaybeFraction(s: string, state: NumberState)
    returns (fraction: Option<string>, e: Option<Exponent>)
    requires (state.ZeroFirst? || state.Digits?) && ScanNumber(s, state).Some?
    requires state.Digits? && s != "" ==> s[0] !in DIGITS
    ensures var n := ScanNumber(s, state).value; s[..n] == FractionText(fraction, e) && Ends(s[n..])
    ensures (fraction.Some? ==> OnlyDigits(fraction.value)) && (e.Some? ==> ExponentOk(e.value))
    ensures state.ZeroFirst? && e.Some? ==> fraction.Some?
  {
    var n := ScanNumber(s, state).value;
    if n == 0 {
      ScanStops(s, state);
      fraction, e := None, None;
    } else {
      ScanStep(s, state);
      DigitIsDigit(s[0]);
      if s[0] == '.' {
        var digits;
        digits, e := AfterPointIsFraction(s[1..]);
        fraction := Some(digits);
        assert s[1..][n - 1..] == s[n..];
      } else {
        fraction := None;
        e := MaybeExponent(s, state);
      }
    }
  }

  lemma DigitOf(c: char) returns (d: nat)
    requires c in DIGITS
    ensures d < 10 && DIGITS[d] == c && (d == 0 <==> c == '0')
  {
    DigitIsDigit(c);
    d := c as nat - '0' as nat;
    DigitAt(d);
  }

  lemma LastDigit(s: string, k: nat)
    requires OnlyDigits(s) && |s| == k + 1
    ensures s == s[..k] + [s[k]] && OnlyDigits(s[..k]) && s[k] in DIGITS && (k > 0 ==> s[..k][0] == s[0])
  {
  }

  lemma {:induction false} FirstDecimal(s: string) returns (n: nat)
    requires |s| == 1 && s[0] in DIGITS && s[0] != '0'
    ensures n > 0 && s == Numerals.Decimal(n)
  {
    n := DigitOf(s[0]);
    DecimalOne(n);
  }

  lemma {:induction false} MoreDecimal(init: string, m: nat, c: char) returns (n: nat)
    requires m > 0 && init == Numerals.Decimal(m) && c in DIGITS
    ensures n > 0 && init + [c] == Numerals.Decimal(n)
  {
    var d := DigitOf(c);
    n := 10 * m + d;
    DigitAppended(init, m, d, n);
  }

  lemma {:induction false} DigitAppended(init: string, m: nat, d: nat, n: nat)
    requires m > 0 && d < 10 && n == 10 * m + d && init == Numerals.Decimal(m)
    ensures init + [DIGITS[d]] == Numerals.Decimal(n)
  {
    DecimalMore(m, d);
  }

  /** Digits that do not start with a zero are the printed form of a number. */
  lemma {:induction false} DigitsAreDecimal(s: string) returns (n: nat)
    requires s != "" && OnlyDigits(s) && s[0] != '0'
    ensures n > 0 && s == Numerals.Decimal(n)
    decreases |s|
  {
    var k := |s| - 1;
    if k == 0 {
      n := FirstDecimal(s);
    } else {
      LastDigit(s, k);
      n := DigitsAreDecimal(s[..k]);
      n := MoreDecimal(s[..k], n, s[k]);
    }
  }

  lemma {:induction false} WholeAndFraction(s: string, minus: bool, state: NumberState) returns (num: Numeral)
    requires state == (if minus then AfterMinus else Minus) && ScanNumber(s, state).Some?
    requires s != "" && s[0] != '-'
    ensures var n := ScanNumber(s, state).value; NumeralOk(num) && num.minus == minus && Ends(s[n..])
    ensures s[..ScanNumber(s, state).value] == WholeAndFractionText(num)
  {
    var n := ScanNumber(s, state).value;
    if n == 0 {
      ScanStops(s, state);
      assert false;
    }
    ScanStep(s, state);
    DigitIsDigit(s[0]);
    if s[0] == '0' {
      var fraction, e := MaybeFraction(s[1..], ZeroFirst);
      num := Numeral(minus, 0, fraction, e);
      DigitAt(0);
      CutAt(s, 1, n);
    } else {
      num := DigitsAndFraction(s, minus, n);
    }
  }

  /** The whole part, and the rest from its end on. */
  lemma {:induction false} SplitWhole(s: string, n: nat) returns (head: string, tail: string, m: nat)
    requires 0 < n <= |s| && s[0] in DIGITS && ScanNumber(s[1..], Digits) == Some(n - 1)
    ensures head != "" && OnlyDigits(head) && head[0] == s[0] && (tail != "" ==> tail[0] !in DIGITS)
    ensures ScanNumber(tail, Digits) == Some(m) && s[..n] == head + tail[..m] && tail[m..] == s[n..]
  {
    var k := SplitDigits(s[1..], Digits);
    FirstAndMore(s, k);
    CutAt(s, k + 1, n);
    head, tail, m := s[..k + 1], s[k + 1..], n - k - 1;
  }

  lemma {:induction false} DigitsAndFraction(s: string, minus: bool, n: nat) returns (num: Numeral)
    requires 0 < n <= |s| && s[0] in DIGITS && s[0] != '0' && ScanNumber(s[1..], Digits) == Some(n - 1)
    ensures NumeralOk(num) && num.minus == minus && Ends(s[n..])
    ensures s[..n] == WholeAndFractionText(num)
  {
    var head, tail, m := SplitWhole(s, n);
    var whole := DigitsAreDecimal(head);
    var fraction, e := MaybeFraction(tail, Digits);
    num := Numeral(minus, whole, fraction, e);
    WholeThenFraction(num, s[..n], head, tail[..m]);
  }

  lemma WholeThenFraction(n: Numeral, text: string, whole: string, fraction: string)
    requires whole == Numerals.Decimal(n.whole) && fraction == FractionText(n.fraction, n.exponent)
    requires text == whole + fraction
    ensures text == WholeAndFractionText(n)
  {
  }

  lemma {:induction false} FirstAndMore(s: string, k: nat)
    requires k + 1 <= |s| && s[0] in DIGITS && OnlyDigits(s[1..][..k])
    ensures OnlyDigits(s[..k + 1]) && s[..k + 1][0] == s[0] && s[1..][k..] == s[k + 1..]
  {
    assert s[..k + 1] == [s[0]] + s[1..][..k];
  }

  /** What the scanner passes is a numeral. */
  lemma {:induction false} ScannedIsNumeral(s: string) returns (num: Numeral)
    requires ScanNumber(s, Minus).Some?
    ensures var n := ScanNumber(s, Minus).value; NumeralOk(num) && s[..n] == NumeralText(num) && Ends(s[n..])
  {
    var n := ScanNumber(s, Minus).value;
    ScanStep(s, Minus);
    if s[0] == '-' {
      if n == 1 {
        ScanStops(s[1..], AfterMinus);
        assert false;
      }
      ScanStep(s[1..], AfterMinus);
      num := WholeAndFraction(s[1..], true, AfterMinus);
      CutAt(s, 1, n);
    } else {
      num := WholeAndFraction(s, false, Minus);
    }
  }

  // What a numeral stands for.

  lemma {:induction false} DecimalIsDigitString(n: nat)
    ensures Numerals.Decimal(n) == DigitString(n)
  {
    DigitAt(n % 10);
    if n >= 10 {
      DecimalIsDigitString(n / 10);
    }
  }

  /** The printer writes integers in decimal. */
  lemma PrintedInteger(n: int)
    ensures JsonText.Decimal(n) == (if n < 0 then ['-'] else []) + Numerals.Decimal(if n < 0 then -n else n)
  {
    DecimalIsDigitString(if n < 0 then -n else n);
  }

  lemma {:induction false} ManyDigits(n: nat, k: nat)
    requires n >= Power10(k)
    ensures |DigitString(n)| > k
    decreases k
  {
    if k > 0 {
      assert n / 10 >= Power10(k - 1);
      PowerIsPositive(k - 1);
      ManyDigits(n / 10, k - 1);
    }
  }

  lemma {:induction false} PowerIsPositive(k: nat)
    ensures Power10(k) > 0
  {
    if k > 0 {
      PowerIsPositive(k - 1);
    }
  }

  lemma TenDigits(n: nat)
    ensures |DigitString(n)| <= 10 <==> n < 10000000000
  {
    assert Power10(5) == 100000;
    assert Power10(10) == 10000000000;
    if n < 10000000000 {
      DigitCount(n, 10);
    } else {
      ManyDigits(n, 10);
    }
  }

  lemma {:induction false} SignedNumber(digits: string, minus: bool, text: string)
    requires text == (if minus then ['-'] else []) + digits && digits != "" && AllDigits(digits)
    ensures NumberOf(text) ==
      if |digits| <= 10 && !(minus && digits[0] == '0')
      then Integer(if minus then 0 - DigitsValue(digits) else DigitsValue(digits))
      else Real(text)
  {
    if minus {
      assert text[1..] == digits;
    } else {
      assert text == digits && IsDigit(digits[0]);
    }
  }

  lemma {:induction false} ZeroStarts(n: nat)
    ensures DigitString(n)[0] == '0' <==> n == 0
  {
    DigitsAreDigits(n);
  }

  lemma {:induction false} WholeIsValue(n: nat, minus: bool, text: string)
    requires text == (if minus then ['-'] else []) + DigitString(n)
    ensures NumberOf(text) ==
      if n < 10000000000 && !(minus && n == 0) then Integer(if minus then -(n as int) else n) else Real(text)
  {
    DigitsAreDigits(n);
    ZeroStarts(n);
    TenDigits(n);
    SignedNumber(DigitString(n), minus, text);
  }

  /** A text with a character that is no digit after its sign is kept as it is. */
  lemma OtherIsKept(text: string, i: nat)
    requires i < |text| && !IsDigit(text[i]) && !(i == 0 && text[i] == '-')
    ensures NumberOf(text) == Real(text)
  {
    if Starts(text, '-') {
      assert text[1..][i - 1] == text[i];
    }
  }

  lemma FractionStarts(fraction: Option<string>, e: Option<Exponent>)
    requires fraction.Some? || e.Some?
    ensures var s := FractionText(fraction, e); s != "" && (s[0] == '.' || s[0] == 'e' || s[0] == 'E')
  {
  }

  lemma NumeralIsValue(n: Numeral)
    requires NumeralOk(n)
    ensures NumberOf(NumeralText(n)) == NumeralValue(n)
  {
    var text, i := NumeralText(n), (if n.minus then 1 else 0) + |Numerals.Decimal(n.whole)|;
    DecimalIsDigitString(n.whole);
    if n.fraction.Some? || n.exponent.Some? {
      FractionStarts(n.fraction, n.exponent);
      assert text[i] == FractionText(n.fraction, n.exponent)[0];
      OtherIsKept(text, i);
    } else {
      assert FractionText(n.fraction, n.exponent) == "";
      assert text == (if n.minus then ['-'] else []) + DigitString(n.whole);
      WholeIsValue(n.whole, n.minus, text);
    }
  }
}
