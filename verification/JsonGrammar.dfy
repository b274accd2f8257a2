/** What the parser accepts, as a function of the text, and why it reads back what the printer wrote. The text
    ends at its first NUL. */
module JsonGrammar {
  import opened Wrappers
  import opened JsonText

  /** A parsed value that still has its strings escaped and its numbers as numerals; keys are unescaped. */
  datatype Raw =
    | RNull
    | RFalse
    | RTrue
    | RNumber(text: string)
    | RString(text: string)
    | RList(items: seq<Raw>)
    | RObject(fields: seq<RawField>)

  datatype RawField = RawField(key: string, value: Raw)

  datatype Parsed<T> = Parsed(value: T, rest: string)

  predicate IsSpace(c: char) {
    c == ' ' || c == '\t' || c == '\r' || c == '\n'
  }

  function SkipSpace(s: string): (rest: string)
    ensures |rest| <= |s|
  {
    if s != "" && IsSpace(s[0]) then SkipSpace(s[1..]) else s
  }

  predicate Starts(s: string, c: char) {
    s != "" && s[0] == c
  }

  // ---------------------------------------------------------------------------------------------
  // Strings and numbers
  // ---------------------------------------------------------------------------------------------

  /** The distance to the closing quote. */
  function ScanString(s: string): (n: Option<nat>)
    ensures n.Some? ==> n.value < |s| && s[n.value] == '"'
  {
    if s == "" || s[0] == '\0' then None
    else if s[0] == '"' then Some(0)
    else if UnitLength(s) == 0 then None
    else
      match ScanString(s[UnitLength(s)..])
      case Some(n) => Some(UnitLength(s) + n)
      case None => None
  }

  function ParseString(s: string): (p: Option<Parsed<string>>)
    ensures p.Some? ==> |p.value.rest| < |s|
  {
    if !Starts(s, '"') then None
    else
      match ScanString(s[1..])
      case Some(n) => Some(Parsed(s[1..][..n], s[1..][n + 1..]))
      case None => None
  }

  datatype NumberState = Minus | AfterMinus | ZeroFirst | Digits | DigitsAfterPoints | E | DigitsAfterE | Invalid

  predicate IsDigit(c: char) {
    '0' <= c <= '9'
  }

  predicate IsNumberChar(c: char) {
    IsDigit(c) || c == '.' || c == '-' || c == '+' || c == 'e' || c == 'E'
  }

  /** The transition table. */
  function NextState(state: NumberState, c: char): NumberState
    requires IsNumberChar(c)
  {
    if IsDigit(c) then
      match state
      case Minus => if c == '0' then ZeroFirst else Digits
      case AfterMinus => if c == '0' then ZeroFirst else Digits
      case Digits => Digits
      case DigitsAfterPoints => DigitsAfterPoints
      case E => DigitsAfterE
      case DigitsAfterE => DigitsAfterE
      case _ => Invalid
    else if c == '.' then
      if state.ZeroFirst? || state.Digits? then DigitsAfterPoints else Invalid
    else if c == '-' then
      if state.Minus? then AfterMinus else if state.E? then DigitsAfterE else Invalid
    else if c == '+' then
      if state.E? then DigitsAfterE else Invalid
    else
      if state.Digits? || state.DigitsAfterPoints? then E else Invalid
  }

  predicate Accepts(state: NumberState) {
    state.ZeroFirst? || state.Digits? || state.DigitsAfterPoints? || state.DigitsAfterE?
  }

  /** The length of the numeral that goes on from this state. */
  function ScanNumber(s: string, state: NumberState): (n: Option<nat>)
    ensures n.Some? ==> n.value <= |s|
    ensures n.Some? && state.Minus? ==> n.value > 0
  {
    if state.Invalid? then None
    else if s == "" || !IsNumberChar(s[0]) then (if Accepts(state) then Some(0) else None)
    else
      match ScanNumber(s[1..], NextState(state, s[0]))
      case Some(n) => Some(n + 1)
      case None => None
  }

  function ParseNumber(s: string): (p: Option<Parsed<Raw>>)
    ensures p.Some? ==> |p.value.rest| < |s|
  {
    match ScanNumber(s, Minus)
    case Some(n) => Some(Parsed(RNumber(s[..n]), s[n..]))
    case None => None
  }

  // ---------------------------------------------------------------------------------------------
  // Values
  // ---------------------------------------------------------------------------------------------

  function ParseValue(s: string): (p: Option<Parsed<Raw>>)
    ensures p.Some? ==> |p.value.rest| < |s|
    decreases |s|, 1
  {
    if s == "" then None
    else if s[0] == '[' then ParseList(SkipSpace(s[1..]))
    else if s[0] == '{' then ParseObject(SkipSpace(s[1..]))
    else if s[0] == '"' then AsString(ParseString(s))
    else if s[0] == 't' || s[0] == 'f' || s[0] == 'n' then ParseWord(s)
    else ParseNumber(s)
  }

  function AsString(p: Option<Parsed<string>>): Option<Parsed<Raw>> {
    match p
    case Some(p) => Some(Parsed(RString(p.value), p.rest))
    case None => None
  }

  function ParseWord(s: string): (p: Option<Parsed<Raw>>)
    requires s != ""
    ensures p.Some? ==> |p.value.rest| < |s|
  {
    if s[0] == 't' then
      if |s| >= 4 && s[1] == 'r' && s[2] == 'u' && s[3] == 'e' then Some(Parsed(RTrue, s[4..])) else None
    else if s[0] == 'f' then
      if |s| >= 5 && s[1] == 'a' && s[2] == 'l' && s[3] == 's' && s[4] == 'e' then Some(Parsed(RFalse, s[5..]))
        else None
    else
      if |s| >= 4 && s[0] == 'n' && s[1] == 'u' && s[2] == 'l' && s[3] == 'l' then Some(Parsed(RNull, s[4..])) else None
  }

  /** What follows the opening bracket. */
  function ParseList(t: string): (p: Option<Parsed<Raw>>)
    ensures p.Some? ==> |p.value.rest| < |t|
    decreases |t|, 3
  {
    if Starts(t, ']') then Some(Parsed(RList([]), t[1..]))
    else
      match ParseItems(t)
      case Some(p) => Some(Parsed(RList(p.value), p.rest))
      case None => None
  }

  /** What follows the opening brace. */
  function ParseObject(t: string): (p: Option<Parsed<Raw>>)
    ensures p.Some? ==> |p.value.rest| < |t|
    decreases |t|, 3
  {
    if Starts(t, '}') then Some(Parsed(RObject([]), t[1..]))
    else
      match ParseFields(t)
      case Some(p) => Some(Parsed(RObject(p.value), p.rest))
      case None => None
  }

  /** The items of a list up to and with its closing bracket. */
  function ParseItems(s: string): (p: Option<Parsed<seq<Raw>>>)
    ensures p.Some? ==> |p.value.rest| < |s|
    decreases |s|, 2
  {
    match ParseValue(s)
    case None => None
    case Some(first) => ParseMoreItems(first.value, SkipSpace(first.rest))
  }

  function ParseMoreItems(first: Raw, t: string): (p: Option<Parsed<seq<Raw>>>)
    ensures p.Some? ==> |p.value.rest| < |t|
    decreases |t|, 3
  {
    if Starts(t, ']') then Some(Parsed([first], t[1..]))
    else if !Starts(t, ',') then None
    else
      match ParseItems(SkipSpace(t[1..]))
      case Some(more) => Some(Parsed([first] + more.value, more.rest))
      case None => None
  }

  /** A key with its colon, ready for the value. */
  function ParseKey(s: string): (p: Option<Parsed<string>>)
    ensures p.Some? ==> |p.value.rest| < |s|
  {
    match ParseString(s)
    case None => None
    case Some(p) =>
      var t := SkipSpace(p.rest);
      if !Starts(t, ':') || !WellEscaped(p.value) then None
      else Some(Parsed(Unescape(p.value), SkipSpace(t[1..])))
  }

  /** The fields of an object up to and with its closing brace. */
  function ParseFields(s: string): (p: Option<Parsed<seq<RawField>>>)
    ensures p.Some? ==> |p.value.rest| < |s|
    decreases |s|, 2
  {
    match ParseField(s)
    case None => None
    case Some(first) => ParseMoreFields(first.value, SkipSpace(first.rest))
  }

  function ParseField(s: string): (p: Option<Parsed<RawField>>)
    ensures p.Some? ==> |p.value.rest| < |s|
    decreases |s|, 1
  {
    match ParseKey(s)
    case None => None
    case Some(key) =>
      match ParseValue(key.rest)
      case None => None
      case Some(p) => Some(Parsed(RawField(key.value, p.value), p.rest))
  }

  function ParseMoreFields(first: RawField, t: string): (p: Option<Parsed<seq<RawField>>>)
    ensures p.Some? ==> |p.value.rest| < |t|
    decreases |t|, 3
  {
    if Starts(t, '}') then Some(Parsed([first], t[1..]))
    else if !Starts(t, ',') then None
    else
      match ParseFields(SkipSpace(t[1..]))
      case Some(more) => Some(Parsed([first] + more.value, more.rest))
      case None => None
  }

  /** The whole text is one value, up to its first NUL. */
  function Parse(s: string): Option<Raw> {
    match ParseValue(SkipSpace(s))
    case None => None
    case Some(p) =>
      var t := SkipSpace(p.rest);
      if t == "" || t[0] == '\0' then Some(p.value) else None
  }

  /** A scanned string is made of plain characters and proper escape sequences. */
  lemma {:induction false} ScannedIsWellEscaped(s: string)
    requires ScanString(s).Some?
    ensures WellEscaped(s[..ScanString(s).value])
    decreases |s|
  {
    var n := ScanString(s).value;
    if n > 0 {
      var k := UnitLength(s);
      ScannedIsWellEscaped(s[k..]);
      UnitFits(s, n);
      CutTwice(s, k, n);
    }
  }

  lemma {:induction false} UnitFits(s: string, n: nat)
    requires 0 < UnitLength(s) <= n <= |s|
    ensures UnitLength(s[..n]) == UnitLength(s)
  {
  }

  lemma CutTwice(s: string, k: nat, n: nat)
    requires k <= n <= |s|
    ensures s[..n][k..] == s[k..][..n - k]
  {
  }

  // ---------------------------------------------------------------------------------------------
  // From parsed text to values
  // ---------------------------------------------------------------------------------------------

  predicate AllDigits(s: string) {
    forall i :: 0 <= i < |s| ==> IsDigit(s[i])
  }

  function DigitsValue(s: string): nat
    requires AllDigits(s)
  {
    if s == "" then 0 else DigitsValue(s[..|s| - 1]) * 10 + (s[|s| - 1] as nat - '0' as nat)
  }

  /** The number a numeral stands for. */
  function NumberOf(text: string): Value {
    var negative := Starts(text, '-');
    var digits := if negative then text[1..] else text;
    if 0 < |digits| <= 10 && AllDigits(digits) && !(negative && digits[0] == '0') then
      Integer(if negative then 0 - DigitsValue(digits) else DigitsValue(digits))
    else Real(text)
  }

  predicate HasKey(fields: seq<Field>, key: string) {
    exists i :: 0 <= i < |fields| && fields[i].key == key
  }

  /** The value of the writer for a parsed one. Of several fields with the same key the first one stays. */
  function ValueOf(raw: Raw): Value
    decreases raw
  {
    match raw
    case RNull => Null
    case RFalse => Bool(false)
    case RTrue => Bool(true)
    case RNumber(text) => NumberOf(text)
    case RString(text) => if WellEscaped(text) then Text(Unescape(text)) else Text(text)
    case RList(items) => List(ValuesOf(items))
    case RObject(fields) => Object(FieldsOf(fields))
  }

  function ValuesOf(items: seq<Raw>): (values: seq<Value>)
    ensures |values| == |items|
    decreases items
  {
    if items == [] then [] else ValuesOf(items[..|items| - 1]) + [ValueOf(items[|items| - 1])]
  }

  function FieldsOf(fields: seq<RawField>): seq<Field>
    decreases fields
  {
    if fields == [] then []
    else
      var n := |fields| - 1;
      Emplace(FieldsOf(fields[..n]), Field(fields[n].key, ValueOf(fields[n].value)))
  }

  function Emplace(fields: seq<Field>, field: Field): seq<Field> {
    if HasKey(fields, field.key) then fields else fields + [field]
  }

  // ---------------------------------------------------------------------------------------------
  // The parser reads back what the printer wrote
  // ---------------------------------------------------------------------------------------------

  function RawOf(v: Value): Raw
    requires Printable(v)
    decreases v
  {
    match v
    case Null => RNull
    case Bool(b) => if b then RTrue else RFalse
    case Integer(n) => RNumber(Decimal(n))
    case Text(s) => RString(Escape(s))
    case List(items) => RList(RawItems(items))
    case Object(fields) => RObject(RawFields(fields))
  }

  function RawItems(items: seq<Value>): (raws: seq<Raw>)
    requires forall i :: 0 <= i < |items| ==> Printable(items[i])
    ensures |raws| == |items|
    decreases items
  {
    if items == [] then [] else [RawOf(items[0])] + RawItems(items[1..])
  }

  function RawFields(fields: seq<Field>): (raws: seq<RawField>)
    requires forall i :: 0 <= i < |fields| ==> Printable(fields[i].value)
    ensures |raws| == |fields|
    decreases fields
  {
    if fields == [] then [] else [RawField(fields[0].key, RawOf(fields[0].value))] + RawFields(fields[1..])
  }

  lemma {:induction false} ScanOne(c: char, more: string)
    ensures ScanString(EscapeOne(c) + more)
         == match ScanString(more) case Some(n) => Some(|EscapeOne(c)| + n) case None => None
  {
    UnitRoundTrip(c, more);
  }

  lemma {:induction false} ScanQuoted(s: string, rest: string)
    ensures ScanString(Escape(s) + (['"'] + rest)) == Some(|Escape(s)|)
  {
    if s == "" {
      ScanClosing(rest);
    } else {
      ScanQuoted(s[1..], rest);
      ScanFirst(s, ['"'] + rest);
    }
  }

  lemma {:induction false} ScanClosing(rest: string)
    ensures ScanString(Escape("") + (['"'] + rest)) == Some(0)
  {
    assert Escape("") + (['"'] + rest) == ['"'] + rest;
  }

  lemma {:induction false} ScanFirst(s: string, tail: string)
    requires s != ""
    ensures ScanString(Escape(s) + tail)
         == match ScanString(Escape(s[1..]) + tail) case Some(n) => Some(|EscapeOne(s[0])| + n) case None => None
    ensures |Escape(s)| == |EscapeOne(s[0])| + |Escape(s[1..])|
  {
    ScanOne(s[0], Escape(s[1..]) + tail);
    AssociateText(EscapeOne(s[0]), Escape(s[1..]), tail);
  }

  lemma AssociateText(a: string, b: string, c: string)
    ensures (a + b) + c == a + (b + c)
  {
  }

  lemma {:induction false} ParseStringText(body: string, n: nat)
    requires ScanString(body) == Some(n)
    ensures n < |body| && ParseString(['"'] + body) == Some(Parsed(body[..n], body[n + 1..]))
  {
    assert (['"'] + body)[1..] == body;
  }

  lemma {:induction false} ParseQuoted(s: string, rest: string)
    ensures ParseString(Quoted(s) + rest) == Some(Parsed(Escape(s), rest))
  {
    ScanQuoted(s, rest);
    ParseStringText(Escape(s) + (['"'] + rest), |Escape(s)|);
    QuotedText(['"'], Escape(s), rest);
  }

  lemma QuotedText(quote: string, s: string, rest: string)
    requires quote == ['"']
    ensures (quote + s + quote) + rest == quote + (s + (quote + rest))
    ensures var body := s + (quote + rest); body[..|s|] == s && body[|s| + 1..] == rest
  {
  }

  lemma {:induction false} ScanDigits(n: nat, rest: string, state: NumberState)
    requires state.Minus? || state.AfterMinus?
    ensures var after := ScanNumber(rest, if n == 0 then ZeroFirst else Digits);
      ScanNumber(DigitString(n) + rest, state) == if after.Some? then Some(|DigitString(n)| + after.value) else None
  {
    if n < 10 {
      assert (DigitString(n) + rest)[1..] == rest;
    } else {
      var d := ['0' + (n % 10) as char];
      assert DigitString(n) + rest == DigitString(n / 10) + (d + rest);
      ScanDigits(n / 10, d + rest, state);
      assert (d + rest)[1..] == rest;
    }
  }

  /** The text after a value does not go on with a number. */
  predicate Ends(rest: string) {
    rest == "" || !IsNumberChar(rest[0])
  }

  lemma {:induction false} DigitsAreDigits(n: nat)
    ensures AllDigits(DigitString(n)) && DigitsValue(DigitString(n)) == n
    ensures n > 0 ==> DigitString(n)[0] != '0'
  {
    if n >= 10 {
      DigitsAreDigits(n / 10);
      var s, d := DigitString(n), '0' + (n % 10) as char;
      assert s[..|s| - 1] == DigitString(n / 10) && s[|s| - 1] == d;
    }
  }

  function Power10(k: nat): nat { if k == 0 then 1 else 10 * Power10(k - 1) }

  lemma {:induction false} DigitCount(n: nat, k: nat)
    requires k > 0 && n < Power10(k)
    ensures |DigitString(n)| <= k
  {
    if n >= 10 {
      DigitCount(n / 10, k - 1);
    }
  }

  lemma DecimalDigits(n: int) returns (m: nat)
    requires IsShort(n)
    ensures m == (if n < 0 then -n else n) && Decimal(n) == (if n < 0 then ['-'] else []) + DigitString(m)
    ensures 0 < |DigitString(m)| <= 10
  {
    m := if n < 0 then -n else n;
    assert Power10(10) == 10000000000;
    DigitCount(m, 10);
  }

  lemma NumeralIsNumber(n: int)
    requires IsShort(n)
    ensures NumberOf(Decimal(n)) == Integer(n)
    ensures IsDigit(Decimal(n)[0]) || Decimal(n)[0] == '-'
  {
    var m := DecimalDigits(n);
    DigitsAreDigits(m);
    assert IsDigit(DigitString(m)[0]);
    if n < 0 {
      assert Decimal(n)[1..] == DigitString(m);
    }
  }

  lemma {:induction false} ScanDecimal(n: int, rest: string)
    requires IsShort(n) && Ends(rest)
    ensures ScanNumber(Decimal(n) + rest, Minus) == Some(|Decimal(n)|)
  {
    var s := Decimal(n) + rest;
    var m := DecimalDigits(n);
    if n < 0 {
      assert s[0] == '-' && s[1..] == DigitString(m) + rest;
      ScanDigits(m, rest, AfterMinus);
    } else {
      ScanDigits(m, rest, Minus);
    }
  }

  lemma ParseDecimal(n: int, rest: string)
    requires IsShort(n) && Ends(rest)
    ensures ParseNumber(Decimal(n) + rest) == Some(Parsed(RNumber(Decimal(n)), rest))
  {
    ScanDecimal(n, rest);
    var s := Decimal(n) + rest;
    assert s[..|Decimal(n)|] == Decimal(n) && s[|Decimal(n)|..] == rest;
  }

  /** Text that does not start with a space, a closing bracket or the end. */
  predicate Begins(s: string) {
    s != "" && !IsSpace(s[0]) && s[0] != ']' && s[0] != '}' && s[0] != '\0'
  }

  lemma {:induction false} DumpBegins(v: Value, rest: string)
    requires Printable(v)
    ensures Begins(Dump(v) + rest)
  {
    if v.Integer? {
      NumeralIsNumber(v.n);
    }
  }

  lemma {:induction false} ListText(body: string, items: seq<Raw>, rest: string)
    requires Begins(body) && ParseItems(body) == Some(Parsed(items, rest))
    ensures ParseValue(['['] + body) == Some(Parsed(RList(items), rest))
  {
    assert (['['] + body)[1..] == body;
  }

  lemma {:induction false} ObjectText(body: string, fields: seq<RawField>, rest: string)
    requires Begins(body) && ParseFields(body) == Some(Parsed(fields, rest))
    ensures ParseValue(['{'] + body) == Some(Parsed(RObject(fields), rest))
  {
    assert (['{'] + body)[1..] == body;
  }

  lemma {:induction false} EmptyText(rest: string)
    ensures ParseValue(['[', ']'] + rest) == Some(Parsed(RList([]), rest))
    ensures ParseValue(['{', '}'] + rest) == Some(Parsed(RObject([]), rest))
  {
    assert (['[', ']'] + rest)[1..] == [']'] + rest && ([']'] + rest)[1..] == rest;
    assert (['{', '}'] + rest)[1..] == ['}'] + rest && (['}'] + rest)[1..] == rest;
  }

  lemma {:induction false} LastItem(first: Raw, rest: string)
    ensures ParseMoreItems(first, [']'] + rest) == Some(Parsed([first], rest))
  {
    assert ([']'] + rest)[1..] == rest;
  }

  lemma {:induction false} NextItem(first: Raw, next: string)
    requires Begins(next) && ParseItems(next).Some?
    ensures ParseMoreItems(first, [','] + next) == Some(Parsed([first] + ParseItems(next).value.value,
      ParseItems(next).value.rest))
  {
    assert ([','] + next)[1..] == next;
  }

  lemma KeyText(key: string, next: string)
    requires Begins(next)
    ensures ParseKey(Quoted(key) + ([':'] + next)) == Some(Parsed(key, next))
  {
    ParseQuoted(key, [':'] + next);
    EscapeRoundTrip(key);
    assert ([':'] + next)[1..] == next;
  }

  lemma {:induction false} LastField(first: RawField, rest: string)
    ensures ParseMoreFields(first, ['}'] + rest) == Some(Parsed([first], rest))
  {
    assert (['}'] + rest)[1..] == rest;
  }

  lemma {:induction false} NextField(first: RawField, next: string)
    requires Begins(next) && ParseFields(next).Some?
    ensures ParseMoreFields(first, [','] + next) ==
      Some(Parsed([first] + ParseFields(next).value.value, ParseFields(next).value.rest))
  {
    assert ([','] + next)[1..] == next;
  }

  lemma {:induction false} WordText(v: Value, rest: string)
    requires v.Null? || v.Bool?
    ensures ParseValue(Dump(v) + rest) == Some(Parsed(RawOf(v), rest))
  {
    assert (Dump(v) + rest)[|Dump(v)|..] == rest;
  }

  lemma {:induction false} NumberText(n: int, rest: string)
    requires IsShort(n) && Ends(rest)
    ensures ParseValue(Decimal(n) + rest) == Some(Parsed(RNumber(Decimal(n)), rest))
  {
    NumeralIsNumber(n);
    ParseDecimal(n, rest);
  }

  lemma {:induction false} StringText(s: string, rest: string)
    ensures ParseValue(Quoted(s) + rest) == Some(Parsed(RString(Escape(s)), rest))
  {
    ParseQuoted(s, rest);
  }

  lemma {:induction false} DumpTexts(items: seq<Value>, fields: seq<Field>, rest: string)
    requires Printable(List(items)) && Printable(Object(fields))
    ensures Dump(List(items)) + rest == ['['] + (DumpItems(items) + ([']'] + rest))
    ensures Dump(Object(fields)) + rest == ['{'] + (DumpFields(fields) + (['}'] + rest))
  {
  }

  lemma Regroup(a: string, b: string, c: string, tail: string)
    ensures (a + b + c) + tail == a + (b + (c + tail))
  {
  }

  lemma {:induction false} ParseDump(v: Value, rest: string)
    requires Printable(v) && Ends(rest)
    ensures ParseValue(Dump(v) + rest) == Some(Parsed(RawOf(v), rest))
    decreases v, 0
  {
    match v
    case Integer(n) => NumberText(n, rest);
    case Text(s) => StringText(s, rest);
    case List(items) => ParseDumpList(items, rest);
    case Object(fields) => ParseDumpObject(fields, rest);
    case _ => WordText(v, rest);
  }

  lemma {:induction false} ParseDumpList(items: seq<Value>, rest: string)
    requires Printable(List(items)) && Ends(rest)
    ensures ParseValue(Dump(List(items)) + rest) == Some(Parsed(RList(RawItems(items)), rest))
    decreases items, 1
  {
    if items == [] {
      EmptyText(rest);
      assert Dump(List(items)) == ['[', ']'];
    } else {
      ParseDumpItems(items, rest);
      ListText(DumpItems(items) + ([']'] + rest), RawItems(items), rest);
      DumpTexts(items, [], rest);
    }
  }

  lemma {:induction false} ParseDumpObject(fields: seq<Field>, rest: string)
    requires Printable(Object(fields)) && Ends(rest)
    ensures ParseValue(Dump(Object(fields)) + rest) == Some(Parsed(RObject(RawFields(fields)), rest))
    decreases fields, 1
  {
    if fields == [] {
      EmptyText(rest);
      assert Dump(Object(fields)) == ['{', '}'];
    } else {
      ParseDumpFields(fields, rest);
      ObjectText(DumpFields(fields) + (['}'] + rest), RawFields(fields), rest);
      DumpTexts([], fields, rest);
    }
  }

  /** The first item, with what follows it after a bracket or comma. */
  lemma {:induction false} ParseFirstItem(item: Value, after: string)
    requires Printable(item) && after != "" && (after[0] == ']' || after[0] == ',')
    ensures ParseItems(Dump(item) + after) == ParseMoreItems(RawOf(item), after) && Begins(Dump(item) + after)
    decreases item, 1
  {
    ParseDump(item, after);
    DumpBegins(item, after);
  }

  lemma {:induction false} ParseDumpItems(items: seq<Value>, rest: string)
    requires items != [] && forall i :: 0 <= i < |items| ==> Printable(items[i])
    ensures ParseItems(DumpItems(items) + ([']'] + rest)) == Some(Parsed(RawItems(items), rest))
    ensures Begins(DumpItems(items) + ([']'] + rest))
    decreases items, 0
  {
    var first := RawOf(items[0]);
    if |items| == 1 {
      ParseFirstItem(items[0], [']'] + rest);
      LastItem(first, rest);
      assert RawItems(items) == [first];
    } else {
      var next := DumpItems(items[1..]) + ([']'] + rest);
      Regroup(Dump(items[0]), [','], DumpItems(items[1..]), [']'] + rest);
      ParseFirstItem(items[0], [','] + next);
      ParseDumpItems(items[1..], rest);
      NextItem(first, next);
    }
  }

  lemma {:induction false} ParseFirstField(field: Field, after: string)
    requires Printable(field.value) && after != "" && (after[0] == '}' || after[0] == ',')
    ensures ParseFields(DumpField(field) + after) == ParseMoreFields(RawField(field.key, RawOf(field.value)), after)
    ensures Begins(DumpField(field) + after)
    decreases field, 1
  {
    var text := Dump(field.value) + after;
    Regroup(Quoted(field.key), [':'], Dump(field.value), after);
    ParseDump(field.value, after);
    DumpBegins(field.value, after);
    KeyText(field.key, text);
    FieldText(DumpField(field) + after, field.key, text, RawOf(field.value), after);
  }

  lemma {:induction false} FieldText(s: string, key: string, text: string, raw: Raw, after: string)
    requires ParseKey(s) == Some(Parsed(key, text)) && ParseValue(text) == Some(Parsed(raw, after))
    requires after != "" && !IsSpace(after[0])
    ensures ParseFields(s) == ParseMoreFields(RawField(key, raw), after)
  {
    assert ParseField(s) == Some(Parsed(RawField(key, raw), after));
  }

  lemma {:induction false} ParseDumpFields(fields: seq<Field>, rest: string)
    requires fields != [] && forall i :: 0 <= i < |fields| ==> Printable(fields[i].value)
    ensures ParseFields(DumpFields(fields) + (['}'] + rest)) == Some(Parsed(RawFields(fields), rest))
    ensures Begins(DumpFields(fields) + (['}'] + rest))
    decreases fields, 0
  {
    var first := RawField(fields[0].key, RawOf(fields[0].value));
    if |fields| == 1 {
      ParseFirstField(fields[0], ['}'] + rest);
      LastField(first, rest);
      assert RawFields(fields) == [first];
    } else {
      var next := DumpFields(fields[1..]) + (['}'] + rest);
      Regroup(DumpField(fields[0]), [','], DumpFields(fields[1..]), ['}'] + rest);
      ParseFirstField(fields[0], [','] + next);
      ParseDumpFields(fields[1..], rest);
      NextField(first, next);
    }
  }

  lemma {:induction false} RawItemsAt(items: seq<Value>, n: nat)
    requires n < |items| && forall i :: 0 <= i < |items| ==> Printable(items[i])
    ensures RawItems(items)[n] == RawOf(items[n]) && RawItems(items)[..n] == RawItems(items[..n])
  {
    if n > 0 {
      RawItemsAt(items[1..], n - 1);
      assert items[..n][1..] == items[1..][..n - 1];
      assert RawItems(items)[..n] == [RawOf(items[0])] + RawItems(items[1..])[..n - 1];
    }
  }

  lemma {:induction false} RawFieldsAt(fields: seq<Field>, n: nat)
    requires n < |fields| && forall i :: 0 <= i < |fields| ==> Printable(fields[i].value)
    ensures RawFields(fields)[n] == RawField(fields[n].key, RawOf(fields[n].value))
    ensures RawFields(fields)[..n] == RawFields(fields[..n])
  {
    if n > 0 {
      RawFieldsAt(fields[1..], n - 1);
      assert fields[..n][1..] == fields[1..][..n - 1];
      assert RawFields(fields)[..n] == [RawField(fields[0].key, RawOf(fields[0].value))] +
        RawFields(fields[1..])[..n - 1];
    }
  }

  lemma {:induction false} ValueOfRaw(v: Value)
    requires Printable(v)
    ensures ValueOf(RawOf(v)) == v
    decreases v, 0
  {
    match v
    case Integer(n) => NumeralIsNumber(n);
    case Text(s) => EscapeRoundTrip(s);
    case List(items) => ValuesOfRaw(items);
    case Object(fields) => FieldsOfRaw(fields);
    case _ =>
  }

  lemma {:induction false} ValuesOfRaw(items: seq<Value>)
    requires forall i :: 0 <= i < |items| ==> Printable(items[i])
    ensures ValuesOf(RawItems(items)) == items
    decreases items, 0
  {
    if items != [] {
      var n := |items| - 1;
      RawItemsAt(items, n);
      ValuesOfRaw(items[..n]);
      ValueOfRaw(items[n]);
    }
  }

  lemma {:induction false} FieldsOfMore(raws: seq<RawField>, n: nat)
    requires |raws| == n + 1
    ensures FieldsOf(raws) == Emplace(FieldsOf(raws[..n]), Field(raws[n].key, ValueOf(raws[n].value)))
  {
  }

  lemma EmplaceNew(fields: seq<Field>, n: nat)
    requires |fields| == n + 1 && forall i :: 0 <= i < n ==> fields[i].key != fields[n].key
    ensures Emplace(fields[..n], fields[n]) == fields
  {
    assert fields == fields[..n] + [fields[n]];
  }

  lemma {:induction false} FieldsOfRaw(fields: seq<Field>)
    requires Printable(Object(fields))
    ensures FieldsOf(RawFields(fields)) == fields
    decreases fields, 0
  {
    if fields != [] {
      var n := |fields| - 1;
      RawFieldsAt(fields, n);
      FieldsOfRaw(fields[..n]);
      ValueOfRaw(fields[n].value);
      FieldsOfMore(RawFields(fields), n);
      EmplaceNew(fields, n);
    }
  }

  /** Loading printed text gives the value back, whatever follows the end of the text. */
  lemma {:induction false} RoundTrip(v: Value, junk: string)
    requires Printable(v) && (junk == "" || junk[0] == '\0')
    ensures Parse(Dump(v) + junk) == Some(RawOf(v)) && ValueOf(RawOf(v)) == v
  {
    DumpBegins(v, junk);
    ParseDump(v, junk);
    ValueOfRaw(v);
  }
}
