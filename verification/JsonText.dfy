/** JSON values, how they are printed, and the escaping of strings. Characters are bytes. */
module JsonText {
  /** A value of the writer. A hash table is given by its entries in the order in which it lists them. A number
      that is not an integer of at most ten digits is kept as its numeral. */
  datatype Value =
    | Null
    | Bool(b: bool)
    | Integer(n: int)
    | Real(numeral: string)
    | Text(s: string)
    | List(items: seq<Value>)
    | Object(fields: seq<Field>)

  datatype Field = Field(key: string, value: Value)

  // ---------------------------------------------------------------------------------------------
  // Escaping
  // ---------------------------------------------------------------------------------------------

  function HexDigit(d: nat): char
    requires d < 16
  {
    if d < 10 then '0' + d as char else 'a' + (d - 10) as char
  }

  function EscapeOne(c: char): string {
    if c == '"' then ['\\', '"']
    else if c == '\\' then ['\\', '\\']
    else if c == '\n' then ['\\', 'n']
    else if c == '\U{8}' then ['\\', 'b']
    else if c == '\U{C}' then ['\\', 'f']
    else if c == '\r' then ['\\', 'r']
    else if c == '\t' then ['\\', 't']
    else if c < ' ' then ['\\', 'u', '0', '0', HexDigit(c as nat / 16), HexDigit(c as nat % 16)]
    else [c]
  }

  function Escape(s: string): string {
    if s == "" then "" else EscapeOne(s[0]) + Escape(s[1..])
  }

  predicate IsHex(c: char) {
    '0' <= c <= '9' || 'a' <= c <= 'f' || 'A' <= c <= 'F'
  }

  function FromHex(c: char): (d: nat)
    requires IsHex(c)
    ensures d < 16
  {
    if c >= 'a' then c as nat - 'a' as nat + 10
    else if c >= 'A' then c as nat - 'A' as nat + 10
    else c as nat - '0' as nat
  }

  /** The code point of four hexadecimal digits. */
  function Code(a: char, b: char, c: char, d: char): (code: nat)
    requires IsHex(a) && IsHex(b) && IsHex(c) && IsHex(d)
    ensures code < 0x10000
  {
    FromHex(a) * 4096 + FromHex(b) * 256 + FromHex(c) * 16 + FromHex(d)
  }

  /** The bytes written for a code point; surrogates are not combined. */
  function Utf8(code: nat): (bytes: string)
    requires code < 0x10000
    ensures 1 <= |bytes| <= 3
  {
    if code >= 0x800 then
      [(0xE0 + code / 4096) as char, (0x80 + code / 64 % 64) as char, (0x80 + code % 64) as char]
    else if code >= 0x80 then
      [(0xC0 + code / 64) as char, (0x80 + code % 64) as char]
    else
      [code as char]
  }

  predicate IsPlainEscape(c: char) {
    c == '"' || c == '\\' || c == '/' || c == 'b' || c == 'f' || c == 'n' || c == 'r' || c == 't'
  }

  predicate IsUnicodeEscape(s: string) {
    |s| >= 6 && s[1] == 'u' && IsHex(s[2]) && IsHex(s[3]) && IsHex(s[4]) && IsHex(s[5])
  }

  function PlainEscape(c: char): char {
    if c == 'b' then '\U{8}'
    else if c == 'f' then '\U{C}'
    else if c == 'n' then '\n'
    else if c == 'r' then '\r'
    else if c == 't' then '\t'
    else c
  }

  /** The length of the first character or escape sequence; 0 when there is no proper one. */
  function UnitLength(s: string): (n: nat)
    ensures n <= |s|
  {
    if s == "" then 0
    else if s[0] != '\\' then 1
    else if |s| >= 2 && IsPlainEscape(s[1]) then 2
    else if IsUnicodeEscape(s) then 6
    else 0
  }

  function UnescapeUnit(s: string): (bytes: string)
    requires UnitLength(s) > 0
    ensures 1 <= |bytes| && (|bytes| == 1 || (|bytes| <= 3 && UnitLength(s) == 6))
  {
    if s[0] != '\\' then [s[0]]
    else if IsPlainEscape(s[1]) then [PlainEscape(s[1])]
    else Utf8(Code(s[2], s[3], s[4], s[5]))
  }

  /** Every backslash starts an escape sequence. */
  predicate WellEscaped(s: string) {
    s == "" || (UnitLength(s) > 0 && WellEscaped(s[UnitLength(s)..]))
  }

  function Unescape(s: string): string
    requires WellEscaped(s)
  {
    if s == "" then "" else UnescapeUnit(s) + Unescape(s[UnitLength(s)..])
  }

  lemma UnitRoundTrip(c: char, rest: string)
    ensures UnitLength(EscapeOne(c) + rest) == |EscapeOne(c)| && UnescapeUnit(EscapeOne(c) + rest) == [c]
    ensures (EscapeOne(c) + rest)[|EscapeOne(c)|..] == rest
  {
    if c < ' ' && !(c == '\n' || c == '\U{8}' || c == '\U{C}' || c == '\r' || c == '\t') {
      var n := c as nat;
      var u := EscapeOne(c) + rest;
      assert FromHex(HexDigit(n / 16)) == n / 16 && FromHex(HexDigit(n % 16)) == n % 16;
      assert u[2] == '0' && u[3] == '0' && u[4] == HexDigit(n / 16) && u[5] == HexDigit(n % 16);
      assert Code(u[2], u[3], u[4], u[5]) == n;
    }
  }

  /** Unescaping undoes escaping, for every byte string. */
  lemma {:induction false} EscapeRoundTrip(s: string)
    ensures WellEscaped(Escape(s)) && Unescape(Escape(s)) == s
  {
    if s != "" {
      UnitRoundTrip(s[0], Escape(s[1..]));
      EscapeRoundTrip(s[1..]);
    }
  }

  // ---------------------------------------------------------------------------------------------
  // Printing
  // ---------------------------------------------------------------------------------------------

  function DigitString(n: nat): (s: string)
    ensures s != ""
  {
    if n < 10 then ['0' + n as char] else DigitString(n / 10) + ['0' + (n % 10) as char]
  }

  function Decimal(n: int): string {
    if n < 0 then ['-'] + DigitString(-n) else DigitString(n)
  }

  /** Integers of at most ten digits are printed exactly. */
  predicate IsShort(n: int) {
    -10000000000 < n < 10000000000
  }

  /** Values built from null, booleans, strings, short integers, lists, and objects with distinct keys. */
  predicate Printable(v: Value) {
    match v
    case Integer(n) => IsShort(n)
    case Real(_) => false
    case List(items) => forall i :: 0 <= i < |items| ==> Printable(items[i])
    case Object(fields) =>
      && (forall i :: 0 <= i < |fields| ==> Printable(fields[i].value))
      && (forall i, j :: 0 <= i < j < |fields| ==> fields[i].key != fields[j].key)
    case _ => true
  }

  function Quoted(s: string): string {
    ['"'] + Escape(s) + ['"']
  }

  function Dump(v: Value): string
    requires Printable(v)
    decreases v
  {
    match v
    case Null => ['n', 'u', 'l', 'l']
    case Bool(b) => if b then ['t', 'r', 'u', 'e'] else ['f', 'a', 'l', 's', 'e']
    case Integer(n) => Decimal(n)
    case Text(s) => Quoted(s)
    case List(items) => ['['] + DumpItems(items) + [']']
    case Object(fields) => ['{'] + DumpFields(fields) + ['}']
  }

  /** Printed with commas in between. */
  function DumpItems(items: seq<Value>): string
    requires forall i :: 0 <= i < |items| ==> Printable(items[i])
    decreases items
  {
    if items == [] then ""
    else if |items| == 1 then Dump(items[0])
    else Dump(items[0]) + [','] + DumpItems(items[1..])
  }

  function DumpField(field: Field): string
    requires Printable(field.value)
    decreases field
  {
    Quoted(field.key) + [':'] + Dump(field.value)
  }

  function DumpFields(fields: seq<Field>): string
    requires forall i :: 0 <= i < |fields| ==> Printable(fields[i].value)
    decreases fields
  {
    if fields == [] then ""
    else if |fields| == 1 then DumpField(fields[0])
    else DumpField(fields[0]) + [','] + DumpFields(fields[1..])
  }
}
