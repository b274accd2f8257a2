/** The body states of the HTTP parser: identity and chunked bodies (section 4.1 of RFC 7230), fed in pieces. */
module HttpBody {
  import opened Wrappers
  import opened Numerals

  /** The largest value of a 64-bit length; it stands for no length at all. */
  const NO_LENGTH: nat := 0xFFFF_FFFF_FFFF_FFFF
  const WIDTH: nat := 0x1_0000_0000_0000_0000
  const MAX_HEADER_SIZE: nat := 81920

  /** What the header fields of a message have set. */
  datatype Message = Message(
    isRequest: bool, major: nat, minor: nat, statusCode: nat,
    chunked: bool, connectionKeepAlive: bool, connectionClose: bool, skipBody: bool)

  datatype Phase =
    | ChunkSizeStart | ChunkSize | ChunkParameters | ChunkSizeAlmostDone
    | ChunkData | ChunkDataAlmostDone | ChunkDataDone
    | BodyIdentity | BodyIdentityEof | MessageDone
    | Trailer | NewMessage | Dead

  datatype Errno = Ok | InvalidEofState | HeaderOverflow | InvalidContentLength | InvalidChunkSize | Strict

  datatype Fields = Fields(state: Phase, nread: nat, contentLength: nat, trailing: bool, errno: Errno)

  /** What the callbacks are told: bytes of the body, and the end of the message. */
  datatype Out = Byte(c: char) | Complete

  function NeedsEof(m: Message, contentLength: nat): bool {
    !m.isRequest
    && !(m.statusCode / 100 == 1 || m.statusCode == 204 || m.statusCode == 304 || m.skipBody)
    && !(m.chunked || contentLength != NO_LENGTH)
  }

  function ShouldKeepAlive(m: Message, contentLength: nat): bool {
    if m.major > 0 && m.minor > 0 then !m.connectionClose && !NeedsEof(m, contentLength)
    else m.connectionKeepAlive && !NeedsEof(m, contentLength)
  }

  /** The state for the next message. */
  function NextMessage(m: Message, f: Fields): Phase {
    if ShouldKeepAlive(m, f.contentLength) then NewMessage else Dead
  }

  /** The table has 256 entries and is initialised with 128: the upper half is 0, like the digit '0'. */
  function Unhex(c: char): int {
    if '0' <= c <= '9' then c as int - '0' as int
    else if 'a' <= c <= 'f' then c as int - 'a' as int + 10
    else if 'A' <= c <= 'F' then c as int - 'A' as int + 10
    else if c >= '\U{80}' then 0
    else -1
  }

  /** The states in which bytes count towards the header limit. */
  predicate ParsingHeader(state: Phase) {
    state.ChunkSizeStart? || state.ChunkSize? || state.ChunkParameters? || state.ChunkSizeAlmostDone?
  }

  predicate InBody(f: Fields) {
    f.errno.Ok? && !f.state.Trailer? && !f.state.NewMessage? && !f.state.Dead?
  }

  // ---------------------------------------------------------------------------------------------
  // One byte at a time
  // ---------------------------------------------------------------------------------------------

  /** A byte either moves the machine on, with some output, or is an error and stays unread. */
  datatype Reaction = Moved(f: Fields, outs: seq<Out>) | Failed(errno: Errno)

  function SizeDigit(f: Fields, c: char): Reaction {
    if c == '\r' then Moved(f.(state := ChunkSizeAlmostDone), [])
    else if Unhex(c) == -1 then
      if c == ';' || c == ' ' then Moved(f.(state := ChunkParameters), []) else Failed(InvalidChunkSize)
    else if (NO_LENGTH - 16) / 16 < f.contentLength then Failed(InvalidContentLength)
    else Moved(f.(contentLength := (f.contentLength * 16 + Unhex(c)) % WIDTH), [])
  }

  function React(m: Message, f: Fields, c: char): Reaction {
    match f.state
    case ChunkSizeStart =>
      if Unhex(c) == -1 then Failed(InvalidChunkSize)
      else Moved(f.(contentLength := Unhex(c), state := ChunkSize), [])
    case ChunkSize => SizeDigit(f, c)
    case ChunkParameters => Moved(if c == '\r' then f.(state := ChunkSizeAlmostDone) else f, [])
    case ChunkSizeAlmostDone =>
      if c != '\n' then Failed(Strict)
      else if f.contentLength == 0 then Moved(f.(nread := 0, trailing := true, state := Trailer), [])
      else Moved(f.(nread := 0, state := ChunkData), [])
    case ChunkData =>
      if f.contentLength <= 1 then Moved(f.(contentLength := 0, state := ChunkDataAlmostDone), [Byte(c)])
      else Moved(f.(contentLength := f.contentLength - 1), [Byte(c)])
    case ChunkDataAlmostDone => if c != '\r' then Failed(Strict) else Moved(f.(state := ChunkDataDone), [])
    case ChunkDataDone => if c != '\n' then Failed(Strict) else Moved(f.(nread := 0, state := ChunkSizeStart), [])
    case BodyIdentity =>
      if f.contentLength <= 1 then
        var g := f.(contentLength := 0);
        Moved(g.(state := NextMessage(m, g)), [Byte(c), Complete])
      else Moved(f.(contentLength := f.contentLength - 1), [Byte(c)])
    case BodyIdentityEof => Moved(f, [Byte(c)])
    case MessageDone => Moved(f.(state := NextMessage(m, f)), [Complete])
    case _ => Moved(f, [])
  }

  function OneByte(m: Message, f: Fields, c: char): Reaction {
    var g := if ParsingHeader(f.state) then f.(nread := f.nread + 1) else f;
    if ParsingHeader(f.state) && g.nread > MAX_HEADER_SIZE then Failed(HeaderOverflow) else React(m, g, c)
  }

  /** The fields and the output after a piece of input, and what of it has not been read. */
  datatype Result = Result(f: Fields, outs: seq<Out>, unread: string)

  function Machine(m: Message, f: Fields, input: string): Result
    decreases |input|
  {
    if input == "" || !InBody(f) then Result(f, [], input)
    else
      match OneByte(m, f, input[0])
      case Failed(errno) => Result(FailedFields(f, errno), [], input)
      case Moved(g, outs) => After(outs, Machine(m, g, input[1..]))
  }

  /** An error leaves the counter of header bytes raised. */
  function FailedFields(f: Fields, errno: Errno): Fields {
    f.(errno := errno, nread := f.nread + if ParsingHeader(f.state) then 1 else 0)
  }

  function After(outs: seq<Out>, r: Result): Result {
    r.(outs := outs + r.outs)
  }

  // ---------------------------------------------------------------------------------------------
  // Splitting the input
  // ---------------------------------------------------------------------------------------------

  /** Feeding more input after a piece: nothing happens any more once the body is over. */
  function Continue(m: Message, r: Result, more: string): Result {
    if r.unread == "" then After(r.outs, Machine(m, r.f, more)) else r.(unread := r.unread + more)
  }

  lemma AfterAfter(a: seq<Out>, b: seq<Out>, r: Result)
    ensures After(a, After(b, r)) == After(a + b, r)
  {
    assert a + (b + r.outs) == (a + b) + r.outs;
  }

  lemma {:induction false} MachineStops(m: Message, f: Fields, input: string)
    ensures var r := Machine(m, f, input); r.unread != "" ==> !InBody(r.f)
    decreases |input|
  {
    if input != "" && InBody(f) {
      match OneByte(m, f, input[0])
      case Moved(g, outs) => MachineStops(m, g, input[1..]);
      case Failed(errno) =>
    }
  }

  /** Splitting the input anywhere gives the same fields, the same output and the same unread rest. */
  lemma {:induction false} SplitInvariance(m: Message, f: Fields, a: string, b: string)
    ensures Machine(m, f, a + b) == Continue(m, Machine(m, f, a), b)
    decreases |a|
  {
    if a == "" {
      assert a + b == b;
      assert [] + Machine(m, f, b).outs == Machine(m, f, b).outs;
    } else if InBody(f) {
      assert (a + b)[0] == a[0] && (a + b)[1..] == a[1..] + b;
      match OneByte(m, f, a[0])
      case Failed(errno) =>
      case Moved(g, outs) =>
        SplitInvariance(m, g, a[1..], b);
        var r := Machine(m, g, a[1..]);
        if r.unread == "" {
          AfterAfter(outs, r.outs, Machine(m, r.f, b));
        }
    }
  }

  // ---------------------------------------------------------------------------------------------
  // What every byte keeps
  // ---------------------------------------------------------------------------------------------

  /** The facts that the machine asserts about its own fields. */
  predicate Wf(m: Message, f: Fields) {
    && (ParsingHeader(f.state) || f.state.ChunkData? || f.state.ChunkDataAlmostDone? || f.state.ChunkDataDone? ==>
      m.chunked)
    && (f.state.ChunkSizeStart? ==> f.nread == 0)
    && (f.state.ChunkSize? || f.state.ChunkParameters? || f.state.ChunkSizeAlmostDone? ==> f.contentLength < NO_LENGTH)
    && (f.state.ChunkData? || f.state.BodyIdentity? ==> 0 < f.contentLength < NO_LENGTH)
    && (f.state.ChunkDataAlmostDone? || f.state.MessageDone? ==> f.contentLength == 0)
  }

  lemma ByteKeepsWf(m: Message, f: Fields, c: char)
    requires Wf(m, f) && InBody(f)
    ensures var r := OneByte(m, f, c); r.Moved? ==> Wf(m, r.f) && r.f.errno.Ok?
    ensures var r := OneByte(m, f, c); r.Failed? ==> !r.errno.Ok?
  {
  }

  lemma {:induction false} MachineKeepsWf(m: Message, f: Fields, input: string)
    requires Wf(m, f)
    ensures var r := Machine(m, f, input); r.f.errno.Ok? ==> Wf(m, r.f)
    decreases |input|
  {
    if input != "" && InBody(f) {
      ByteKeepsWf(m, f, input[0]);
      match OneByte(m, f, input[0])
      case Moved(g, outs) => MachineKeepsWf(m, g, input[1..]);
      case Failed(errno) =>
    }
  }

  // ---------------------------------------------------------------------------------------------
  // Lengths are exact
  // ---------------------------------------------------------------------------------------------

  predicate AllHex(s: string) {
    forall i :: 0 <= i < |s| ==> Unhex(s[i]) != -1
  }

  /** The number that hexadecimal digits stand for, after `n` has been read. */
  function HexValue(n: nat, s: string): nat
    requires AllHex(s)
    decreases |s|
  {
    if s == "" then n else HexValue(n * 16 + Unhex(s[0]), s[1..])
  }

  lemma {:induction false} HexValueGrows(n: nat, s: string)
    requires AllHex(s)
    ensures HexValue(n, s) >= n
    decreases |s|
  {
    if s != "" {
      HexValueGrows(n * 16 + Unhex(s[0]), s[1..]);
    }
  }

  /** The last digit is still accepted when the number without it is at most this. */
  const HEX_LIMIT: nat := 0xFFF_FFFF_FFFF_FFFE

  /** Digits of a chunk size are accepted exactly when the number fits and the size line is not too long; then
      the length is the number itself, and never the value that stands for no length. */
  lemma {:induction false} ChunkSizeIsExact(m: Message, f: Fields, s: string)
    requires f.state.ChunkSize? && f.errno.Ok? && AllHex(s) && f.contentLength < NO_LENGTH &&
      f.nread + |s| <= 80 * 1024
    ensures var r := Machine(m, f, s); var n := HexValue(f.contentLength, s);
      if s == "" || n / 16 <= HEX_LIMIT
      then r == Result(f.(contentLength := n, nread := f.nread + |s|), [], "") && n < NO_LENGTH
      else r.f.errno.InvalidContentLength?
    decreases |s|
  {
    if s != "" {
      var n := f.contentLength * 16 + Unhex(s[0]);
      HexValueGrows(n, s[1..]);
      SizeDigitIsExact(m, f, s[0]);
      if f.contentLength <= HEX_LIMIT {
        ChunkSizeIsExact(m, f.(contentLength := n, nread := f.nread + 1), s[1..]);
        assert |s| == 1 ==> n / 16 == f.contentLength;
      } else {
        assert HexValue(f.contentLength, s) / 16 >= n / 16 == f.contentLength;
      }
    }
  }

  lemma SizeDigitIsExact(m: Message, f: Fields, c: char)
    requires f.state.ChunkSize? && f.errno.Ok? && Unhex(c) != -1 && f.nread < MAX_HEADER_SIZE
    ensures f.contentLength <= HEX_LIMIT ==> f.contentLength * 16 + Unhex(c) < NO_LENGTH
    ensures OneByte(m, f, c) ==
      if f.contentLength <= HEX_LIMIT then Moved(f.(contentLength := f.contentLength * 16 + Unhex(c),
        nread := f.nread + 1), [])
      else Failed(InvalidContentLength)
  {
    assert c != '\r';
  }

  /** One byte of a `Content-Length` value after the first digit. */
  function LengthByte(n: nat, c: char): Option<nat> {
    if c == ' ' then Some(n)
    else if !('0' <= c <= '9') then None
    else if (NO_LENGTH - 10) / 10 < n then None
    else Some((n * 10 + (c as nat - '0' as nat)) % WIDTH)
  }

  function LengthBytes(n: nat, s: string): Option<nat>
    decreases |s|
  {
    if s == "" then Some(n)
    else
      match LengthByte(n, s[0])
      case None => None
      case Some(k) => LengthBytes(k, s[1..])
  }

  /** The value of a `Content-Length` header. */
  function ReadLength(s: string): Option<nat> {
    if s == "" || !('0' <= s[0] <= '9') then None else LengthBytes(s[0] as nat - '0' as nat, s[1..])
  }

  predicate DigitsAndSpaces(s: string) {
    forall i :: 0 <= i < |s| ==> '0' <= s[i] <= '9' || s[i] == ' '
  }

  function DecimalValue(n: nat, s: string): nat
    requires DigitsAndSpaces(s)
    decreases |s|
  {
    if s == "" then n
    else if s[0] == ' ' then DecimalValue(n, s[1..])
    else DecimalValue(n * 10 + (s[0] as nat - '0' as nat), s[1..])
  }

  /** The same for decimal digits. */
  const DECIMAL_LIMIT: nat := 1844674407370955160

  lemma {:induction false} DecimalValueGrows(n: nat, s: string)
    requires DigitsAndSpaces(s)
    ensures DecimalValue(n, s) >= n
    decreases |s|
  {
    if s != "" {
      DecimalValueGrows(if s[0] == ' ' then n else n * 10 + (s[0] as nat - '0' as nat), s[1..]);
    }
  }

  lemma SpaceIsPassed(n: nat, s: string)
    requires s != "" && s[0] == ' '
    ensures LengthBytes(n, s) == LengthBytes(n, s[1..]) && (DigitsAndSpaces(s) <==> DigitsAndSpaces(s[1..]))
    ensures DigitsAndSpaces(s) ==> DecimalValue(n, s) == DecimalValue(n, s[1..])
  {
    assert s == [s[0]] + s[1..];
  }

  lemma DigitIsAdded(n: nat, s: string, k: nat)
    requires s != "" && '0' <= s[0] <= '9' && k == n * 10 + (s[0] as nat - '0' as nat)
    ensures n <= DECIMAL_LIMIT ==> k < NO_LENGTH && k / 10 == n && LengthBytes(n, s) == LengthBytes(k, s[1..])
    ensures n > DECIMAL_LIMIT ==> LengthBytes(n, s) == None
    ensures DigitsAndSpaces(s) <==> DigitsAndSpaces(s[1..])
    ensures DigitsAndSpaces(s) ==> DecimalValue(n, s) == DecimalValue(k, s[1..]) >= k
  {
    assert s == [s[0]] + s[1..];
    if DigitsAndSpaces(s) {
      DecimalValueGrows(k, s[1..]);
    }
  }

  lemma {:induction false} LengthBytesAreExact(n: nat, s: string)
    requires n / 10 <= DECIMAL_LIMIT
    ensures LengthBytes(n, s).Some? <==> DigitsAndSpaces(s) && DecimalValue(n, s) / 10 <= DECIMAL_LIMIT
    ensures LengthBytes(n, s).Some? ==> LengthBytes(n, s).value == DecimalValue(n, s) < NO_LENGTH
    decreases |s|
  {
    if s != "" {
      var c := s[0];
      if c == ' ' {
        SpaceIsPassed(n, s);
        LengthBytesAreExact(n, s[1..]);
      } else if '0' <= c <= '9' {
        var k := n * 10 + (c as nat - '0' as nat);
        DigitIsAdded(n, s, k);
        if n <= DECIMAL_LIMIT {
          LengthBytesAreExact(k, s[1..]);
        }
      }
    }
  }

  /** A `Content-Length` is accepted exactly when it is a number, perhaps with spaces after its first digit, whose
      part before the last digit is within the limit; then the length is that number and not the value for none. */
  lemma {:induction false} LengthIsExact(s: string)
    ensures ReadLength(s).Some? <==>
      s != "" && s[0] != ' ' && DigitsAndSpaces(s) && DecimalValue(0, s) / 10 <= DECIMAL_LIMIT
    ensures ReadLength(s).Some? ==> ReadLength(s).value == DecimalValue(0, s) < NO_LENGTH
  {
    if s != "" && '0' <= s[0] <= '9' {
      LengthBytesAreExact(s[0] as nat - '0' as nat, s[1..]);
      assert DigitsAndSpaces(s) <==> DigitsAndSpaces(s[1..]);
    } else if s != "" {
      assert DigitsAndSpaces(s) ==> s[0] == ' ';
    }
  }

  // ---------------------------------------------------------------------------------------------
  // Printed numbers
  // ---------------------------------------------------------------------------------------------

  predicate IsHexadecimal(c: char) {
    c in LOWER || c in UPPER
  }

  /** The hexadecimal digits are the characters of the two lists, by their positions; besides them only the bytes from
      0x80 on are taken as digits, and count as 0. */
  lemma UnhexIsPosition(c: char)
    ensures forall d :: 0 <= d < 16 ==> (LOWER[d] == c || UPPER[d] == c) ==> Unhex(c) == d
    ensures !IsHexadecimal(c) ==> Unhex(c) == if c as int >= 0x80 then 0 else -1
    ensures c as int >= 0x80 ==> !IsHexadecimal(c)
  {
    forall d | 0 <= d < 16
      ensures (LOWER[d] == c || UPPER[d] == c) ==> Unhex(c) == d
    {
      HexDigitAt(d);
    }
    var d := Unhex(c);
    if d >= 0 && c as int < 0x80 {
      HexDigitAt(d);
      assert c == LOWER[d] || c == UPPER[d];
    }
  }

  /** What is accepted as the digits of a size is hexadecimal exactly when it holds no byte from 0x80 on; digits of
      bytes below 0x80 are accepted exactly when they are hexadecimal. */
  lemma SizeIsHexadecimalExactly(s: string)
    ensures AllHex(s) ==> ((forall c :: c in s ==> IsHexadecimal(c)) <==> forall c :: c in s ==> c as int < 0x80)
    ensures (forall c :: c in s ==> c as int < 0x80) ==> (AllHex(s) <==> forall c :: c in s ==> IsHexadecimal(c))
  {
    forall c
      ensures c as int >= 0x80 ==> !IsHexadecimal(c)
      ensures c as int < 0x80 ==> (Unhex(c) != -1 <==> IsHexadecimal(c))
    {
      UnhexIsPosition(c);
      if IsHexadecimal(c) {
        var d :| 0 <= d < 16 && (LOWER[d] == c || UPPER[d] == c);
      }
    }
    assert AllHex(s) ==> forall c :: c in s ==> Unhex(c) != -1;
  }

  /** For example, the line of the single byte 0x80 announces the last chunk. */
  lemma HighByteEndsBody(m: Message, f: Fields)
    requires f.errno.Ok? && f.state.ChunkSizeStart? && f.nread == 0
    ensures var r := Machine(m, f, ['\U{80}', '\r', '\n']);
      r.f.state.Trailer? && r.f.errno.Ok? && r.outs == [] && r.unread == ""
  {
    var s := ['\U{80}', '\r', '\n'];
    var g := f.(state := ChunkSize, contentLength := 0, nread := 1);
    assert OneByte(m, f, s[0]) == Moved(g, []);
    assert s[1..] == ['\r', '\n'];
    LineEnd(m, g);
  }

  lemma {:induction false} HexValueOfMore(n: nat, s: string, c: char)
    requires AllHex(s) && Unhex(c) >= 0
    ensures AllHex(s + [c]) && HexValue(n, s + [c]) == HexValue(n, s) * 16 + Unhex(c)
    decreases |s|
  {
    if s == "" {
      assert [c][1..] == "" && s + [c] == [c];
    } else {
      assert (s + [c])[1..] == s[1..] + [c];
      HexValueOfMore(n * 16 + Unhex(s[0]), s[1..], c);
    }
  }

  lemma {:induction false} HexValueOfZeros(k: nat)
    ensures AllHex(Zeros(k)) && HexValue(0, Zeros(k)) == 0
  {
    if k > 0 {
      HexValueOfZeros(k - 1);
      HexValueOfMore(0, Zeros(k - 1), '0');
      assert Zeros(k) == Zeros(k - 1) + ['0'];
    }
  }

  lemma PrintedParts(k: nat, n: nat, upper: bool, text: string) returns (more: string, c: char)
    requires text == Zeros(k) + Hexadecimal(n, upper)
    ensures c == HexDigit(n % 16, upper) && text == more + [c]
    ensures more == if n < 16 then Zeros(k) else Zeros(k) + Hexadecimal(n / 16, upper)
  {
    c := HexDigit(n % 16, upper);
    more := if n < 16 then Zeros(k) else Zeros(k) + Hexadecimal(n / 16, upper);
    if n >= 16 {
      AssociateText(Zeros(k), Hexadecimal(n / 16, upper), [c]);
    }
  }

  lemma DigitIsRead(d: nat, upper: bool)
    requires d < 16
    ensures Unhex(HexDigit(d, upper)) == d
  {
    HexDigitAt(d);
  }

  /** Reading a printed number, in either case and after any zeros, gives the number. */
  lemma {:induction false} PrintedHexIsRead(k: nat, n: nat, upper: bool)
    ensures AllHex(Zeros(k) + Hexadecimal(n, upper)) && HexValue(0, Zeros(k) + Hexadecimal(n, upper)) == n
    decreases n
  {
    var more, c := PrintedParts(k, n, upper, Zeros(k) + Hexadecimal(n, upper));
    DigitIsRead(n % 16, upper);
    if n < 16 {
      HexValueOfZeros(k);
    } else {
      PrintedHexIsRead(k, n / 16, upper);
    }
    HexValueOfMore(0, more, c);
  }

  lemma {:induction false} DecimalValueOfMore(n: nat, s: string, c: char)
    requires DigitsAndSpaces(s) && '0' <= c <= '9'
    ensures DigitsAndSpaces(s + [c]) && DecimalValue(n, s + [c]) == DecimalValue(n, s) * 10 + (c as int - '0' as int)
    decreases |s|
  {
    if s == "" {
      assert [c][1..] == "" && s + [c] == [c];
    } else {
      assert (s + [c])[1..] == s[1..] + [c];
      DecimalValueOfMore(if s[0] == ' ' then n else n * 10 + (s[0] as nat - '0' as nat), s[1..], c);
    }
  }

  lemma {:induction false} DecimalValueOfPrinted(n: nat)
    ensures var s := Decimal(n); DigitsAndSpaces(s) && s[0] != ' ' && DecimalValue(0, s) == n
  {
    var c := DIGITS[n % 10];
    DigitAt(n % 10);
    if n < 10 {
      DecimalValueOfMore(0, "", c);
      assert "" + [c] == [c];
    } else {
      DecimalValueOfPrinted(n / 10);
      DecimalValueOfMore(0, Decimal(n / 10), c);
    }
  }

  /** A printed `Content-Length` is read as the number exactly when the number is within the limit. */
  lemma PrintedLengthIsRead(n: nat)
    ensures ReadLength(Decimal(n)) == if n / 10 <= (0xFFFF_FFFF_FFFF_FFFF - 10) / 10 then Some(n) else None
  {
    DecimalValueOfPrinted(n);
    LengthIsExact(Decimal(n));
  }

  // ---------------------------------------------------------------------------------------------
  // Whole bodies
  // ---------------------------------------------------------------------------------------------

  function Bytes(s: string): seq<Out> {
    seq(|s|, i requires 0 <= i < |s| => Byte(s[i]))
  }

  lemma BytesTogether(s: string, t: string)
    ensures Bytes(s) + Bytes(t) == Bytes(s + t)
  {
  }

  /** A run of body bytes that does not finish the chunk or the body. */
  lemma {:induction false} DataRun(m: Message, f: Fields, s: string)
    requires f.errno.Ok? && (f.state.ChunkData? || f.state.BodyIdentity?) && |s| < f.contentLength
    ensures Machine(m, f, s) == Result(f.(contentLength := f.contentLength - |s|), Bytes(s), "")
    decreases |s|
  {
    if s != "" {
      DataRun(m, f.(contentLength := f.contentLength - 1), s[1..]);
      assert Bytes(s) == [Byte(s[0])] + Bytes(s[1..]);
    }
  }

  lemma {:induction false} DataRunEnds(m: Message, f: Fields, s: string)
    requires f.errno.Ok? && (f.state.ChunkData? || f.state.BodyIdentity?) && |s| == f.contentLength > 0
    ensures f.state.ChunkData? ==>
      Machine(m, f, s) == Result(f.(contentLength := 0, state := ChunkDataAlmostDone), Bytes(s), "")
    ensures f.state.BodyIdentity? ==> var g := f.(contentLength := 0);
      Machine(m, f, s) == Result(g.(state := NextMessage(m, g)), Bytes(s) + [Complete], "")
  {
    var n := |s| - 1;
    DataRun(m, f, s[..n]);
    var g := f.(contentLength := 1);
    SplitInvariance(m, f, s[..n], s[n..]);
    assert s == s[..n] + s[n..] && s[n..] == [s[n]];
    LastByte(m, g, s[n]);
    BytesTogether(s[..n], s[n..]);
    assert Bytes(s[n..]) == [Byte(s[n])];
    assert Bytes(s[..n]) + [Byte(s[n]), Complete] == Bytes(s) + [Complete];
  }

  lemma {:induction false} LastByte(m: Message, f: Fields, c: char)
    requires f.errno.Ok? && (f.state.ChunkData? || f.state.BodyIdentity?) && f.contentLength == 1
    ensures f.state.ChunkData? ==>
      Machine(m, f, [c]) == Result(f.(contentLength := 0, state := ChunkDataAlmostDone), [Byte(c)], "")
    ensures f.state.BodyIdentity? ==> var g := f.(contentLength := 0);
      Machine(m, f, [c]) == Result(g.(state := NextMessage(m, g)), [Byte(c), Complete], "")
  {
    assert [c][1..] == "";
  }

  /** A body with a known length is handed on byte for byte, and what follows it is left alone. The connection goes on
      with version 1.1 unless it is closed, and with version 1.0 when it is kept alive. */
  lemma {:induction false} IdentityBody(m: Message, f: Fields, body: string, rest: string)
    requires f.errno.Ok? && f.state.BodyIdentity? && |body| == f.contentLength > 0
    ensures var r := Machine(m, f, body + rest);
      && r.outs == Bytes(body) + [Complete] && r.unread == rest
      && (r.f.state.NewMessage? || r.f.state.Dead?) && r.f.errno.Ok?
      && (m.major == 1 && m.minor == 1 ==> (r.f.state.NewMessage? <==> !m.connectionClose))
      && (m.major == 1 && m.minor == 0 ==> (r.f.state.NewMessage? <==> m.connectionKeepAlive))
  {
    DataRunEnds(m, f, body);
    SplitInvariance(m, f, body, rest);
    var r := Machine(m, f, body);
    if r.unread == "" {
      assert Machine(m, r.f, rest) == Result(r.f, [], rest);
    }
  }

  /** A chunk as it may be sent: its size in any hexadecimal spelling, parameters up to the end of the line. */
  datatype Chunk = Chunk(size: string, params: string, data: string)

  predicate IsSizeLine(c: Chunk) {
    && c.size != "" && AllHex(c.size) && HexValue(0, c.size) == |c.data| && |c.data| / 16 <= HEX_LIMIT
    && (c.params == "" || c.params[0] == ';' || c.params[0] == ' ') && '\r' !in c.params
    && |c.size| + |c.params| + 2 <= 80 * 1024
  }

  function SizeLine(c: Chunk): string {
    c.size + c.params + ['\r', '\n']
  }

  function ChunkText(c: Chunk): string {
    SizeLine(c) + c.data + ['\r', '\n']
  }

  lemma {:induction false} SizeText(m: Message, f: Fields, s: string, n: nat)
    requires f.errno.Ok? && f.state.ChunkSizeStart? && f.nread == 0 && s != "" && AllHex(s) && n == HexValue(0, s)
    requires n / 16 <= HEX_LIMIT && |s| <= MAX_HEADER_SIZE
    ensures Machine(m, f, s) == Result(f.(state := ChunkSize, contentLength := n, nread := |s|), [], "")
  {
    var g := f.(state := ChunkSize, contentLength := Unhex(s[0]), nread := 1);
    assert OneByte(m, f, s[0]) == Moved(g, []);
    ChunkSizeIsExact(m, g, s[1..]);
  }

  lemma {:induction false} ParamsText(m: Message, f: Fields, s: string)
    requires f.errno.Ok? && '\r' !in s && f.nread + |s| <= MAX_HEADER_SIZE
    requires f.state.ChunkParameters? || (f.state.ChunkSize? && (s == "" || s[0] == ';' || s[0] == ' '))
    ensures Machine(m, f, s)
         == Result(f.(state := if s == "" then f.state else ChunkParameters, nread := f.nread + |s|), [], "")
    decreases |s|
  {
    if s != "" {
      var g := f.(state := ChunkParameters, nread := f.nread + 1);
      assert OneByte(m, f, s[0]) == Moved(g, []);
      ParamsText(m, g, s[1..]);
    }
  }

  /** A size line of more than 80 kB is an error, at whichever byte of its parameters that is. */
  lemma {:induction false} LineTooLong(m: Message, f: Fields, s: string)
    requires f.errno.Ok? && f.state.ChunkParameters? && '\r' !in s && f.nread <= 80 * 1024 < f.nread + |s|
    ensures Machine(m, f, s).f.errno.HeaderOverflow?
    decreases |s|
  {
    if f.nread < 80 * 1024 {
      var g := f.(nread := f.nread + 1);
      assert OneByte(m, f, s[0]) == Moved(g, []);
      LineTooLong(m, g, s[1..]);
    }
  }

  lemma {:induction false} LineEnd(m: Message, f: Fields)
    requires f.errno.Ok? && (f.state.ChunkSize? || f.state.ChunkParameters?) && f.nread + 2 <= MAX_HEADER_SIZE
    ensures Machine(m, f, ['\r', '\n']) == Result(
      if f.contentLength == 0 then f.(nread := 0, trailing := true, state := Trailer)
        else f.(nread := 0, state := ChunkData), [], "")
  {
    var g := f.(state := ChunkSizeAlmostDone, nread := f.nread + 1);
    assert ['\r', '\n'][1..] == ['\n'] && ['\n'][1..] == "";
    assert OneByte(m, f, '\r') == Moved(g, []);
    assert Machine(m, g, ['\n']).outs == [];
  }

  /** One piece after the other, as long as nothing is left unread. */
  lemma {:induction false} Piece(m: Message, f: Fields, a: string, g: Fields, outs: seq<Out>, b: string)
    requires Machine(m, f, a) == Result(g, outs, "")
    ensures Machine(m, f, a + b) == After(outs, Machine(m, g, b))
  {
    SplitInvariance(m, f, a, b);
  }

  lemma {:induction false} SizeLineText(m: Message, f: Fields, c: Chunk, rest: string)
    requires f.errno.Ok? && f.state.ChunkSizeStart? && f.nread == 0 && IsSizeLine(c)
    ensures var g := f.(nread := 0, contentLength := |c.data|);
      Machine(m, f, SizeLine(c) + rest)
      == Machine(m, if c.data == "" then g.(trailing := true, state := Trailer) else g.(state := ChunkData), rest)
  {
    var n := |c.data|;
    var g1 := f.(state := ChunkSize, contentLength := n, nread := |c.size|);
    var g2 := g1.(state := if c.params == "" then ChunkSize else ChunkParameters, nread := |c.size| + |c.params|);
    var g3 := Machine(m, g2, ['\r', '\n']).f;
    SizeText(m, f, c.size, n);
    ParamsText(m, g1, c.params);
    LineEnd(m, g2);
    assert SizeLine(c) + rest == c.size + (c.params + (['\r', '\n'] + rest));
    Piece(m, f, c.size, g1, [], c.params + (['\r', '\n'] + rest));
    Piece(m, g1, c.params, g2, [], ['\r', '\n'] + rest);
    Piece(m, g2, ['\r', '\n'], g3, [], rest);
    NoOuts(Machine(m, g3, rest));
  }

  lemma NoOuts(r: Result)
    ensures After([], r) == r
  {
    assert [] + r.outs == r.outs;
  }

  lemma {:induction false} ChunkEnd(m: Message, f: Fields)
    requires f.errno.Ok? && f.state.ChunkDataAlmostDone?
    ensures Machine(m, f, ['\r', '\n']) == Result(f.(nread := 0, state := ChunkSizeStart), [], "")
  {
    assert ['\r', '\n'][1..] == ['\n'] && ['\n'][1..] == "";
    assert OneByte(m, f, '\r') == Moved(f.(state := ChunkDataDone), []);
  }

  lemma {:induction false} OneChunk(m: Message, f: Fields, c: Chunk, rest: string)
    requires f.errno.Ok? && f.state.ChunkSizeStart? && f.nread == 0 && IsSizeLine(c) && c.data != ""
    ensures Machine(m, f, ChunkText(c) + rest) == After(Bytes(c.data), Machine(m, f.(contentLength := 0), rest))
  {
    var g := f.(contentLength := |c.data|, state := ChunkData);
    var h := f.(contentLength := 0, state := ChunkDataAlmostDone);
    assert ChunkText(c) + rest == SizeLine(c) + (c.data + (['\r', '\n'] + rest));
    SizeLineText(m, f, c, c.data + (['\r', '\n'] + rest));
    DataRunEnds(m, g, c.data);
    Piece(m, g, c.data, h, Bytes(c.data), ['\r', '\n'] + rest);
    ChunkEnd(m, h);
    Piece(m, h, ['\r', '\n'], f.(contentLength := 0), [], rest);
    NoOuts(Machine(m, f.(contentLength := 0), rest));
  }

  function ChunksText(chunks: seq<Chunk>): string {
    if chunks == [] then "" else ChunkText(chunks[0]) + ChunksText(chunks[1..])
  }

  function ChunksData(chunks: seq<Chunk>): string {
    if chunks == [] then "" else chunks[0].data + ChunksData(chunks[1..])
  }

  lemma {:induction false} LastChunk(m: Message, f: Fields, last: Chunk, rest: string)
    requires f.errno.Ok? && f.state.ChunkSizeStart? && f.nread == 0 && IsSizeLine(last) && last.data == ""
    ensures Machine(m, f, SizeLine(last) + rest)
         == Result(f.(nread := 0, contentLength := 0, trailing := true, state := Trailer), Bytes(""), rest)
  {
    SizeLineText(m, f, last, rest);
    assert Bytes("") == [];
  }

  lemma AssociateText(a: string, b: string, c: string)
    ensures (a + b) + c == a + (b + c)
  {
  }

  /** A chunked body is handed on as the data of its chunks, and the trailer is next. */
  lemma {:induction false} ChunkedBody(m: Message, f: Fields, chunks: seq<Chunk>, last: Chunk, rest: string)
    requires f.errno.Ok? && f.state.ChunkSizeStart? && f.nread == 0
    requires forall i :: 0 <= i < |chunks| ==> IsSizeLine(chunks[i]) && chunks[i].data != ""
    requires IsSizeLine(last) && last.data == ""
    ensures Machine(m, f, ChunksText(chunks) + (SizeLine(last) + rest))
         == Result(f.(nread := 0, contentLength := 0, trailing := true, state := Trailer), Bytes(ChunksData(chunks)),
           rest)
    decreases |chunks|
  {
    if chunks == [] {
      LastChunk(m, f, last, rest);
      assert "" + (SizeLine(last) + rest) == SizeLine(last) + rest;
    } else {
      var more := ChunksText(chunks[1..]) + (SizeLine(last) + rest);
      OneChunk(m, f, chunks[0], more);
      ChunkedBody(m, f.(contentLength := 0), chunks[1..], last, rest);
      AssociateText(ChunkText(chunks[0]), ChunksText(chunks[1..]), SizeLine(last) + rest);
      BytesTogether(chunks[0].data, ChunksData(chunks[1..]));
    }
  }

  // ---------------------------------------------------------------------------------------------
  // Chunks as they are printed
  // ---------------------------------------------------------------------------------------------

  /** A chunk whose size is printed in one of the two cases, after any zeros. */
  datatype Printed = Printed(data: string, zeros: nat, upper: bool, params: string)

  function PrintedSize(p: Printed): string {
    Zeros(p.zeros) + Hexadecimal(|p.data|, p.upper) + p.params + ['\r', '\n']
  }

  /** Parameters start with a semicolon or a space and hold no line end; lines and data are within the limits. */
  predicate PrintedOk(p: Printed) {
    && (p.params == "" || p.params[0] == ';' || p.params[0] == ' ') && '\r' !in p.params
    && |PrintedSize(p)| <= 81920 && |p.data| / 16 <= (0xFFFF_FFFF_FFFF_FFFF - 16) / 16
  }

  function PrintedText(printed: seq<Printed>): string {
    if printed == [] then ""
    else PrintedSize(printed[0]) + printed[0].data + ['\r', '\n'] + PrintedText(printed[1..])
  }

  function PrintedData(printed: seq<Printed>): string {
    if printed == [] then "" else printed[0].data + PrintedData(printed[1..])
  }

  function ChunkOf(p: Printed): Chunk {
    Chunk(Zeros(p.zeros) + Hexadecimal(|p.data|, p.upper), p.params, p.data)
  }

  lemma PrintedIsChunk(p: Printed)
    requires PrintedOk(p)
    ensures IsSizeLine(ChunkOf(p)) && SizeLine(ChunkOf(p)) == PrintedSize(p)
  {
    PrintedHexIsRead(p.zeros, |p.data|, p.upper);
  }

  function ChunksOf(printed: seq<Printed>): seq<Chunk> {
    if printed == [] then [] else [ChunkOf(printed[0])] + ChunksOf(printed[1..])
  }

  lemma {:induction false} PrintedAreChunks(printed: seq<Printed>)
    requires forall p :: p in printed ==> PrintedOk(p) && p.data != ""
    ensures var chunks := ChunksOf(printed);
      && (forall i :: 0 <= i < |chunks| ==> IsSizeLine(chunks[i]) && chunks[i].data != "")
      && ChunksText(chunks) == PrintedText(printed) && ChunksData(chunks) == PrintedData(printed)
  {
    if printed != [] {
      PrintedAreChunks(printed[1..]);
      PrintedIsChunk(printed[0]);
      assert ChunksOf(printed)[1..] == ChunksOf(printed[1..]);
    }
  }

  /** A chunked body whose sizes are printed numbers is handed on as the data of its chunks, and the bytes after the
      last size line are left for the trailer. */
  lemma {:induction false} PrintedBody(m: Message, f: Fields, printed: seq<Printed>, last: Printed, rest: string)
    requires f.errno.Ok? && f.state.ChunkSizeStart? && f.nread == 0
    requires (forall p :: p in printed ==> PrintedOk(p) && p.data != "") && PrintedOk(last) && last.data == ""
    ensures var r := Machine(m, f, PrintedText(printed) + (PrintedSize(last) + rest));
      r.outs == Bytes(PrintedData(printed)) && r.unread == rest && r.f.state.Trailer? && r.f.errno.Ok?
  {
    PrintedAreChunks(printed);
    PrintedIsChunk(last);
    ChunkedBody(m, f, ChunksOf(printed), ChunkOf(last), rest);
  }
}
