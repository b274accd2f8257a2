/** WebSocket frames (section 5.2 of RFC 6455) as the client writes and reads them. */
module WebSocketFrames {
  import Bits

  newtype byte = x: int | 0 <= x < 256

  type Bytes = seq<byte>

  /** The low half of the first byte of a frame. */
  type Opcode = b: byte | b < 0x10

  const CONTINUATION: Opcode := 0x0
  const TEXT_FRAME: Opcode := 0x1
  const BINARY_FRAME: Opcode := 0x2
  const CLOSE: Opcode := 0x8
  const PING: Opcode := 0x9
  const PONG: Opcode := 0xa

  /** The fixed masking key of the client. */
  const MASKING_KEY: Bytes := [0x12, 0x34, 0x56, 0x78]

  /** The close frame is always masked, with a key of zeros. */
  const CLOSE_FRAME: Bytes := [0x88, 0x80, 0x00, 0x00, 0x00, 0x00]

  const TWO_TO_THE_63: nat := 0x8000_0000_0000_0000

  // ---------------------------------------------------------------------------------------------
  // Lengths and masks
  // ---------------------------------------------------------------------------------------------

  /** The byte that dividing by the power of two `d` and masking with 0xff leaves. */
  function ByteAt(n: nat, d: nat): byte
    requires d > 0
  {
    (n / d % 256) as byte
  }

  /** The `k` low bytes of `n`, most significant byte first. */
  function BigEndian(n: nat, k: nat): (s: Bytes)
    ensures |s| == k
    decreases k
  {
    if k == 0 then [] else BigEndian(n / 256, k - 1) + [ByteAt(n, 1)]
  }

  function FromBigEndian(s: Bytes): nat {
    if s == [] then 0 else 256 * FromBigEndian(s[..|s| - 1]) + s[|s| - 1] as nat
  }

  function Pow256(k: nat): nat {
    if k == 0 then 1 else 256 * Pow256(k - 1)
  }

  lemma {:induction false} BigEndianRoundTrip(n: nat, k: nat)
    requires n < Pow256(k)
    ensures FromBigEndian(BigEndian(n, k)) == n
    decreases k
  {
    if k != 0 {
      BigEndianRoundTrip(n / 256, k - 1);
      AppendByte(BigEndian(n / 256, k - 1), ByteAt(n, 1));
    }
  }

  lemma {:induction false} AppendByte(s: Bytes, b: byte)
    ensures FromBigEndian(s + [b]) == 256 * FromBigEndian(s) + b as nat
  {
    var t := s + [b];
    assert t[..|t| - 1] == s;
  }

  lemma PowersOf256()
    ensures Pow256(2) == 0x1_0000 && Pow256(8) == 0x1_0000_0000_0000_0000
  {
    assert Pow256(4) == 0x1_0000_0000;
    assert Pow256(6) == 0x1_0000_0000_0000;
  }

  // The bytes that the source's shifts pick are the big-endian bytes.

  lemma {:induction false} LastTwoBytes(n: nat, k: nat)
    ensures BigEndian(n, k + 2) == BigEndian(n / 0x1_0000, k) + [ByteAt(n, 0x100), ByteAt(n, 1)]
  {
    assert n / 256 / 256 == n / 0x1_0000;
    assert BigEndian(n, k + 2) == BigEndian(n / 256, k + 1) + [ByteAt(n, 1)];
  }

  lemma {:induction false} LastFourBytes(n: nat, k: nat)
    ensures BigEndian(n, k + 4) == BigEndian(n / 0x1_0000_0000, k)
      + [ByteAt(n, 0x100_0000), ByteAt(n, 0x1_0000), ByteAt(n, 0x100), ByteAt(n, 1)]
  {
    var high := n / 0x1_0000;
    assert high / 0x100 == n / 0x100_0000 && high / 0x1_0000 == n / 0x1_0000_0000;
    LastTwoBytes(n, k + 2);
    LastTwoBytes(high, k);
  }

  lemma {:induction false} TwoBytes(n: nat)
    ensures BigEndian(n, 2) == [ByteAt(n, 0x100), ByteAt(n, 1)]
  {
    LastTwoBytes(n, 0);
  }

  lemma {:induction false} EightBytes(n: nat)
    ensures BigEndian(n, 8) == [
      ByteAt(n, 0x100_0000_0000_0000), ByteAt(n, 0x1_0000_0000_0000), ByteAt(n, 0x100_0000_0000),
        ByteAt(n, 0x1_0000_0000),
      ByteAt(n, 0x100_0000), ByteAt(n, 0x1_0000), ByteAt(n, 0x100), ByteAt(n, 1)]
  {
    var high := n / 0x1_0000_0000;
    HighBytes(n);
    LastFourBytes(n, 4);
    LastFourBytes(high, 0);
    AppendFour(ByteAt(high, 0x100_0000), ByteAt(high, 0x1_0000), ByteAt(high, 0x100), ByteAt(high, 1),
      ByteAt(n, 0x100_0000), ByteAt(n, 0x1_0000), ByteAt(n, 0x100), ByteAt(n, 1));
  }

  lemma AppendFour(a: byte, b: byte, c: byte, d: byte, e: byte, f: byte, g: byte, h: byte)
    ensures [] + [a, b, c, d] + [e, f, g, h] == [a, b, c, d, e, f, g, h]
  {
  }

  lemma HighBytes(n: nat)
    ensures var high := n / 0x1_0000_0000;
      && ByteAt(high, 0x100_0000) == ByteAt(n, 0x100_0000_0000_0000)
      && ByteAt(high, 0x1_0000) == ByteAt(n, 0x1_0000_0000_0000)
      && ByteAt(high, 0x100) == ByteAt(n, 0x100_0000_0000)
      && ByteAt(high, 1) == ByteAt(n, 0x1_0000_0000)
  {
    var high := n / 0x1_0000_0000;
    assert high / 0x100 == n / 0x100_0000_0000;
    assert high / 0x1_0000 == n / 0x1_0000_0000_0000;
    assert high / 0x100_0000 == n / 0x100_0000_0000_0000;
  }

  // The eight bits of a byte.

  lemma ByteWidth()
    ensures Bits.Pow2(8) == 0x100 && Bits.Pow2(7) == 0x80 && Bits.Pow2(4) == 0x10
  {
  }

  /** Exclusive or, bit by bit. */
  function Xor(x: byte, k: byte): byte {
    ByteWidth();
    Bits.Xor(x as nat, k as nat, 8) as byte
  }

  function And(x: byte, mask: byte): byte {
    ByteWidth();
    Bits.And(x as nat, mask as nat, 8) as byte
  }

  function Or(x: byte, y: byte): byte {
    ByteWidth();
    Bits.Or(x as nat, y as nat, 8) as byte
  }

  lemma XorTwice(x: byte, k: byte)
    ensures Xor(Xor(x, k), k) == x
  {
    ByteWidth();
    Bits.XorTwice(x as nat, k as nat, 8);
  }

  /** The masks of the header bytes, as arithmetic. */
  lemma FlagBits(x: byte)
    ensures And(x, 0x80) == 0x80 <==> x >= 0x80
    ensures And(x, 0x7f) == x % 0x80 && And(x, 0x0f) == x % 0x10
    ensures x < 0x80 ==> Or(0x80, x) == 0x80 + x
  {
    ByteWidth();
    Bits.AndTopBit(x as nat, 7);
    Bits.AndLowBits(x as nat, 7, 8);
    Bits.AndLowBits(x as nat, 4, 8);
    if x < 0x80 {
      Bits.OrTopBit(x as nat, 7);
    }
  }

  /** Byte `i` is combined with key byte `i & 3`. */
  function Masked(data: Bytes, key: Bytes): (m: Bytes)
    requires |key| == 4
    ensures |m| == |data| && forall i :: 0 <= i < |data| ==> m[i] == Xor(data[i], key[i % 4])
  {
    seq(|data|, i requires 0 <= i < |data| => Xor(data[i], key[i % 4]))
  }

  lemma UnmaskMasked(data: Bytes, key: Bytes)
    requires |key| == 4
    ensures Masked(Masked(data, key), key) == data
  {
    forall i | 0 <= i < |data|
      ensures Masked(Masked(data, key), key)[i] == data[i]
    {
      XorTwice(data[i], key[i % 4]);
    }
  }

  method HighBit(x: byte) returns (on: bool)
    ensures on == (x >= 0x80)
  {
    FlagBits(x);
    on := And(x, 0x80) == 0x80;
  }

  method LowSeven(x: byte) returns (y: byte)
    ensures y == x % 0x80
  {
    FlagBits(x);
    y := And(x, 0x7f);
  }

  method LowFour(x: byte) returns (y: byte)
    ensures y == x % 0x10
  {
    FlagBits(x);
    y := And(x, 0x0f);
  }

  method WithHighBit(x: byte) returns (y: byte)
    requires x < 0x80
    ensures y == 0x80 + x
  {
    FlagBits(x);
    y := Or(0x80, x);
  }

  // ---------------------------------------------------------------------------------------------
  // Writing
  // ---------------------------------------------------------------------------------------------

  function HeaderSize(n: nat, useMask: bool): nat {
    2 + (if n >= 126 then 2 else 0) + (if n >= 0x1_0000 then 6 else 0) + (if useMask then 4 else 0)
  }

  /** The second byte of a header for a length field of value `n0`. */
  function LengthByte(n0: nat, useMask: bool): byte
    requires n0 < 128
  {
    if useMask then 0x80 + n0 as byte else n0 as byte
  }

  /** The seven-bit length field for a message of `n` bytes. */
  function LengthField(n: nat): (n0: nat)
    ensures n0 < 128
  {
    if n < 126 then n else if n < 0x1_0000 then 126 else 127
  }

  function ExtendedLength(n: nat): Bytes {
    if n < 126 then [] else if n < 0x1_0000 then BigEndian(n, 2) else BigEndian(n, 8)
  }

  function Key(useMask: bool): Bytes {
    if useMask then MASKING_KEY else []
  }

  function Header(op: Opcode, n: nat, useMask: bool): Bytes {
    [0x80 + op, LengthByte(LengthField(n), useMask)] + ExtendedLength(n) + Key(useMask)
  }

  function Body(message: Bytes, useMask: bool): (body: Bytes)
    ensures |body| == |message|
  {
    if useMask then Masked(message, MASKING_KEY) else message
  }

  function EncodeFrame(op: Opcode, message: Bytes, useMask: bool): Bytes {
    Header(op, |message|, useMask) + Body(message, useMask)
  }

  // ---------------------------------------------------------------------------------------------
  // Reading
  // ---------------------------------------------------------------------------------------------

  datatype Parsed =
    | Incomplete
    | TooLong
    | Frame(fin: bool, opcode: Opcode, payload: Bytes, size: nat)

  predicate IsMasked(b1: byte) { b1 >= 0x80 }

  /** The length field of the second byte. */
  function N0(b1: byte): (n: nat)
    ensures n < 128
  {
    (b1 % 0x80) as nat
  }

  /** Where the masking key starts, after the extended length if there is one. */
  function KeyStart(b1: byte): nat {
    if N0(b1) == 126 then 4 else if N0(b1) == 127 then 10 else 2
  }

  function DataStart(b1: byte): nat {
    KeyStart(b1) + if IsMasked(b1) then 4 else 0
  }

  function DataLength(b1: byte, extended: Bytes): nat {
    if N0(b1) < 126 then N0(b1) else FromBigEndian(extended)
  }

  function Unmasked(b1: byte, key: Bytes, data: Bytes): Bytes
    requires IsMasked(b1) ==> |key| == 4
  {
    if IsMasked(b1) then Masked(data, key) else data
  }

  /** What the front of a receive buffer holds. */
  function ParseFrame(buf: Bytes): (p: Parsed)
    ensures p.Frame? ==> 2 <= p.size <= |buf|
  {
    if |buf| < 2 || |buf| < DataStart(buf[1]) then Incomplete
    else
      var b1 := buf[1];
      var n := DataLength(b1, buf[2..KeyStart(b1)]);
      if N0(b1) == 127 && n >= TWO_TO_THE_63 then TooLong
      else if |buf| < DataStart(b1) + n then Incomplete
      else
        var payload := Unmasked(b1, buf[KeyStart(b1)..DataStart(b1)], buf[DataStart(b1)..DataStart(b1) + n]);
        Frame(buf[0] >= 0x80, buf[0] % 0x10, payload, DataStart(b1) + n)
  }

  /** Bytes that arrive later do not change what the front of the buffer holds. */
  lemma ParseFrameExtends(a: Bytes, b: Bytes)
    requires !ParseFrame(a).Incomplete?
    ensures ParseFrame(a + b) == ParseFrame(a)
  {
    var c := a + b;
    var i, h := KeyStart(a[1]), DataStart(a[1]);
    assert c[2..i] == a[2..i];
    if ParseFrame(a).Frame? {
      SliceOfPrefix(a, b, i, h);
      SliceOfPrefix(a, b, h, ParseFrame(a).size);
    }
  }

  lemma SliceOfPrefix(a: Bytes, b: Bytes, i: nat, j: nat)
    requires i <= j <= |a|
    ensures (a + b)[i..j] == a[i..j]
  {
  }

  /** A buffer that consists of the parts of a frame parses as that frame. */
  lemma PartsParse(b0: byte, b1: byte, extended: Bytes, key: Bytes, data: Bytes, buf: Bytes)
    requires |extended| == KeyStart(b1) - 2 && |key| == DataStart(b1) - KeyStart(b1)
    requires |data| == DataLength(b1, extended) < TWO_TO_THE_63
    requires buf == [b0, b1] + extended + key + data
    ensures ParseFrame(buf) == Frame(b0 >= 0x80, b0 % 0x10, Unmasked(b1, key, data), DataStart(b1) + |data|)
  {
    PartSlices(b0, b1, extended, key, data, buf);
  }

  lemma PartSlices(b0: byte, b1: byte, extended: Bytes, key: Bytes, data: Bytes, buf: Bytes)
    requires buf == [b0, b1] + extended + key + data
    ensures var i, h := 2 + |extended|, 2 + |extended| + |key|;
      |buf| == h + |data| && buf[0] == b0 && buf[1] == b1 && buf[2..i] == extended && buf[i..h] == key &&
        buf[h..h + |data|] == data
  {
  }

  lemma BodyUnmasks(b1: byte, message: Bytes, useMask: bool)
    requires IsMasked(b1) == useMask
    ensures Unmasked(b1, Key(useMask), Body(message, useMask)) == message
  {
    if useMask {
      UnmaskMasked(message, MASKING_KEY);
    }
  }

  lemma EncodedPartsParse(op: Opcode, b1: byte, extended: Bytes, message: Bytes, useMask: bool, frame: Bytes)
    requires IsMasked(b1) == useMask && |extended| == KeyStart(b1) - 2
    requires |message| == DataLength(b1, extended) < TWO_TO_THE_63
    requires frame == [0x80 + op, b1] + extended + Key(useMask) + Body(message, useMask)
    ensures ParseFrame(frame) == Frame(true, op, message, 2 + |extended| + |Key(useMask)| + |message|)
  {
    BodyUnmasks(b1, message, useMask);
    PartsParse(0x80 + op, b1, extended, Key(useMask), Body(message, useMask), frame);
  }

  /** Every frame that is written reads back as one final frame with the same opcode and message,
      for all three length encodings, masked or not. */
  lemma FrameRoundTrip(op: Opcode, message: Bytes, useMask: bool, rest: Bytes)
    requires |message| < TWO_TO_THE_63
    ensures var frame := EncodeFrame(op, message, useMask);
      ParseFrame(frame + rest) == Frame(true, op, message, |frame|)
  {
    LengthReads(|message|, useMask);
    EncodedPartsParse(op, LengthByte(LengthField(|message|), useMask), ExtendedLength(|message|), message, useMask,
                      EncodeFrame(op, message, useMask));
    ParseFrameExtends(EncodeFrame(op, message, useMask), rest);
  }

  lemma LengthReads(n: nat, useMask: bool)
    requires n < TWO_TO_THE_63
    ensures var b1 := LengthByte(LengthField(n), useMask);
      && IsMasked(b1) == useMask
      && |ExtendedLength(n)| == KeyStart(b1) - 2
      && DataLength(b1, ExtendedLength(n)) == n
  {
    PowersOf256();
    if n >= 126 {
      BigEndianRoundTrip(n, |ExtendedLength(n)|);
    }
  }

  lemma CloseFrameReads(rest: Bytes)
    ensures ParseFrame(CLOSE_FRAME + rest) == Frame(true, CLOSE, [], 6)
  {
    var buf := CLOSE_FRAME + rest;
    assert buf[0] == 0x88 && buf[1] == 0x80;
    assert buf[6..6] == [];
  }
}
