/** Geohash characters, the cell of the world grid that a hash names, and the table-driven neighbours. */
module GeohashGrid {
  import opened Wrappers

  const CHAR_MAP: string := "0123456789bcdefghjkmnpqrstuvwxyz"

  datatype Direction = North | East | South | West

  // The four neighbour tables, and the characters on the border that each table wraps around.  Which
  // table serves a direction depends on whether the hash has an odd or an even number of characters.
  const LONG_UP: string := "p0r21436x8zb9dcf5h7kjnmqesgutwvy"
  const SHORT_UP: string := "bc01fg45238967deuvhjyznpkmstqrwx"
  const LONG_DOWN: string := "14365h7k9dcfesgujnmqp0r2twvyx8zb"
  const SHORT_DOWN: string := "238967debc01fg45kmstqrwxuvhjyznp"
  const LONG_TOP: string := "prxz"
  const SHORT_TOP: string := "bcfguvyz"
  const LONG_BOTTOM: string := "028b"
  const SHORT_BOTTOM: string := "0145hjnp"

  function NeighborTable(odd: bool, d: Direction): string {
    match d
    case North => if odd then SHORT_UP else LONG_UP
    case East => if odd then LONG_UP else SHORT_UP
    case South => if odd then SHORT_DOWN else LONG_DOWN
    case West => if odd then LONG_DOWN else SHORT_DOWN
  }

  function BorderTable(odd: bool, d: Direction): string {
    match d
    case North => if odd then SHORT_TOP else LONG_TOP
    case East => if odd then LONG_TOP else SHORT_TOP
    case South => if odd then SHORT_BOTTOM else LONG_BOTTOM
    case West => if odd then LONG_BOTTOM else SHORT_BOTTOM
  }

  /** The first position of a character in a table. */
  function IndexFrom(c: char, table: string, i: nat): (r: Option<nat>)
    requires i <= |table|
    ensures r.Some? ==> i <= r.value < |table| && table[r.value] == c && forall k :: i <= k < r.value ==> table[k] != c
    ensures r.None? ==> forall k :: i <= k < |table| ==> table[k] != c
    decreases |table| - i
  {
    if i == |table| then None else if table[i] == c then Some(i) else IndexFrom(c, table, i + 1)
  }

  method IndexForChar(c: char, table: string) returns (index: int)
    ensures index == (var r := IndexFrom(c, table, 0); if r.Some? then r.value else -1)
  {
    index := -1;
    for i := 0 to |table|
      invariant index == -1 && IndexFrom(c, table, 0) == IndexFrom(c, table, i)
    {
      if c == table[i] {
        return i;
      }
    }
  }

  // ---------------------------------------------------------------------------------------------
  // Five bits, interleaved
  // ---------------------------------------------------------------------------------------------

  /** The first, third and fifth bit of each five-bit value: the axis that a character starts with. */
  const LONG_BITS: seq<nat> := [
    0, 1, 0, 1, 2, 3, 2, 3, 0, 1, 0, 1, 2, 3, 2, 3,
    4, 5, 4, 5, 6, 7, 6, 7, 4, 5, 4, 5, 6, 7, 6, 7]

  /** The second and fourth bit: the other axis. */
  const SHORT_BITS: seq<nat> := [
    0, 0, 1, 1, 0, 0, 1, 1, 2, 2, 3, 3, 2, 2, 3, 3,
    0, 0, 1, 1, 0, 0, 1, 1, 2, 2, 3, 3, 2, 2, 3, 3]

  /** Entry `4 * long + short` is the value with those bits. */
  const INTERLEAVED: seq<nat> := [
    0, 2, 8, 10, 1, 3, 9, 11, 4, 6, 12, 14, 5, 7, 13, 15,
    16, 18, 24, 26, 17, 19, 25, 27, 20, 22, 28, 30, 21, 23, 29, 31]

  function LongBits(v: nat): nat
    requires v < 32
  {
    LONG_BITS[v]
  }

  function ShortBits(v: nat): nat
    requires v < 32
  {
    SHORT_BITS[v]
  }

  lemma SplitBits(v: nat)
    requires v < 32
    ensures |INTERLEAVED| == 32 && LongBits(v) < 8 && ShortBits(v) < 4
    ensures INTERLEAVED[4 * LongBits(v) + ShortBits(v)] == v
  {
  }

  lemma JoinBits(long: nat, short: nat)
    requires long < 8 && short < 4
    ensures |INTERLEAVED| == 32
    ensures var v := INTERLEAVED[4 * long + short]; v < 32 && LongBits(v) == long && ShortBits(v) == short
  {
  }

  lemma BitsAreInjective(v: nat, v': nat)
    requires v < 32 && v' < 32 && LongBits(v) == LongBits(v') && ShortBits(v) == ShortBits(v')
    ensures v == v'
  {
    SplitBits(v);
    SplitBits(v');
  }

  /** The tables hold the bits of a value, most significant bit first. */
  lemma BitsOfValue(b4: nat, b3: nat, b2: nat, b1: nat, b0: nat)
    requires b4 < 2 && b3 < 2 && b2 < 2 && b1 < 2 && b0 < 2
    ensures var v := 16 * b4 + 8 * b3 + 4 * b2 + 2 * b1 + b0;
      v < 32 && LongBits(v) == 4 * b4 + 2 * b2 + b0 && ShortBits(v) == 2 * b3 + b1
  {
    LongBitsOfValue(b4, b3, b2, b1, b0);
    ShortBitsOfValue(b4, b3, b2, b1, b0);
  }

  lemma LongBitsOfValue(b4: nat, b3: nat, b2: nat, b1: nat, b0: nat)
    requires b4 < 2 && b3 < 2 && b2 < 2 && b1 < 2 && b0 < 2
    ensures LongBits(16 * b4 + 8 * b3 + 4 * b2 + 2 * b1 + b0) == 4 * b4 + 2 * b2 + b0
  {
  }

  lemma ShortBitsOfValue(b4: nat, b3: nat, b2: nat, b1: nat, b0: nat)
    requires b4 < 2 && b3 < 2 && b2 < 2 && b1 < 2 && b0 < 2
    ensures ShortBits(16 * b4 + 8 * b3 + 4 * b2 + 2 * b1 + b0) == 2 * b3 + b1
  {
  }

  // ---------------------------------------------------------------------------------------------
  // What the tables contain
  // ---------------------------------------------------------------------------------------------

  lemma CharMapAscends()
    ensures |CHAR_MAP| == 32 && forall i: nat :: i < 31 ==> CHAR_MAP[i] < CHAR_MAP[i + 1]
  {
  }

  /** Each neighbour table, entry by entry, as positions in the character map. */
  const LONG_UP_VALUES: seq<nat> := [
    21, 0, 23, 2, 1, 4, 3, 6, 29, 8, 31, 10, 9, 12, 11, 14,
    5, 16, 7, 18, 17, 20, 19, 22, 13, 24, 15, 26, 25, 28, 27, 30]

  const SHORT_UP_VALUES: seq<nat> := [
    10, 11, 0, 1, 14, 15, 4, 5, 2, 3, 8, 9, 6, 7, 12, 13,
    26, 27, 16, 17, 30, 31, 20, 21, 18, 19, 24, 25, 22, 23, 28, 29]

  const LONG_DOWN_VALUES: seq<nat> := [
    1, 4, 3, 6, 5, 16, 7, 18, 9, 12, 11, 14, 13, 24, 15, 26,
    17, 20, 19, 22, 21, 0, 23, 2, 25, 28, 27, 30, 29, 8, 31, 10]

  const SHORT_DOWN_VALUES: seq<nat> := [
    2, 3, 8, 9, 6, 7, 12, 13, 10, 11, 0, 1, 14, 15, 4, 5,
    18, 19, 24, 25, 22, 23, 28, 29, 26, 27, 16, 17, 30, 31, 20, 21]

  /** The table that moves along the long or the short axis of a character, up or down. */
  function Table(long: bool, up: bool): string {
    if long then (if up then LONG_UP else LONG_DOWN) else if up then SHORT_UP else SHORT_DOWN
  }

  function Border(long: bool, up: bool): string {
    if long then (if up then LONG_TOP else LONG_BOTTOM) else if up then SHORT_TOP else SHORT_BOTTOM
  }

  /** One step up or down among `n` positions, cyclically. */
  function Shift(x: nat, n: nat, up: bool): nat
    requires x < n
  {
    if up then (if x == n - 1 then 0 else x + 1) else if x == 0 then n - 1 else x - 1
  }

  lemma LongUpTable(j: nat)
    requires j < 32
    ensures |LONG_UP| == |LONG_UP_VALUES| == |CHAR_MAP| == |LONG_BITS| == |SHORT_BITS| == 32
    ensures var v := LONG_UP_VALUES[j];
      v < 32 && LongBits(v) < 8 && LONG_UP[j] == CHAR_MAP[v]
      && ShortBits(j) == ShortBits(v) && LongBits(j) == Shift(LongBits(v), 8, true)
  {
  }

  lemma LongDownTable(j: nat)
    requires j < 32
    ensures |LONG_DOWN| == |LONG_DOWN_VALUES| == |CHAR_MAP| == |LONG_BITS| == |SHORT_BITS| == 32
    ensures var v := LONG_DOWN_VALUES[j];
      v < 32 && LongBits(v) < 8 && LONG_DOWN[j] == CHAR_MAP[v]
      && ShortBits(j) == ShortBits(v) && LongBits(j) == Shift(LongBits(v), 8, false)
  {
  }

  lemma ShortUpTable(j: nat)
    requires j < 32
    ensures |SHORT_UP| == |SHORT_UP_VALUES| == |CHAR_MAP| == |LONG_BITS| == |SHORT_BITS| == 32
    ensures var v := SHORT_UP_VALUES[j];
      v < 32 && ShortBits(v) < 4 && SHORT_UP[j] == CHAR_MAP[v]
      && LongBits(j) == LongBits(v) && ShortBits(j) == Shift(ShortBits(v), 4, true)
  {
  }

  lemma ShortDownTable(j: nat)
    requires j < 32
    ensures |SHORT_DOWN| == |SHORT_DOWN_VALUES| == |CHAR_MAP| == |LONG_BITS| == |SHORT_BITS| == 32
    ensures var v := SHORT_DOWN_VALUES[j];
      v < 32 && ShortBits(v) < 4 && SHORT_DOWN[j] == CHAR_MAP[v]
      && LongBits(j) == LongBits(v) && ShortBits(j) == Shift(ShortBits(v), 4, false)
  {
  }

  /** Entry `j` of a neighbour table is the character whose step leads to character `j`. */
  lemma TableEntry(long: bool, up: bool, j: nat) returns (v: nat)
    requires j < 32
    ensures |Table(long, up)| == |CHAR_MAP| == 32
    ensures v < 32 && Table(long, up)[j] == CHAR_MAP[v] && LongBits(v) < 8 && ShortBits(v) < 4
    ensures LongBits(j) == if long then Shift(LongBits(v), 8, up) else LongBits(v)
    ensures ShortBits(j) == if long then ShortBits(v) else Shift(ShortBits(v), 4, up)
  {
    LongUpTable(j);
    LongDownTable(j);
    ShortUpTable(j);
    ShortDownTable(j);
    v := if long then (if up then LONG_UP_VALUES[j] else LONG_DOWN_VALUES[j]) else if up then SHORT_UP_VALUES[j]
      else SHORT_DOWN_VALUES[j];
    SplitBits(v);
  }

  lemma LongTop(v: nat)
    requires v < 32
    ensures |CHAR_MAP| == 32 && (CHAR_MAP[v] in LONG_TOP <==> LongBits(v) == 7)
  {
    var c := CHAR_MAP[v];
    assert LONG_TOP == ['p', 'r', 'x', 'z'];
    assert c in LONG_TOP <==> c == 'p' || c == 'r' || c == 'x' || c == 'z';
  }

  lemma LongBottom(v: nat)
    requires v < 32
    ensures |CHAR_MAP| == 32 && (CHAR_MAP[v] in LONG_BOTTOM <==> LongBits(v) == 0)
  {
    var c := CHAR_MAP[v];
    assert LONG_BOTTOM == ['0', '2', '8', 'b'];
    assert c in LONG_BOTTOM <==> c == '0' || c == '2' || c == '8' || c == 'b';
  }

  lemma ShortTop(v: nat)
    requires v < 32
    ensures |CHAR_MAP| == 32 && (CHAR_MAP[v] in SHORT_TOP <==> ShortBits(v) == 3)
  {
    var c := CHAR_MAP[v];
    assert SHORT_TOP == ['b', 'c', 'f', 'g', 'u', 'v', 'y', 'z'];
    assert c in SHORT_TOP <==>
      c == 'b' || c == 'c' || c == 'f' || c == 'g' || c == 'u' || c == 'v' || c == 'y' || c == 'z';
  }

  lemma ShortBottom(v: nat)
    requires v < 32
    ensures |CHAR_MAP| == 32 && (CHAR_MAP[v] in SHORT_BOTTOM <==> ShortBits(v) == 0)
  {
    var c := CHAR_MAP[v];
    assert SHORT_BOTTOM == ['0', '1', '4', '5', 'h', 'j', 'n', 'p'];
    assert c in SHORT_BOTTOM <==>
      c == '0' || c == '1' || c == '4' || c == '5' || c == 'h' || c == 'j' || c == 'n' || c == 'p';
  }

  /** The border characters are those that the step takes around. */
  lemma BorderEntry(long: bool, up: bool, v: nat)
    requires v < 32
    ensures |CHAR_MAP| == 32
    ensures CHAR_MAP[v] in Border(long, up)
      <==> if long then LongBits(v) == (if up then 7 else 0) else ShortBits(v) == (if up then 3 else 0)
  {
    LongTop(v);
    LongBottom(v);
    ShortTop(v);
    ShortBottom(v);
  }
}
