/** `get_neighbor` is one step on the grid of cells. */
module GeohashNeighbors {
  import opened Wrappers
  import opened GeohashGrid

  predicate ValidChar(c: char) { IndexFrom(c, CHAR_MAP, 0).Some? }

  /** The value of a hash character; the decoder reads the bits of any other character as all ones. */
  function Value(c: char): (v: nat)
    ensures v < 32
  {
    CharMapAscends();
    var r := IndexFrom(c, CHAR_MAP, 0);
    if r.Some? then r.value else 31
  }

  predicate ValidHash(hash: string) {
    forall i :: 0 <= i < |hash| ==> ValidChar(hash[i])
  }

  lemma CharOfValue(c: char)
    requires ValidChar(c)
    ensures |CHAR_MAP| == 32 && CHAR_MAP[Value(c)] == c
  {
    CharMapAscends();
  }

  lemma {:induction false} CharMapIncreases(i: nat, j: nat)
    requires i < j < 32
    ensures |CHAR_MAP| == 32 && CHAR_MAP[i] < CHAR_MAP[j]
    decreases j - i
  {
    CharMapAscends();
    if i + 1 < j {
      CharMapIncreases(i + 1, j);
    }
  }

  lemma CharMapIsInjective(i: nat, j: nat)
    requires i < 32 && j < 32
    ensures |CHAR_MAP| == 32 && (CHAR_MAP[i] == CHAR_MAP[j] ==> i == j)
  {
    CharMapAscends();
    if i < j { CharMapIncreases(i, j); }
    if j < i { CharMapIncreases(j, i); }
  }

  lemma ValueOfChar(v: nat)
    requires v < 32
    ensures |CHAR_MAP| == 32 && ValidChar(CHAR_MAP[v]) && Value(CHAR_MAP[v]) == v
  {
    CharMapAscends();
    CharMapIsInjective(Value(CHAR_MAP[v]), v);
  }

  // ---------------------------------------------------------------------------------------------
  // Cells
  // ---------------------------------------------------------------------------------------------

  /** Column and row, counted from the south-west corner. */
  datatype Cell = Cell(x: nat, y: nat)

  predicate Odd(n: nat) {
    n != 0 && !Odd(n - 1)
  }

  lemma {:induction false} OddIsParity(n: nat)
    ensures Odd(n) <==> n % 2 == 1
    decreases n
  {
    if n != 0 {
      OddIsParity(n - 1);
    }
  }

  /** The five bits of the `n`th character subdivide a cell: an odd-numbered character has three column
      bits and two row bits, an even-numbered one the other way round. */
  function Subdivide(c: Cell, n: nat, v: nat): Cell
    requires v < 32
  {
    if Odd(n) then Cell(8 * c.x + LongBits(v), 4 * c.y + ShortBits(v))
    else Cell(4 * c.x + ShortBits(v), 8 * c.y + LongBits(v))
  }

  /** The cell that a hash names on the grid of its length. */
  function CellOf(hash: string): Cell {
    if hash == "" then Cell(0, 0)
    else Subdivide(CellOf(hash[..|hash| - 1]), |hash|, Value(hash[|hash| - 1]))
  }

  function Columns(n: nat): (k: nat)
    ensures k > 0
  {
    if n == 0 then 1 else (if Odd(n) then 8 else 4) * Columns(n - 1)
  }

  function Rows(n: nat): (k: nat)
    ensures k > 0
  {
    if n == 0 then 1 else (if Odd(n) then 4 else 8) * Rows(n - 1)
  }

  lemma {:induction false} CellIsOnGrid(hash: string)
    ensures CellOf(hash).x < Columns(|hash|) && CellOf(hash).y < Rows(|hash|)
    decreases |hash|
  {
    if hash != "" {
      CellIsOnGrid(hash[..|hash| - 1]);
      SplitBits(Value(hash[|hash| - 1]));
    }
  }

  lemma SubdivisionsAreDistinct(c: Cell, c': Cell, n: nat, v: nat, v': nat)
    requires v < 32 && v' < 32 && Subdivide(c, n, v) == Subdivide(c', n, v')
    ensures c == c' && v == v'
  {
    SplitBits(v);
    SplitBits(v');
    var l, s, l', s' := LongBits(v), ShortBits(v), LongBits(v'), ShortBits(v');
    if Odd(n) {
      DigitsAreDistinct(8, c.x, l, c'.x, l');
      DigitsAreDistinct(4, c.y, s, c'.y, s');
    } else {
      DigitsAreDistinct(4, c.x, s, c'.x, s');
      DigitsAreDistinct(8, c.y, l, c'.y, l');
    }
  }

  lemma DigitsAreDistinct(n: nat, x: nat, d: nat, x': nat, d': nat)
    requires (n == 4 || n == 8) && d < n && d' < n && n * x + d == n * x' + d'
    ensures x == x' && d == d'
  {
  }

  lemma LastCharacter(h: string)
    requires h != "" && ValidHash(h)
    ensures |CHAR_MAP| == 32 && h == h[..|h| - 1] + [CHAR_MAP[Value(h[|h| - 1])]] && ValidHash(h[..|h| - 1])
  {
    CharOfValue(h[|h| - 1]);
  }

  /** Different hashes of one length name different cells. */
  lemma {:induction false} CellsAreDistinct(h: string, h': string)
    requires |h| == |h'| && ValidHash(h) && ValidHash(h') && CellOf(h) == CellOf(h')
    ensures h == h'
    decreases |h|
  {
    if h != "" {
      var n := |h| - 1;
      SubdivisionsAreDistinct(CellOf(h[..n]), CellOf(h'[..n]), |h|, Value(h[n]), Value(h'[n]));
      LastCharacter(h);
      LastCharacter(h');
      CellsAreDistinct(h[..n], h'[..n]);
    }
  }

  // ---------------------------------------------------------------------------------------------
  // Neighbours
  // ---------------------------------------------------------------------------------------------

  /** The neighbour of a hash, character by character from the end.  Nothing stands for the empty hash and
      for characters outside the table, where the source reads and writes outside its strings. */
  function GetNeighbor(hash: string, d: Direction): Option<string>
    decreases |hash|
  {
    if hash == "" then None
    else
      var n := |hash| - 1;
      var odd := Odd(|hash|);
      var base := if IndexFrom(hash[n], BorderTable(odd, d), 0).Some? then GetNeighbor(hash[..n], d)
        else Some(hash[..n]);
      var index := IndexFrom(hash[n], NeighborTable(odd, d), 0);
      if base.Some? && index.Some? && index.value < |CHAR_MAP| then Some(base.value + [CHAR_MAP[index.value]]) else None
  }

  predicate OnEdge(c: Cell, n: nat, d: Direction) {
    match d
    case North => c.y + 1 >= Rows(n)
    case East => c.x + 1 >= Columns(n)
    case South => c.y == 0
    case West => c.x == 0
  }

  function Moved(c: Cell, d: Direction): Cell {
    match d
    case North => c.(y := c.y + 1)
    case East => c.(x := c.x + 1)
    case South => if c.y == 0 then c else c.(y := c.y - 1)
    case West => if c.x == 0 then c else c.(x := c.x - 1)
  }

  /** Whether a direction runs along the axis with three bits, and whether it goes up. */
  predicate AlongLong(odd: bool, d: Direction) { if d.North? || d.South? then !odd else odd }

  predicate Upwards(d: Direction) { d.North? || d.East? }

  lemma TablesByAxis(odd: bool, d: Direction)
    ensures NeighborTable(odd, d) == Table(AlongLong(odd, d), Upwards(d))
    ensures BorderTable(odd, d) == Border(AlongLong(odd, d), Upwards(d))
  {
  }

  /** Whether the step takes this value around. */
  predicate Carries(long: bool, up: bool, v: nat)
    requires v < 32
  {
    if long then LongBits(v) == (if up then 7 else 0) else ShortBits(v) == (if up then 3 else 0)
  }

  /** The table lookup for one character: a cyclic step along one axis. */
  lemma CharacterStep(long: bool, up: bool, c: char) returns (j: nat)
    requires ValidChar(c)
    ensures |CHAR_MAP| == 32 && j < 32 && IndexFrom(c, Table(long, up), 0) == Some(j)
    ensures var v := Value(c);
      && LongBits(v) < 8 && ShortBits(v) < 4
      && LongBits(j) == (if long then Shift(LongBits(v), 8, up) else LongBits(v))
      && ShortBits(j) == (if long then ShortBits(v) else Shift(ShortBits(v), 4, up))
    ensures IndexFrom(c, Border(long, up), 0).Some?
      <==> Carries(long, up, Value(c))
  {
    var v := Value(c);
    CharOfValue(c);
    SplitBits(v);
    var l := if long then Shift(LongBits(v), 8, up) else LongBits(v);
    var s := if long then ShortBits(v) else Shift(ShortBits(v), 4, up);
    JoinBits(l, s);
    var k := INTERLEAVED[4 * l + s];
    var v' := TableEntry(long, up, k);
    BitsAreInjective(v, v');
    var r := IndexFrom(c, Table(long, up), 0);
    assert Table(long, up)[k] == c;
    j := r.value;
    var w := TableEntry(long, up, j);
    CharMapIsInjective(v, w);
    BorderEntry(long, up, v);
  }

  /** The neighbour exists exactly away from the edge of the world in that direction; it is a valid hash of
      the same length whose row or column is one further, and the other coordinate is the same. */
  lemma {:induction false} NeighborIsOneStep(hash: string, d: Direction)
    requires ValidHash(hash)
    ensures StepsTo(CellOf(hash), |hash|, d, GetNeighbor(hash, d))
    decreases |hash|
  {
    if hash != "" {
      var n := |hash| - 1;
      CellIsOnGrid(hash[..n]);
      if IndexFrom(hash[n], BorderTable(Odd(|hash|), d), 0).Some? {
        NeighborIsOneStep(hash[..n], d);
      }
      LastCharacterSteps(hash, d);
    }
  }

  /** `r` is the hash of the cell next to `c` in direction `d`, or nothing when there is no such cell. */
  ghost predicate StepsTo(c: Cell, n: nat, d: Direction, r: Option<string>) {
    if OnEdge(c, n, d) then r == None
    else r.Some? && |r.value| == n && ValidHash(r.value) && CellOf(r.value) == Moved(c, d)
  }

  /** The base that the last character is appended to. */
  function NeighborBase(hash: string, d: Direction): Option<string>
    requires hash != ""
  {
    var base := hash[..|hash| - 1];
    if IndexFrom(hash[|hash| - 1], BorderTable(Odd(|hash|), d), 0).Some? then GetNeighbor(base, d) else Some(base)
  }

  lemma {:induction false} GetNeighborUnfolds(hash: string, d: Direction, j: nat)
    requires hash != "" && j < |CHAR_MAP|
    requires IndexFrom(hash[|hash| - 1], NeighborTable(Odd(|hash|), d), 0) == Some(j)
    ensures var base := NeighborBase(hash, d);
      GetNeighbor(hash, d) == if base.Some? then Some(base.value + [CHAR_MAP[j]]) else None
  {
  }

  lemma LastCharacterSteps(hash: string, d: Direction)
    requires hash != "" && ValidHash(hash)
    requires var base := hash[..|hash| - 1];
      && CellOf(base).x < Columns(|base|) && CellOf(base).y < Rows(|base|)
      && (IndexFrom(hash[|hash| - 1], BorderTable(Odd(|hash|), d), 0).Some? ==>
        StepsTo(CellOf(base), |base|, d, GetNeighbor(base, d)))
    ensures StepsTo(CellOf(hash), |hash|, d, GetNeighbor(hash, d))
  {
    var n := |hash| - 1;
    var base, c := hash[..n], hash[n];
    var long, up := AlongLong(Odd(|hash|), d), Upwards(d);
    TablesByAxis(Odd(|hash|), d);
    var j := CharacterStep(long, up, c);
    StepWithCarry(CellOf(base), |hash|, Value(c), j, d);
    GetNeighborUnfolds(hash, d, j);
    var base' := NeighborBase(hash, d);
    if base'.Some? {
      NewLastCharacter(base'.value, j);
    }
  }

  lemma {:induction false} NewLastCharacter(base: string, j: nat)
    requires ValidHash(base) && j < 32
    ensures |CHAR_MAP| == 32
    ensures var r := base + [CHAR_MAP[j]];
      ValidHash(r) && |r| == |base| + 1 && CellOf(r) == Subdivide(CellOf(base), |r|, j)
  {
    ValueOfChar(j);
    var r := base + [CHAR_MAP[j]];
    assert r[..|r| - 1] == base;
  }

  /** The arithmetic of one character: stepping within it, or wrapping around and stepping its cell. */
  lemma {:induction false} StepWithCarry(c: Cell, n: nat, v: nat, j: nat, d: Direction)
    requires n > 0 && v < 32 && j < 32 && c.x < Columns(n - 1) && c.y < Rows(n - 1)
    requires LongBits(v) < 8 && ShortBits(v) < 4
    requires var long, up := AlongLong(Odd(n), d), Upwards(d);
      && LongBits(j) == (if long then Shift(LongBits(v), 8, up) else LongBits(v))
      && ShortBits(j) == (if long then ShortBits(v) else Shift(ShortBits(v), 4, up))
    ensures var carries := Carries(AlongLong(Odd(n), d), Upwards(d), v);
      && (OnEdge(Subdivide(c, n, v), n, d) <==> carries && OnEdge(c, n - 1, d))
      && (!OnEdge(Subdivide(c, n, v), n, d) ==>
        Subdivide(if carries then Moved(c, d) else c, n, j) == Moved(Subdivide(c, n, v), d))
  {
  }

  predicate AwayFromEdges(c: Cell, n: nat) {
    0 < c.x && c.x + 1 < Columns(n) && 0 < c.y && c.y + 1 < Rows(n)
  }

  function Opposite(d: Direction): Direction {
    match d case North => South case East => West case South => North case West => East
  }

  /** A step and the opposite step undo each other. */
  lemma {:induction false} StepBack(hash: string, d: Direction)
    requires ValidHash(hash) && GetNeighbor(hash, d).Some?
    ensures GetNeighbor(GetNeighbor(hash, d).value, Opposite(d)) == Some(hash)
  {
    var r := GetNeighbor(hash, d).value;
    NeighborIsOneStep(hash, d);
    NeighborIsOneStep(r, Opposite(d));
    CellIsOnGrid(hash);
    CellsAreDistinct(GetNeighbor(r, Opposite(d)).value, hash);
  }

  function Then(r: Option<string>, d: Direction): Option<string> {
    if r.Some? then GetNeighbor(r.value, d) else None
  }

  /** The direction of the first step to each of N, NE, E, SE, S, SW, W and NW. */
  function FirstStep(k: nat): Direction {
    match k case 0 => North case 1 => North case 2 => East case 3 => East case 4 => South case 5 => South case _ => West
  }

  /** The direction of the second step to each of the diagonal ones. */
  function SecondStep(k: nat): Direction {
    match k case 1 => East case 3 => South case 5 => West case _ => North
  }

  function NeighborAt(hash: string, k: nat): Option<string> {
    var first := GetNeighbor(hash, FirstStep(k));
    if k % 2 == 0 then first else Then(first, SecondStep(k))
  }

  /** The eight neighbours, each diagonal one from an earlier one. */
  function Neighbors(hash: string): seq<Option<string>> {
    seq(8, k requires 0 <= k < 8 => NeighborAt(hash, k))
  }

  /** The column and row offsets of the eight neighbours, in the same order. */
  const OFFSETS: seq<(int, int)> := [(0, 1), (1, 1), (1, 0), (1, -1), (0, -1), (-1, -1), (-1, 0), (-1, 1)]

  /** `r` is the hash of the cell at this offset. */
  ghost predicate IsAt(hash: string, r: Option<string>, dx: int, dy: int) {
    && r.Some? && |r.value| == |hash| && ValidHash(r.value)
    && CellOf(r.value).x == CellOf(hash).x + dx && CellOf(r.value).y == CellOf(hash).y + dy
  }

  function Dx(d: Direction): int { match d case North => 0 case East => 1 case South => 0 case West => -1 }

  function Dy(d: Direction): int { match d case North => 1 case East => 0 case South => -1 case West => 0 }

  lemma {:induction false} OneStepAway(hash: string, d: Direction)
    requires ValidHash(hash) && AwayFromEdges(CellOf(hash), |hash|)
    ensures IsAt(hash, GetNeighbor(hash, d), Dx(d), Dy(d))
  {
    NeighborIsOneStep(hash, d);
  }

  lemma {:induction false} TwoStepsAway(hash: string, d: Direction, d': Direction)
    requires ValidHash(hash) && AwayFromEdges(CellOf(hash), |hash|) && Dx(d) * Dx(d') + Dy(d) * Dy(d') == 0
    ensures IsAt(hash, Then(GetNeighbor(hash, d), d'), Dx(d) + Dx(d'), Dy(d) + Dy(d'))
  {
    OneStepAway(hash, d);
    NeighborIsOneStep(GetNeighbor(hash, d).value, d');
  }

  lemma OffsetOfSteps(k: nat)
    requires k < 8
    ensures |OFFSETS| == 8
    ensures var d, d' := FirstStep(k), SecondStep(k);
      if k % 2 == 0 then OFFSETS[k] == (Dx(d), Dy(d))
      else OFFSETS[k] == (Dx(d) + Dx(d'), Dy(d) + Dy(d')) && Dx(d) * Dx(d') + Dy(d) * Dy(d') == 0
  {
    match k case 0 => case 1 => case 2 => case 3 => case 4 => case 5 => case 6 => case _ =>
  }

  /** Away from the edges of the grid, the neighbours are the eight cells around the cell of the hash. */
  lemma {:induction false} NeighborsSurround(hash: string, k: nat)
    requires ValidHash(hash) && AwayFromEdges(CellOf(hash), |hash|) && k < 8
    ensures |Neighbors(hash)| == |OFFSETS| == 8
    ensures IsAt(hash, Neighbors(hash)[k], OFFSETS[k].0, OFFSETS[k].1)
  {
    OffsetOfSteps(k);
    assert Neighbors(hash)[k] == NeighborAt(hash, k);
    if k % 2 == 0 {
      OneStepAway(hash, FirstStep(k));
    } else {
      TwoStepsAway(hash, FirstStep(k), SecondStep(k));
    }
  }
}
