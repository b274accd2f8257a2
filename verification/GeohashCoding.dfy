/** Encoding and decoding by bisection, and the nine-cell cover that proximity queries rely on.  All
    midpoints of hashes of at most twelve characters are exact in the source's doubles, so coordinates
    are reals. */
module GeohashCoding {
  import opened Wrappers
  import opened GeohashGrid
  import opened GeohashNeighbors

  /** The side of a slot after halving a span `k` times. */
  function Size(span: real, k: nat): real {
    if k == 0 then span else Size(span, k - 1) / 2.0
  }

  lemma {:induction false} SizeIsPositive(span: real, k: nat)
    requires span > 0.0
    ensures Size(span, k) > 0.0
    decreases k
  {
    if k > 0 {
      SizeIsPositive(span, k - 1);
    }
  }

  /** Odd-numbered characters have three longitude bits and two latitude bits, even-numbered ones the
      other way round. */
  function LngBits(n: nat): nat {
    if n == 0 then 0 else LngBits(n - 1) + if Odd(n) then 3 else 2
  }

  function LatBits(n: nat): nat {
    if n == 0 then 0 else LatBits(n - 1) + if Odd(n) then 2 else 3
  }

  /** The numbers of cuts that `geohash_dimensions_for_precision` computes. */
  lemma {:induction false} CutsForPrecision(n: nat)
    ensures LatBits(n) == 5 * n / 2 && LngBits(n) == 5 * n / 2 + if Odd(n) then 1 else 0
    decreases n
  {
    OddIsParity(n);
    if n >= 2 {
      OddIsParity(n - 1);
      CutsForPrecision(n - 2);
      OddIsParity(n - 2);
      assert LngBits(n) == LngBits(n - 1) + (if Odd(n) then 3 else 2) == LngBits(n - 2) + 5;
      assert LatBits(n) == LatBits(n - 1) + (if Odd(n) then 2 else 3) == LatBits(n - 2) + 5;
    }
  }

  function Width(n: nat): real { Size(360.0, LngBits(n)) }

  function Height(n: nat): real { Size(180.0, LatBits(n)) }

  /** The lower end of slot `x`. */
  function Low(min: real, s: real, x: nat): real {
    if x == 0 then min else Low(min, s, x - 1) + s
  }

  lemma {:induction false} LowIsLinear(min: real, s: real, x: nat)
    ensures Low(min, s, x) == min + x as real * s
    decreases x
  {
    if x > 0 {
      LowIsLinear(min, s, x - 1);
      assert x as real * s == (x - 1) as real * s + s;
    }
  }

  /** Slots are open below and closed above, except that the first one includes its lower end. */
  predicate InSlot(c: real, min: real, s: real, x: nat) {
    (Low(min, s, x) < c || (x == 0 && c == min)) && c <= Low(min, s, x + 1)
  }

  /** The point lies in the cell that the hash names. */
  predicate Covers(hash: string, lat: real, lng: real) {
    InSlot(lng, -180.0, Width(|hash|), CellOf(hash).x) && InSlot(lat, -90.0, Height(|hash|), CellOf(hash).y)
  }

  // ---------------------------------------------------------------------------------------------
  // Slots
  // ---------------------------------------------------------------------------------------------

  lemma {:induction false} LowHalves(min: real, s: real, x: nat)
    ensures Low(min, s / 2.0, 2 * x) == Low(min, s, x)
    decreases x
  {
    if x > 0 {
      LowHalves(min, s, x - 1);
      assert Low(min, s / 2.0, 2 * x) == Low(min, s / 2.0, 2 * x - 1) + s / 2.0;
    }
  }

  /** Bisecting a slot: a point above the midpoint is in the upper half, any other in the lower half. */
  lemma Bisect(c: real, min: real, s: real, x: nat)
    requires InSlot(c, min, s, x)
    ensures var mid := Low(min, s / 2.0, 2 * x + 1);
      && (c > mid ==> InSlot(c, min, s / 2.0, 2 * x + 1))
      && (c <= mid ==> InSlot(c, min, s / 2.0, 2 * x))
      && mid == (Low(min, s, x) + Low(min, s, x + 1)) / 2.0
  {
    LowHalves(min, s, x);
    LowHalves(min, s, x + 1);
  }

  lemma {:induction false} LowIsMonotone(min: real, s: real, x: nat, y: nat)
    requires s > 0.0 && x <= y
    ensures Low(min, s, x) <= Low(min, s, y)
    decreases y
  {
    if x < y {
      LowIsMonotone(min, s, x, y - 1);
    }
  }

  /** A point lies in one slot only. */
  lemma SlotIsUnique(c: real, min: real, s: real, x: nat, y: nat)
    requires s > 0.0 && InSlot(c, min, s, x) && InSlot(c, min, s, y)
    ensures x == y
  {
    if x < y {
      LowIsMonotone(min, s, x + 1, y);
    } else if y < x {
      LowIsMonotone(min, s, y + 1, x);
    }
  }

  /** A point in a slot of half the size is in the slot that contains it. */
  lemma SlotOfHalf(c: real, min: real, s: real, x: nat)
    requires s > 0.0 && InSlot(c, min, s / 2.0, x)
    ensures InSlot(c, min, s, x / 2)
  {
    var q := x / 2;
    LowHalves(min, s, q);
    LowHalves(min, s, q + 1);
    LowIsMonotone(min, s / 2.0, x + 1, 2 * q + 2);
    LowIsMonotone(min, s / 2.0, 2 * q, x);
  }

  /** Points at most one slot apart lie in the same slot or in adjacent ones. */
  lemma NearPointsNearSlots(c: real, c': real, min: real, s: real, x: nat, x': nat)
    requires s > 0.0 && InSlot(c, min, s, x) && InSlot(c', min, s, x') && c' - c <= s
    ensures x' <= x + 1
  {
    if x' > x + 1 {
      assert Low(min, s, x + 2) == Low(min, s, x + 1) + s;
      LowIsMonotone(min, s, x + 2, x');
    }
  }

  // ---------------------------------------------------------------------------------------------
  // One character, bit by bit
  // ---------------------------------------------------------------------------------------------

  /** One more bit, for the longitude or for the latitude. */
  function AddBit(c: Cell, forLng: bool, b: nat): Cell {
    if forLng then Cell(2 * c.x + b, c.y) else Cell(c.x, 2 * c.y + b)
  }

  /** Whether bit `r` of the `n`th character, counted from zero, is a longitude bit. */
  predicate ForLng(n: nat, r: nat)
    decreases r
  {
    if r == 0 then Odd(n) else !ForLng(n, r - 1)
  }

  /** How many of the first `r` bits of the `n`th character are longitude bits. */
  function LngBitsWithin(n: nat, r: nat): nat {
    if r == 0 then 0 else LngBitsWithin(n, r - 1) + if ForLng(n, r - 1) then 1 else 0
  }

  lemma WholeCharacterBits(n: nat)
    requires n > 0
    ensures LngBitsWithin(n, 5) == (if Odd(n) then 3 else 2)
    ensures LngBits(n) == LngBits(n - 1) + LngBitsWithin(n, 5) && LatBits(n) == LatBits(n - 1) + 5 - LngBitsWithin(n, 5)
  {
    assert LngBitsWithin(n, 1) == if Odd(n) then 1 else 0;
    assert LngBitsWithin(n, 2) == 1;
    assert LngBitsWithin(n, 3) == if Odd(n) then 2 else 1;
  }

  /** The cell after the first `r` bits, of value `v`, of the `n`th character. */
  function Partial(c: Cell, n: nat, r: nat, v: nat): Cell
    requires n > 0
    decreases r
  {
    if r == 0 then c else AddBit(Partial(c, n, r - 1, v / 2), ForLng(n, r - 1), v % 2)
  }

  lemma {:induction false} FiveBitsSubdivide(c: Cell, n: nat, v: nat)
    requires n > 0 && v < 32
    ensures Partial(c, n, 5, v) == Subdivide(c, n, v)
  {
    var v1, v2, v3, v4 := v / 2, v / 4, v / 8, v / 16;
    var b0, b1, b2, b3 := v % 2, v1 % 2, v2 % 2, v3 % 2;
    assert v1 / 2 == v2 && v2 / 2 == v3 && v3 / 2 == v4 && v4 / 2 == 0 && v4 % 2 == v4;
    assert v == 16 * v4 + 8 * b3 + 4 * b2 + 2 * b1 + b0;
    BitsOfValue(v4, b3, b2, b1, b0);
    FiveAddedBits(c, n, v4, b3, b2, b1, b0);
    assert Partial(c, n, 1, v4) == AddBit(c, ForLng(n, 0), v4);
    assert Partial(c, n, 2, v3) == AddBit(Partial(c, n, 1, v4), ForLng(n, 1), b3);
    assert Partial(c, n, 3, v2) == AddBit(Partial(c, n, 2, v3), ForLng(n, 2), b2);
    assert Partial(c, n, 4, v1) == AddBit(Partial(c, n, 3, v2), ForLng(n, 3), b1);
  }

  lemma {:induction false} FiveAddedBits(c: Cell, n: nat, b4: nat, b3: nat, b2: nat, b1: nat, b0: nat)
    requires n > 0
    ensures AddBit(AddBit(AddBit(AddBit(AddBit(c, ForLng(n, 0), b4), ForLng(n, 1), b3), ForLng(n, 2), b2),
      ForLng(n, 3), b1), ForLng(n, 4), b0)
      == if Odd(n) then Cell(8 * c.x + 4 * b4 + 2 * b2 + b0, 4 * c.y + 2 * b3 + b1)
         else Cell(4 * c.x + 2 * b3 + b1, 8 * c.y + 4 * b4 + 2 * b2 + b0)
  {
  }

  // ---------------------------------------------------------------------------------------------
  // Encoding
  // ---------------------------------------------------------------------------------------------

  /** Out-of-range precisions become six characters. */
  function Characters(precision: int): (n: nat)
    ensures 1 <= n <= 12
  {
    if precision < 1 || precision > 12 then 6 else precision
  }

  function Two(r: nat): nat { if r == 0 then 1 else 2 * Two(r - 1) }

  datatype Interval = Interval(low: real, high: real)

  /** The interval is slot `x` of size `s`. */
  ghost predicate IsSlot(iv: Interval, min: real, s: real, x: nat) {
    iv == Interval(Low(min, s, x), Low(min, s, x + 1))
  }

  ghost predicate Bisecting(iv: Interval, coord: real, min: real, s: real, x: nat) {
    IsSlot(iv, min, s, x) && InSlot(coord, min, s, x)
  }

  /** One bisection towards a coordinate: the half that holds it, and the bit that says which half. */
  method Halve(iv: Interval, coord: real, ghost min: real, ghost s: real, ghost x: nat)
    returns (half: Interval, bit: nat)
    requires Bisecting(iv, coord, min, s, x)
    ensures bit < 2 && Bisecting(half, coord, min, s / 2.0, 2 * x + bit)
  {
    var mid := (iv.low + iv.high) / 2.0;
    Bisect(coord, min, s, x);
    LowHalves(min, s, x);
    LowHalves(min, s, x + 1);
    if coord > mid {
      return Interval(mid, iv.high), 1;
    }
    return Interval(iv.low, mid), 0;
  }

  /** How far encoding has come: whole characters, `k` bits of the next one, the cell they spell, and how
      many longitude and latitude bits they have used. */
  datatype Progress = Progress(hash: string, k: nat, hashChar: nat, cell: Cell, lngBits: nat, latBits: nat)

  predicate NextIsLng(p: Progress) { ForLng(|p.hash| + 1, p.k) }

  ghost predicate Spelled(p: Progress) {
    && p.k <= 5 && p.hashChar < Two(p.k)
    && p.cell == Partial(CellOf(p.hash), |p.hash| + 1, p.k, p.hashChar)
    && p.lngBits == LngBits(|p.hash|) + LngBitsWithin(|p.hash| + 1, p.k)
    && p.lngBits + p.latBits == LngBits(|p.hash|) + LatBits(|p.hash|) + p.k
  }

  function WithBit(p: Progress, isLng: bool, bit: nat): Progress {
    Progress(p.hash, p.k + 1, 2 * p.hashChar + bit, AddBit(p.cell, isLng, bit),
             if isLng then p.lngBits + 1 else p.lngBits, if isLng then p.latBits else p.latBits + 1)
  }

  lemma AppendedBit(h: nat, bit: nat)
    requires bit < 2
    ensures (2 * h + bit) / 2 == h && (2 * h + bit) % 2 == bit
  {
  }

  lemma {:induction false} PartialWithBit(c: Cell, n: nat, k: nat, h: nat, bit: nat)
    requires n > 0 && bit < 2
    ensures Partial(c, n, k + 1, 2 * h + bit) == AddBit(Partial(c, n, k, h), ForLng(n, k), bit)
  {
    AppendedBit(h, bit);
  }

  lemma {:induction false} OneMoreBit(n: nat, k: nat, h: nat, bit: nat)
    requires h < Two(k) && bit < 2
    ensures 2 * h + bit < Two(k + 1) && ForLng(n, k + 1) == !ForLng(n, k)
    ensures LngBitsWithin(n, k + 1) == LngBitsWithin(n, k) + if ForLng(n, k) then 1 else 0
  {
  }

  lemma BitIsSpelled(p: Progress, isLng: bool, bit: nat)
    requires Spelled(p) && p.k < 5 && bit < 2 && isLng == NextIsLng(p)
    ensures Spelled(WithBit(p, isLng, bit)) && (p.k < 4 ==> NextIsLng(WithBit(p, isLng, bit)) != isLng)
  {
    OneMoreBit(|p.hash| + 1, p.k, p.hashChar, bit);
    PartialWithBit(CellOf(p.hash), |p.hash| + 1, p.k, p.hashChar, bit);
  }

  function WithCharacter(p: Progress): Progress
    requires p.hashChar < |CHAR_MAP|
  {
    Progress(p.hash + [CHAR_MAP[p.hashChar]], 0, 0, p.cell, p.lngBits, p.latBits)
  }

  /** The fifth bit completes the cell of the character and of the hash with it. */
  lemma FifthBitSubdivides(p: Progress)
    requires Spelled(p) && p.k == 5
    ensures p.hashChar < 32 && p.cell == Subdivide(CellOf(p.hash), |p.hash| + 1, p.hashChar)
    ensures p.lngBits == LngBits(|p.hash| + 1) && p.latBits == LatBits(|p.hash| + 1)
  {
    assert Two(5) == 2 * Two(4) == 4 * Two(3) == 32;
    FiveBitsSubdivide(CellOf(p.hash), |p.hash| + 1, p.hashChar);
    WholeCharacterBits(|p.hash| + 1);
  }

  lemma CharacterIsSpelled(p: Progress)
    requires Spelled(p) && p.k == 5 && ValidHash(p.hash)
    ensures |CHAR_MAP| == 32 && p.hashChar < 32 && Spelled(WithCharacter(p)) && ValidHash(WithCharacter(p).hash)
    ensures NextIsLng(WithCharacter(p)) != ForLng(|p.hash| + 1, 4)
  {
    FifthBitSubdivides(p);
    NewLastCharacter(p.hash, p.hashChar);
  }

  lemma EveryFifthBit(i: nat, q: nat, k: nat)
    requires 0 < k <= 5 && i == 5 * q + k
    ensures i % 5 == 0 <==> k == 5
  {
  }

  /** Both intervals are the slots that the bits so far have chosen, and hold their coordinates. */
  ghost predicate Narrowed(p: Progress, latInterval: Interval, lngInterval: Interval, lat: real, lng: real) {
    && Bisecting(lngInterval, lng, -180.0, Size(360.0, p.lngBits), p.cell.x)
    && Bisecting(latInterval, lat, -90.0, Size(180.0, p.latBits), p.cell.y)
  }

  lemma WholeCharactersCover(p: Progress, latInterval: Interval, lngInterval: Interval, lat: real, lng: real)
    requires Spelled(p) && p.k == 0 && Narrowed(p, latInterval, lngInterval, lat, lng)
    ensures Covers(p.hash, lat, lng)
  {
  }

  lemma CharacterKeepsIntervals(p: Progress, latInterval: Interval, lngInterval: Interval, lat: real, lng: real)
    requires p.hashChar < |CHAR_MAP| && Narrowed(p, latInterval, lngInterval, lat, lng)
    ensures Narrowed(WithCharacter(p), latInterval, lngInterval, lat, lng)
  {
  }

  /** One round of the bisection: whichever interval is due is halved. */
  method NextBit(ghost p: Progress, isEven: bool, latInterval: Interval, lngInterval: Interval, lat: real, lng: real)
    returns (latHalf: Interval, lngHalf: Interval, bit: nat)
    requires Narrowed(p, latInterval, lngInterval, lat, lng)
    ensures bit < 2 && Narrowed(WithBit(p, isEven, bit), latHalf, lngHalf, lat, lng)
  {
    latHalf, lngHalf := latInterval, lngInterval;
    if isEven {
      lngHalf, bit := Halve(lngInterval, lng, -180.0, Size(360.0, p.lngBits), p.cell.x);
    } else {
      latHalf, bit := Halve(latInterval, lat, -90.0, Size(180.0, p.latBits), p.cell.y);
    }
  }

  /** The end of a round: after five bits the next character is complete. */
  method EndBit(i: nat, hash: string, hashChar: nat, isEven: bool, ghost p: Progress,
                ghost latInterval: Interval, ghost lngInterval: Interval, ghost lat: real, ghost lng: real)
    returns (longer: string, nextChar: nat, nextIsEven: bool, ghost q: Progress)
    requires Spelled(p) && ValidHash(hash) && hash == p.hash && hashChar == p.hashChar
    requires 0 < p.k && i == 5 * |hash| + p.k && isEven == ForLng(|hash| + 1, p.k - 1)
    requires Narrowed(p, latInterval, lngInterval, lat, lng)
    ensures q.k < 5 && i == 5 * |longer| + q.k && |longer| == |hash| + if p.k == 5 then 1 else 0
    ensures Spelled(q) && ValidHash(longer) && longer == q.hash && nextChar == q.hashChar && nextIsEven == NextIsLng(q)
    ensures Narrowed(q, latInterval, lngInterval, lat, lng)
  {
    longer, nextChar, nextIsEven, q := hash, hashChar, !isEven, p;
    EveryFifthBit(i, |hash|, p.k);
    if i % 5 == 0 {
      CharacterIsSpelled(p);
      CharacterKeepsIntervals(p, latInterval, lngInterval, lat, lng);
      q := WithCharacter(p);
      longer := hash + [CHAR_MAP[hashChar]];
      nextChar := 0;
    }
  }

  /** At the start of round `i`, counted from 1. */
  ghost predicate AtRound(i: nat, length: nat, hash: string, hashChar: nat, isEven: bool, p: Progress,
                          latInterval: Interval, lngInterval: Interval, lat: real, lng: real) {
    && p.k < 5 && i == 5 * |hash| + p.k + 1 && |hash| <= length && (|hash| == length ==> p.k == 0)
    && Spelled(p) && ValidHash(hash) && hash == p.hash && hashChar == p.hashChar && isEven == NextIsLng(p)
    && Narrowed(p, latInterval, lngInterval, lat, lng)
  }

  /** One round of the loop of encoding. */
  method Round(i: nat, length: nat, hash: string, hashChar: nat, isEven: bool, ghost p: Progress,
               latInterval: Interval, lngInterval: Interval, lat: real, lng: real)
    returns (longer: string, nextChar: nat, nextIsEven: bool, ghost q: Progress, latHalf: Interval, lngHalf: Interval)
    requires i <= 5 * length && AtRound(i, length, hash, hashChar, isEven, p, latInterval, lngInterval, lat, lng)
    ensures AtRound(i + 1, length, longer, nextChar, nextIsEven, q, latHalf, lngHalf, lat, lng)
  {
    var bit: nat;
    latHalf, lngHalf, bit := NextBit(p, isEven, latInterval, lngInterval, lat, lng);
    BitIsSpelled(p, isEven, bit);
    longer, nextChar, nextIsEven, q := EndBit(i, hash, 2 * hashChar + bit, isEven, WithBit(p, isEven, bit), latHalf,
      lngHalf, lat, lng);
  }

  /** Nothing for a point outside the world; otherwise the hash of the requested length whose cell covers
      the point. */
  method Encode(lat: real, lng: real, precision: int) returns (r: Option<string>)
    ensures r.Some? <==> -90.0 <= lat <= 90.0 && -180.0 <= lng <= 180.0
    ensures r.Some? ==> |r.value| == Characters(precision) && ValidHash(r.value) && Covers(r.value, lat, lng)
  {
    var length := Characters(precision);
    if !(lat <= 90.0 && lat >= -90.0 && lng <= 180.0 && lng >= -180.0) {
      return None;
    }
    var hash: string := "";
    var latInterval, lngInterval := Interval(-90.0, 90.0), Interval(-180.0, 180.0);
    var isEven, hashChar: nat, i: nat := true, 0, 1;
    ghost var p := Progress("", 0, 0, Cell(0, 0), 0, 0);
    while i <= 5 * length
      invariant AtRound(i, length, hash, hashChar, isEven, p, latInterval, lngInterval, lat, lng)
    {
      hash, hashChar, isEven, p, latInterval, lngInterval := Round(i, length, hash, hashChar, isEven, p, latInterval,
        lngInterval, lat, lng);
      i := i + 1;
    }
    WholeCharactersCover(p, latInterval, lngInterval, lat, lng);
    return Some(hash);
  }

  // ---------------------------------------------------------------------------------------------
  // Decoding
  // ---------------------------------------------------------------------------------------------

  datatype GeoCoord = GeoCoord(latitude: real, longitude: real, north: real, east: real, south: real, west: real)

  /** `v` shifted right by `k` bits. */
  function Shr(v: nat, k: nat): nat {
    if k == 0 then v else Shr(v, k - 1) / 2
  }

  lemma {:induction false} FiveBitsAreAll(v: nat)
    requires v < 32
    ensures Shr(v, 5) == 0
  {
    assert Shr(v, 1) == v / 2 < 16;
    assert Shr(v, 2) == Shr(v, 1) / 2 < 8;
    assert Shr(v, 3) == Shr(v, 2) / 2 < 4;
    assert Shr(v, 4) == Shr(v, 3) / 2 < 2;
  }

  /** The half of an interval that a bit chooses. */
  method TakeHalf(iv: Interval, bit: nat, ghost min: real, ghost s: real, ghost x: nat) returns (half: Interval)
    requires bit < 2 && IsSlot(iv, min, s, x)
    ensures IsSlot(half, min, s / 2.0, 2 * x + bit)
  {
    var delta := (iv.high - iv.low) / 2.0;
    LowHalves(min, s, x);
    LowHalves(min, s, x + 1);
    if bit == 1 {
      return Interval(iv.low + delta, iv.high);
    }
    return Interval(iv.low, iv.high - delta);
  }

  /** The box of the cell that the hash names, and its centre. */
  ghost predicate IsBoxOf(c: GeoCoord, hash: string) {
    && IsSlot(Interval(c.west, c.east), -180.0, Width(|hash|), CellOf(hash).x)
    && IsSlot(Interval(c.south, c.north), -90.0, Height(|hash|), CellOf(hash).y)
    && c.latitude == (c.south + c.north) / 2.0 && c.longitude == (c.west + c.east) / 2.0
  }

  /** The box of a hash; all zeros for the empty one. */
  method Decode(hash: string) returns (c: GeoCoord)
    ensures hash == "" ==> c == GeoCoord(0.0, 0.0, 0.0, 0.0, 0.0, 0.0)
    ensures hash != "" ==> IsBoxOf(c, hash)
  {
    if hash == "" {
      return GeoCoord(0.0, 0.0, 0.0, 0.0, 0.0, 0.0);
    }
    var latInterval, lngInterval := Interval(-90.0, 90.0), Interval(-180.0, 180.0);
    var isEven := true;
    for i := 0 to |hash|
      invariant isEven == ForLng(i + 1, 0)
      invariant IsBox(latInterval, lngInterval, CellOf(hash[..i]), LngBits(i), LatBits(i))
    {
      latInterval, lngInterval, isEven := DecodeCharacter(hash, i, latInterval, lngInterval, isEven);
    }
    assert hash[..|hash|] == hash;
    c := GeoCoord(latInterval.high - (latInterval.high - latInterval.low) / 2.0,
      lngInterval.high - (lngInterval.high - lngInterval.low) / 2.0,
                  latInterval.high, lngInterval.high, latInterval.low, lngInterval.low);
  }

  /** The inner loop: the five bits of one character. */
  method DecodeCharacter(hash: string, i: nat, latInterval: Interval, lngInterval: Interval, isEven: bool)
    returns (latInterval': Interval, lngInterval': Interval, isEven': bool)
    requires i < |hash| && isEven == ForLng(i + 1, 0)
    requires IsBox(latInterval, lngInterval, CellOf(hash[..i]), LngBits(i), LatBits(i))
    ensures isEven' == ForLng(i + 2, 0)
    ensures IsBox(latInterval', lngInterval', CellOf(hash[..i + 1]), LngBits(i + 1), LatBits(i + 1))
  {
    latInterval', lngInterval', isEven' := latInterval, lngInterval, isEven;
    var v := Value(hash[i]);
    ghost var p := Progress(hash[..i], 0, 0, CellOf(hash[..i]), LngBits(i), LatBits(i));
    FiveBitsAreAll(v);
    for j := 0 to 5
      invariant p.hash == hash[..i] && p.k == j && p.hashChar == Shr(v, 5 - j)
      invariant Spelled(p) && isEven' == ForLng(i + 1, j)
      invariant IsBox(latInterval', lngInterval', p.cell, p.lngBits, p.latBits)
    {
      latInterval', lngInterval', isEven', p := DecodeStep(v, j, i, latInterval', lngInterval', isEven', p);
    }
    FifthBitSubdivides(p);
    CellOfLongerPrefix(hash, i);
  }

  method DecodeStep(v: nat, j: nat, ghost i: nat, latInterval: Interval, lngInterval: Interval, isEven: bool,
                    ghost p: Progress)
    returns (latHalf: Interval, lngHalf: Interval, next: bool, ghost q: Progress)
    requires j < 5 && |p.hash| == i && p.k == j && p.hashChar == Shr(v, 5 - j) && Spelled(p) &&
      isEven == ForLng(i + 1, j)
    requires IsBox(latInterval, lngInterval, p.cell, p.lngBits, p.latBits)
    ensures q.hash == p.hash && q.k == j + 1 && q.hashChar == Shr(v, 4 - j) && Spelled(q) &&
      next == ForLng(i + 1, j + 1)
    ensures IsBox(latHalf, lngHalf, q.cell, q.lngBits, q.latBits)
  {
    var bit := Shr(v, 4 - j) % 2;
    ShrSplits(v, 4 - j);
    latHalf, lngHalf := DecodeBit(latInterval, lngInterval, isEven, bit, p);
    BitIsSpelled(p, isEven, bit);
    q := WithBit(p, isEven, bit);
    next := !isEven;
  }

  lemma CellOfLongerPrefix(hash: string, i: nat)
    requires i < |hash|
    ensures CellOf(hash[..i + 1]) == Subdivide(CellOf(hash[..i]), i + 1, Value(hash[i]))
  {
    assert hash[..i + 1][..i] == hash[..i];
  }

  lemma ShrSplits(v: nat, k: nat)
    ensures Shr(v, k) == 2 * Shr(v, k + 1) + Shr(v, k) % 2
  {
  }

  ghost predicate IsBox(latInterval: Interval, lngInterval: Interval, cell: Cell, lngBits: nat, latBits: nat) {
    IsSlot(lngInterval, -180.0, Size(360.0, lngBits), cell.x) &&
      IsSlot(latInterval, -90.0, Size(180.0, latBits), cell.y)
  }

  method DecodeBit(latInterval: Interval, lngInterval: Interval, isEven: bool, bit: nat, ghost p: Progress)
    returns (latHalf: Interval, lngHalf: Interval)
    requires bit < 2 && IsBox(latInterval, lngInterval, p.cell, p.lngBits, p.latBits)
    ensures var p' := WithBit(p, isEven, bit); IsBox(latHalf, lngHalf, p'.cell, p'.lngBits, p'.latBits)
  {
    latHalf, lngHalf := latInterval, lngInterval;
    if isEven {
      lngHalf := TakeHalf(lngInterval, bit, -180.0, Size(360.0, p.lngBits), p.cell.x);
    } else {
      latHalf := TakeHalf(latInterval, bit, -90.0, Size(180.0, p.latBits), p.cell.y);
    }
  }

  /** The size of a cell, by cutting the world in halves. */
  method DimensionsForPrecision(precision: int) returns (height: real, width: real)
    ensures precision <= 0 ==> height == 0.0 && width == 0.0
    ensures precision > 0 ==> height == Height(precision) && width == Width(precision)
  {
    height, width := 0.0, 0.0;
    if precision > 0 {
      CutsForPrecision(precision);
      OddIsParity(precision);
      var latCuts, lngCuts := precision * 5 / 2, precision * 5 / 2 + if precision % 2 != 0 then 1 else 0;
      height, width := 180.0, 360.0;
      for i := 0 to latCuts
        invariant height == Size(180.0, i)
      {
        height := height / 2.0;
      }
      for i := 0 to lngCuts
        invariant width == Size(360.0, i)
      {
        width := width / 2.0;
      }
    }
  }

  // ---------------------------------------------------------------------------------------------
  // Properties
  // ---------------------------------------------------------------------------------------------

  /** A point has one hash of each length. */
  lemma HashIsUnique(h: string, h': string, lat: real, lng: real)
    requires |h| == |h'| && ValidHash(h) && ValidHash(h') && Covers(h, lat, lng) && Covers(h', lat, lng)
    ensures h == h'
  {
    SizeIsPositive(360.0, LngBits(|h|));
    SizeIsPositive(180.0, LatBits(|h|));
    SlotIsUnique(lng, -180.0, Width(|h|), CellOf(h).x, CellOf(h').x);
    SlotIsUnique(lat, -90.0, Height(|h|), CellOf(h).y, CellOf(h').y);
    CellsAreDistinct(h, h');
  }

  lemma {:induction false} SlotOfHalves(c: real, min: real, span: real, k: nat, j: nat, x: nat)
    requires span > 0.0 && InSlot(c, min, Size(span, k + j), x)
    ensures InSlot(c, min, Size(span, k), Shr(x, j))
    decreases j
  {
    if j > 0 {
      SizeIsPositive(span, k + j - 1);
      SlotOfHalf(c, min, Size(span, k + j - 1), x);
      SlotOfHalves(c, min, span, k, j - 1, x / 2);
      ShrOfHalf(x, j - 1);
    }
  }

  lemma {:induction false} ShrOfHalf(x: nat, j: nat)
    ensures Shr(x / 2, j) == Shr(x, j + 1)
    decreases j
  {
    if j > 0 {
      ShrOfHalf(x, j - 1);
    }
  }

  lemma ShiftsOut(x: nat, d: nat)
    ensures d < 8 ==> Shr(8 * x + d, 3) == x
    ensures d < 4 ==> Shr(4 * x + d, 2) == x
  {
    if d < 8 { assert Shr(8 * x + d, 1) == 4 * x + d / 2 && Shr(8 * x + d, 2) == 2 * x + d / 4; }
    if d < 4 { assert Shr(4 * x + d, 1) == 2 * x + d / 2; }
  }

  lemma {:induction false} ShiftsOutCell(c: Cell, n: nat, v: nat)
    requires v < 32
    ensures var sub, odd := Subdivide(c, n, v), Odd(n);
      Shr(sub.x, if odd then 3 else 2) == c.x && Shr(sub.y, if odd then 2 else 3) == c.y
  {
    SplitBits(v);
    var l, s := LongBits(v), ShortBits(v);
    if Odd(n) {
      ShiftsOut(c.x, l);
      ShiftsOut(c.y, s);
    } else {
      ShiftsOut(c.x, s);
      ShiftsOut(c.y, l);
    }
  }

  lemma ParentCovers(hash: string, lat: real, lng: real)
    requires hash != "" && Covers(hash, lat, lng)
    ensures Covers(hash[..|hash| - 1], lat, lng)
  {
    var n := |hash| - 1;
    ShiftsOutCell(CellOf(hash[..n]), |hash|, Value(hash[n]));
    SlotOfHalves(lng, -180.0, 360.0, LngBits(n), if Odd(|hash|) then 3 else 2, CellOf(hash).x);
    SlotOfHalves(lat, -90.0, 180.0, LatBits(n), if Odd(|hash|) then 2 else 3, CellOf(hash).y);
  }

  /** Every prefix of a hash that covers a point covers it too: so encoding with fewer characters gives a
      prefix of encoding with more. */
  lemma {:induction false} PrefixCovers(hash: string, n: nat, lat: real, lng: real)
    requires n <= |hash| && Covers(hash, lat, lng)
    ensures Covers(hash[..n], lat, lng)
    decreases |hash| - n
  {
    if n < |hash| {
      PrefixCovers(hash, n + 1, lat, lng);
      ParentCovers(hash[..n + 1], lat, lng);
      assert hash[..n + 1][..n] == hash[..n];
    } else {
      assert hash[..n] == hash;
    }
  }

  lemma MidpointIsInSlot(iv: Interval, min: real, s: real, x: nat)
    requires s > 0.0 && IsSlot(iv, min, s, x)
    ensures InSlot((iv.low + iv.high) / 2.0, min, s, x)
  {
  }

  /** The centre of the decoded box lies in the cell: encoding it again gives the hash back. */
  lemma CentreIsCovered(hash: string, c: GeoCoord)
    requires IsBoxOf(c, hash)
    ensures Covers(hash, c.latitude, c.longitude)
  {
    SizeIsPositive(360.0, LngBits(|hash|));
    SizeIsPositive(180.0, LatBits(|hash|));
    MidpointIsInSlot(Interval(c.south, c.north), -90.0, Height(|hash|), CellOf(hash).y);
    MidpointIsInSlot(Interval(c.west, c.east), -180.0, Width(|hash|), CellOf(hash).x);
  }

  /** A covered point lies in the cell of the empty hash, which is the world. */
  lemma {:induction false} CoveredIsInWorld(hash: string, lat: real, lng: real)
    requires Covers(hash, lat, lng)
    ensures -90.0 <= lat <= 90.0 && -180.0 <= lng <= 180.0
  {
    PrefixCovers(hash, 0, lat, lng);
    assert hash[..0] == "";
    assert Low(-180.0, 360.0, 1) == 180.0 && Low(-90.0, 180.0, 1) == 90.0;
  }

  /** Encoding the centre of a decoded hash with as many characters gives the hash back; a hash that is longer
      than encoding can make gives its first six characters, the length that stands in for such a precision. */
  method EncodeCentre(hash: string) returns (r: Option<string>)
    requires ValidHash(hash) && hash != ""
    ensures |hash| <= 12 ==> r == Some(hash)
    ensures |hash| > 12 ==> r == Some(hash[..6])
  {
    var c := Decode(hash);
    r := Encode(c.latitude, c.longitude, |hash|);
    var n := Characters(|hash|);
    CentreIsCovered(hash, c);
    CoveredIsInWorld(hash, c.latitude, c.longitude);
    PrefixCovers(hash, n, c.latitude, c.longitude);
    PrefixIsValid(hash, n);
    HashIsUnique(r.value, hash[..n], c.latitude, c.longitude);
    assert hash[..|hash|] == hash;
  }

  predicate Adjacent(c: Cell, c': Cell) {
    c.x <= c'.x + 1 && c'.x <= c.x + 1 && c.y <= c'.y + 1 && c'.y <= c.y + 1
  }

  lemma {:induction false} NearPointsAdjacentCells(h: string, h': string, lat: real, lng: real, lat': real, lng': real)
    requires |h| == |h'| && Covers(h, lat, lng) && Covers(h', lat', lng')
    requires -Height(|h|) <= lat' - lat <= Height(|h|) && -Width(|h|) <= lng' - lng <= Width(|h|)
    ensures Adjacent(CellOf(h), CellOf(h'))
  {
    var n := |h|;
    var c, c' := CellOf(h), CellOf(h');
    SizeIsPositive(360.0, LngBits(n));
    SizeIsPositive(180.0, LatBits(n));
    NearPointsNearSlots(lng, lng', -180.0, Width(n), c.x, c'.x);
    NearPointsNearSlots(lng', lng, -180.0, Width(n), c'.x, c.x);
    NearPointsNearSlots(lat, lat', -90.0, Height(n), c.y, c'.y);
    NearPointsNearSlots(lat', lat, -90.0, Height(n), c'.y, c.y);
  }

  lemma {:induction false} MoreHalvings(span: real, k: nat)
    ensures Size(span, k + 2) == Size(span, k) / 2.0 / 2.0 && Size(span, k + 3) == Size(span, k) / 2.0 / 2.0 / 2.0
  {
    assert Size(span, k + 2) == Size(span, k + 1) / 2.0;
  }

  /** The last slot ends where the span ends. */
  lemma {:induction false} GridEnds(n: nat)
    ensures Low(-180.0, Width(n), Columns(n)) == 180.0 && Low(-90.0, Height(n), Rows(n)) == 90.0
    decreases n
  {
    if n > 0 {
      GridEnds(n - 1);
      var cols, rows := Columns(n - 1), Rows(n - 1);
      var w, h := Width(n - 1), Height(n - 1);
      MoreHalvings(360.0, LngBits(n - 1));
      MoreHalvings(180.0, LatBits(n - 1));
      HalvedTwiceAndMore(-180.0, w, cols);
      HalvedTwiceAndMore(-90.0, h, rows);
    }
  }

  lemma {:induction false} HalvedTwiceAndMore(min: real, s: real, x: nat)
    ensures Low(min, s / 2.0 / 2.0, 4 * x) == Low(min, s, x) == Low(min, s / 2.0 / 2.0 / 2.0, 8 * x)
  {
    LowHalves(min, s, x);
    LowHalves(min, s / 2.0, 2 * x);
    LowHalves(min, s / 2.0 / 2.0, 4 * x);
  }

  /** A point more than one slot away from both ends is in an inner slot. */
  lemma {:induction false} InnerSlot(c: real, min: real, max: real, s: real, x: nat, k: nat)
    requires s > 0.0 && InSlot(c, min, s, x) && k > 0 && Low(min, s, k) == max && min + s < c <= max - s
    ensures 0 < x && x + 1 < k
  {
    assert Low(min, s, 1) == Low(min, s, 0) + s && Low(min, s, k - 1) == max - s;
    if x + 1 >= k {
      LowIsMonotone(min, s, k - 1, x);
    }
  }

  lemma {:induction false} InnerCell(hash: string, lat: real, lng: real)
    requires Covers(hash, lat, lng)
    requires -90.0 + Height(|hash|) < lat <= 90.0 - Height(|hash|)
    requires -180.0 + Width(|hash|) < lng <= 180.0 - Width(|hash|)
    ensures AwayFromEdges(CellOf(hash), |hash|)
  {
    var n := |hash|;
    GridEnds(n);
    SizeIsPositive(360.0, LngBits(n));
    SizeIsPositive(180.0, LatBits(n));
    InnerSlot(lng, -180.0, 180.0, Width(n), CellOf(hash).x, Columns(n));
    InnerSlot(lat, -90.0, 90.0, Height(n), CellOf(hash).y, Rows(n));
  }

  /** More than one cell away from the poles and from the antimeridian, a point within one cell height and one cell
      width of another one has a hash, of any length from `n` on, that starts with the other's hash of length `n` or
      with one of its eight neighbours. */
  lemma {:induction false} NineCellsCover(query: string, lat: real, lng: real, stored: string, lat': real, lng': real)
    requires ValidHash(query) && Covers(query, lat, lng)
    requires -90.0 + Height(|query|) < lat <= 90.0 - Height(|query|)
    requires -180.0 + Width(|query|) < lng <= 180.0 - Width(|query|)
    requires ValidHash(stored) && Covers(stored, lat', lng') && |query| <= |stored|
    requires -Height(|query|) <= lat' - lat <= Height(|query|) && -Width(|query|) <= lng' - lng <= Width(|query|)
    ensures stored[..|query|] == query || Some(stored[..|query|]) in Neighbors(query)
  {
    var prefix := stored[..|query|];
    InnerCell(query, lat, lng);
    PrefixCovers(stored, |query|, lat', lng');
    PrefixIsValid(stored, |query|);
    NearPointsAdjacentCells(query, prefix, lat, lng, lat', lng');
    SameCellOrNeighbor(query, prefix);
  }

  lemma PrefixIsValid(hash: string, n: nat)
    requires ValidHash(hash) && n <= |hash|
    ensures ValidHash(hash[..n])
  {
  }

  lemma {:induction false} SameCellOrNeighbor(query: string, other: string)
    requires |query| == |other| && ValidHash(query) && ValidHash(other) && AwayFromEdges(CellOf(query), |query|)
    requires Adjacent(CellOf(query), CellOf(other))
    ensures other == query || Some(other) in Neighbors(query)
  {
    if CellOf(query) == CellOf(other) {
      CellsAreDistinct(query, other);
    } else {
      AdjacentCellIsNeighbor(query, other);
    }
  }

  lemma EveryOffset(dx: int, dy: int) returns (k: nat)
    requires -1 <= dx <= 1 && -1 <= dy <= 1 && (dx, dy) != (0, 0)
    ensures |OFFSETS| == 8 && k < 8 && OFFSETS[k] == (dx, dy)
  {
    k := if dx == 1 then 2 - dy else if dx == -1 then 6 + dy else if dy == 1 then 0 else 4;
  }

  lemma {:induction false} AdjacentCellIsNeighbor(query: string, other: string)
    requires |query| == |other| && ValidHash(query) && ValidHash(other) && AwayFromEdges(CellOf(query), |query|)
    requires CellOf(query) != CellOf(other) && Adjacent(CellOf(query), CellOf(other))
    ensures Some(other) in Neighbors(query)
  {
    var k := EveryOffset(CellOf(other).x - CellOf(query).x, CellOf(other).y - CellOf(query).y);
    NeighborsSurround(query, k);
    NeighborIsTheCell(query, Neighbors(query)[k], other);
    assert Neighbors(query)[k] in Neighbors(query);
  }

  lemma {:induction false} NeighborIsTheCell(query: string, r: Option<string>, other: string)
    requires |query| == |other| && ValidHash(other)
    requires IsAt(query, r, CellOf(other).x - CellOf(query).x, CellOf(other).y - CellOf(query).y)
    ensures r == Some(other)
  {
    CellsAreDistinct(r.value, other);
  }
}
