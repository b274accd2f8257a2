/** Worker threads that share a list of patterns and one running counter of matches. */
module KeysMulti {
  import opened Wrappers
  import opened Wildcards
  import opened KeyScan

  datatype Config<V> = Config(patterns: seq<string>, table: Table, skip: int, limit: int, load: string -> Option<V>)

  /** A match: the number of the pattern and the position of the key. */
  datatype Match = Match(p: nat, k: nat)

  /** Where a worker stands between two accesses to shared state. `ok` is the local result of the scan. */
  datatype Worker =
    | Idle
    | Claimed(p: nat)
    | Scanning(p: nat, k: nat, ok: bool)
    | Testing(p: nat, k: nat, ok: bool)
    | Holding(p: nat, k: nat, i: nat, ok: bool, erred: bool)
    | Checking(p: nat, k: nat, i: nat, ok: bool)
    | Returning(p: nat, ok: bool)
    | Stopped

  /** An atomic counter that starts at -1 and only goes up. */
  type Counter = i: int | i >= -1 witness -1

  /** The shared variables, the workers, and the history of a run: which worker claimed each pattern, which match
      got each number, and in which order numbers were reported. */
  datatype State<V> = State(
    wildIndex: Counter, atomicIndex: Counter, exit: bool, ret: bool, results: seq<Row<V>>, workers: seq<Worker>,
    owner: seq<nat>, issued: seq<Match>, reported: seq<nat>)

  function Start<V>(numWorkers: nat): State<V> {
    State(-1, -1, false, true, [], seq(numWorkers, _ => Idle), [], [], [])
  }

  predicate IsHit<V>(c: Config<V>, p: nat, k: nat) {
    p < |c.patterns| && k < |c.table| && Hit(c.table[k], Prefix(c.patterns[p]), c.patterns[p])
  }

  function At<V>(s: State<V>, w: nat, worker: Worker): State<V>
    requires w < |s.workers|
  {
    s.(workers := s.workers[w := worker])
  }

  function Claim<V>(c: Config<V>, s: State<V>, w: nat): State<V>
    requires w < |s.workers|
  {
    var i := s.wildIndex + 1;
    if i < |c.patterns| then At(s.(wildIndex := i, owner := s.owner + [w]), w, Claimed(i))
    else At(s.(wildIndex := i), w, Stopped)
  }

  /** The number a match gets decides whether it is reported. */
  function Number<V>(c: Config<V>, s: State<V>, w: nat, p: nat, k: nat, ok: bool): State<V>
    requires w < |s.workers|
  {
    var i := s.atomicIndex + 1;
    At(s.(atomicIndex := i, issued := s.issued + [Match(p, k)]), w,
       if InWindow(i, c.skip, c.limit) then Holding(p, k, i, ok, false) else Checking(p, k, i, ok))
  }

  function Push<V>(c: Config<V>, s: State<V>, w: nat, p: nat, k: nat, i: nat, ok: bool, erred: bool): State<V>
    requires w < |s.workers| && k < |c.table|
  {
    var e := c.table[k];
    match c.load(e.value)
    case Some(v) =>
      At(s.(results := s.results + [Found(e.key, v)], reported := s.reported + [i]), w, Checking(p, k, i, ok))
    case None =>
      if erred then
        At(s.(results := s.results + [KeyOnly(e.key)], reported := s.reported + [i]), w, Checking(p, k, i, ok))
      else
        At(s.(results := s.results + [Error(e.value)]), w, Holding(p, k, i, false, true))
  }

  /** Worker `w` goes on to its next access to shared state. Positions outside the lists do not occur. */
  function Step<V>(c: Config<V>, s: State<V>, w: nat): State<V>
    requires w < |s.workers|
  {
    match s.workers[w]
    case Idle => Claim(c, s, w)
    case Claimed(p) =>
      if s.ret && p < |c.patterns| && !Refused(c.patterns[p])
      then At(s, w, Scanning(p, Seek(c.table, Prefix(c.patterns[p])), true))
      else At(s, w, Returning(p, false))
    case Scanning(p, k, ok) =>
      if p < |c.patterns| && k < |c.table| && Prefix(c.patterns[p]) <= c.table[k].key && !s.exit
      then At(s, w, Testing(p, k, ok))
      else At(s, w, Returning(p, ok))
    case Testing(p, k, ok) =>
      if IsHit(c, p, k) then Number(c, s, w, p, k, ok) else At(s, w, Scanning(p, k + 1, ok))
    case Holding(p, k, i, ok, erred) =>
      if k < |c.table| then Push(c, s, w, p, k, i, ok, erred) else s
    case Checking(p, k, i, ok) =>
      if i == c.skip + c.limit && c.limit != -1
      then At(s.(exit := true), w, Returning(p, ok))
      else At(s, w, Scanning(p, k + 1, ok))
    case Returning(p, ok) => At(s.(ret := ok), w, Idle)
    case Stopped => s
  }

  // ---------------------------------------------------------------------------------------------
  // What every step keeps
  // ---------------------------------------------------------------------------------------------

  /** No pattern is refused and every matching value can be decoded. */
  ghost predicate Sound<V>(c: Config<V>) {
    && (forall p :: 0 <= p < |c.patterns| ==> !Refused(c.patterns[p]))
    && (forall p: nat, k: nat :: IsHit(c, p, k) ==> c.load(c.table[k].value).Some?)
  }

  function PatternOf(w: Worker): Option<nat> {
    if w.Idle? || w.Stopped? then None else Some(w.p)
  }

  /** The matches of pattern `p` before position `k` have their numbers. */
  ghost predicate IssuedUpTo<V>(c: Config<V>, issued: seq<Match>, p: nat, k: nat) {
    forall j: nat :: j < k && IsHit(c, p, j) ==> Match(p, j) in issued
  }

  /** No later match of pattern `p` has a number. */
  ghost predicate NoneFrom(issued: seq<Match>, p: nat, k: nat) {
    forall m :: m in issued && m.p == p ==> m.k < k
  }

  /** The scan of pattern `p` is complete, or was allowed to stop early. */
  ghost predicate Settled<V>(c: Config<V>, s: State<V>, p: nat) {
    s.exit || !Sound(c) || IssuedUpTo(c, s.issued, p, |c.table|)
  }

  ghost predicate Placed<V>(c: Config<V>, s: State<V>, p: nat, k: nat, ok: bool) {
    && p < |c.patterns|
    && Seek(c.table, Prefix(c.patterns[p])) <= k <= |c.table|
    && (Sound(c) ==> ok)
    && IssuedUpTo(c, s.issued, p, k)
    && NoneFrom(s.issued, p, k)
  }

  ghost predicate WorkerOk<V>(c: Config<V>, s: State<V>, w: Worker) {
    match w
    case Idle => true
    case Claimed(p) => p < |c.patterns| && NoneFrom(s.issued, p, 0)
    case Scanning(p, k, ok) => Placed(c, s, p, k, ok)
    case Testing(p, k, ok) => k < |c.table| && Placed(c, s, p, k, ok)
    case Holding(p, k, i, ok, erred) =>
      Placed(c, s, p, k + 1, ok) && (Sound(c) ==> !erred)
      && i < |s.issued| && s.issued[i] == Match(p, k) && InWindow(i, c.skip, c.limit) && i !in s.reported
    case Checking(p, k, i, ok) =>
      Placed(c, s, p, k + 1, ok) && i < |s.issued| && s.issued[i] == Match(p, k)
    case Returning(p, ok) => Settled(c, s, p) && (Sound(c) ==> ok)
    case Stopped => s.wildIndex >= |c.patterns|
  }

  ghost predicate WorkersOk<V>(c: Config<V>, s: State<V>) {
    forall w :: 0 <= w < |s.workers| ==> WorkerOk(c, s, s.workers[w])
  }

  /** Each pattern is claimed once, by one worker, in the order of the list. */
  ghost predicate ClaimsOk<V>(c: Config<V>, s: State<V>) {
    && |s.owner| == (if s.wildIndex + 1 < |c.patterns| then s.wildIndex + 1 else |c.patterns|)
    && (forall w :: 0 <= w < |s.workers| && PatternOf(s.workers[w]).Some? ==>
          PatternOf(s.workers[w]).value < |s.owner| && s.owner[PatternOf(s.workers[w]).value] == w)
    && (forall p :: 0 <= p < |s.owner| ==> s.owner[p] < |s.workers|)
    && (forall p :: 0 <= p < |s.owner| ==> PatternOf(s.workers[s.owner[p]]) == Some(p) || Settled(c, s, p))
  }

  ghost predicate Distinct<T>(s: seq<T>) {
    forall i, j :: 0 <= i < j < |s| ==> s[i] != s[j]
  }

  /** The running counter numbers matches, each once. */
  ghost predicate IssuedOk<V>(c: Config<V>, s: State<V>) {
    && s.atomicIndex == |s.issued| - 1
    && (forall i :: 0 <= i < |s.issued| ==> s.issued[i].p < |s.owner| && IsHit(c, s.issued[i].p, s.issued[i].k))
    && Distinct(s.issued)
    && (s.exit ==> c.limit != -1 && c.skip + c.limit < |s.issued|)
  }

  /** The numbers in the window are reported once, or wait with the worker that drew them. */
  ghost predicate ReportedOk<V>(c: Config<V>, s: State<V>)
    requires IssuedOk(c, s) && ClaimsOk(c, s)
  {
    && (forall j :: 0 <= j < |s.reported| ==> s.reported[j] < |s.issued| && InWindow(s.reported[j], c.skip, c.limit))
    && Distinct(s.reported)
    && (forall i :: 0 <= i < |s.issued| && InWindow(i, c.skip, c.limit) ==>
          i in s.reported || HeldBy(s.workers[s.owner[s.issued[i].p]], i))
  }

  predicate HeldBy(w: Worker, i: nat) {
    w.Holding? && w.i == i
  }

  /** The results are the rows of the reported matches. */
  ghost predicate ResultsOk<V>(c: Config<V>, s: State<V>)
    requires IssuedOk(c, s)
  {
    Sound(c) ==>
      && s.ret && |s.results| == |s.reported|
      && forall j :: 0 <= j < |s.reported| && s.reported[j] < |s.issued| ==>
        [s.results[j]] == RowsOf(c.table[s.issued[s.reported[j]].k], c.load)
  }

  ghost predicate Inv<V>(c: Config<V>, s: State<V>) {
    ClaimsOk(c, s) && IssuedOk(c, s) && WorkersOk(c, s) && ReportedOk(c, s) && ResultsOk(c, s)
  }

  /** Progress of worker `w` that the other workers do not notice. */
  ghost predicate Grows<V>(s: State<V>, t: State<V>, w: nat)
    requires w < |s.workers|
  {
    && |t.workers| == |s.workers| && (forall v :: 0 <= v < |s.workers| && v != w ==> t.workers[v] == s.workers[v])
    && s.issued <= t.issued
    && (forall i :: |s.issued| <= i < |t.issued| ==> PatternOf(s.workers[w]) == Some(t.issued[i].p))
    && (forall i :: i in t.reported ==> i in s.reported || HeldBy(s.workers[w], i))
    && (s.exit ==> t.exit) && s.wildIndex <= t.wildIndex
  }

  lemma IssuedUpToGrows<V>(c: Config<V>, s: seq<Match>, t: seq<Match>, p: nat, k: nat)
    requires s <= t && IssuedUpTo(c, s, p, k)
    ensures IssuedUpTo(c, t, p, k)
  {
    forall j: nat | j < k && IsHit(c, p, j)
      ensures Match(p, j) in t
    {
      assert Match(p, j) in s;
    }
  }

  lemma NoneFromGrows(s: seq<Match>, t: seq<Match>, p: nat, k: nat)
    requires s <= t && NoneFrom(s, p, k) && forall i :: |s| <= i < |t| ==> t[i].p != p
    ensures NoneFrom(t, p, k)
  {
    forall m | m in t && m.p == p
      ensures m.k < k
    {
      var i :| 0 <= i < |t| && t[i] == m;
      assert i < |s| && s[i] in s;
    }
  }

  lemma OtherWorkerStaysOk<V>(c: Config<V>, s: State<V>, t: State<V>, w: nat, v: nat)
    requires w < |s.workers| && v < |s.workers| && v != w && Grows(s, t, w) && ClaimsOk(c, s)
    requires WorkerOk(c, s, s.workers[v]) && WorkerOk(c, s, s.workers[w])
    ensures WorkerOk(c, t, t.workers[v])
  {
    var x := s.workers[v];
    if PatternOf(x).Some? {
      var p := PatternOf(x).value;
      assert s.owner[p] == v;
      assert PatternOf(s.workers[w]) != Some(p);
      if !x.Returning? {
        var k := if x.Claimed? then 0 else if x.Scanning? || x.Testing? then x.k else x.k + 1;
        NoneFromGrows(s.issued, t.issued, p, k);
        if !x.Claimed? {
          IssuedUpToGrows(c, s.issued, t.issued, p, k);
        }
      } else if IssuedUpTo(c, s.issued, p, |c.table|) {
        IssuedUpToGrows(c, s.issued, t.issued, p, |c.table|);
      }
    }
  }

  /** A scan that runs off the keys with the prefix has seen every match. */
  lemma ScanEnds<V>(c: Config<V>, s: State<V>, p: nat, k: nat, ok: bool)
    requires Sorted(c.table) && Placed(c, s, p, k, ok)
    requires k == |c.table| || !(Prefix(c.patterns[p]) <= c.table[k].key)
    ensures IssuedUpTo(c, s.issued, p, |c.table|)
  {
    var pre := Prefix(c.patterns[p]);
    forall j: nat | j < |c.table| && IsHit(c, p, j)
      ensures Match(p, j) in s.issued
    {
      if k <= j {
        StaysAfter(c.table, pre, k);
        if k < j {
          PrefixBetween(pre, c.table[k].key, c.table[j].key);
        }
      }
    }
  }

  lemma ScanStarts<V>(c: Config<V>, s: State<V>, p: nat)
    requires Sorted(c.table) && p < |c.patterns| && NoneFrom(s.issued, p, 0)
    ensures Placed(c, s, p, Seek(c.table, Prefix(c.patterns[p])), true)
  {
    var pre := Prefix(c.patterns[p]);
    SeekSplits(c.table, pre);
    forall j: nat | j < Seek(c.table, pre)
      ensures !IsHit(c, p, j)
    {
      if pre <= c.table[j].key {
        PrefixNotAfter(pre, c.table[j].key);
      }
    }
  }

  lemma MatchIsIssued<V>(c: Config<V>, s: State<V>, t: State<V>, p: nat, k: nat, ok: bool)
    requires Placed(c, s, p, k, ok) && k < |c.table| && t.issued == s.issued + [Match(p, k)]
    ensures Placed(c, t, p, k + 1, ok)
  {
    forall j: nat | j < k + 1 && IsHit(c, p, j)
      ensures Match(p, j) in t.issued
    {
      if j == k {
        assert t.issued[|s.issued|] == Match(p, k);
      }
    }
  }

  lemma OthersStayOk<V>(c: Config<V>, s: State<V>, t: State<V>, w: nat)
    requires w < |s.workers| && Grows(s, t, w) && ClaimsOk(c, s) && WorkersOk(c, s) && WorkerOk(c, t, t.workers[w])
    ensures WorkersOk(c, t)
  {
    forall v | 0 <= v < |t.workers|
      ensures WorkerOk(c, t, t.workers[v])
    {
      if v != w {
        OtherWorkerStaysOk(c, s, t, w, v);
      }
    }
  }

  lemma SettledGrows<V>(c: Config<V>, s: State<V>, t: State<V>, p: nat)
    requires Settled(c, s, p) && s.issued <= t.issued && (s.exit ==> t.exit)
    ensures Settled(c, t, p)
  {
    if IssuedUpTo(c, s.issued, p, |c.table|) {
      IssuedUpToGrows(c, s.issued, t.issued, p, |c.table|);
    }
  }

  lemma ClaimsStay<V>(c: Config<V>, s: State<V>, t: State<V>, w: nat)
    requires w < |s.workers| == |t.workers| && ClaimsOk(c, s) && t.owner == s.owner && t.wildIndex == s.wildIndex
    requires t.workers == s.workers[w := t.workers[w]] && PatternOf(t.workers[w]) == PatternOf(s.workers[w])
    requires s.issued <= t.issued && (s.exit ==> t.exit)
    ensures ClaimsOk(c, t)
  {
    forall p | 0 <= p < |t.owner|
      ensures PatternOf(t.workers[t.owner[p]]) == Some(p) || Settled(c, t, p)
    {
      if Settled(c, s, p) {
        SettledGrows(c, s, t, p);
      }
    }
  }

  /** A step that neither claims, numbers nor reports. */
  lemma Moves<V>(c: Config<V>, s: State<V>, w: nat, worker: Worker, exit: bool, ret: bool)
    requires Inv(c, s) && w < |s.workers| && !s.workers[w].Holding?
    requires s.exit ==> exit
    requires exit ==> s.exit || (c.limit != -1 && c.skip + c.limit < |s.issued|)
    requires Sound(c) ==> ret
    requires WorkerOk(c, At(s.(exit := exit, ret := ret), w, worker), worker)
    requires PatternOf(worker) == PatternOf(s.workers[w])
          || (worker.Idle? && PatternOf(s.workers[w]).Some? && Settled(c, s, PatternOf(s.workers[w]).value))
    ensures Inv(c, At(s.(exit := exit, ret := ret), w, worker))
  {
    var t := At(s.(exit := exit, ret := ret), w, worker);
    OthersStayOk(c, s, t, w);
    forall p | 0 <= p < |t.owner|
      ensures PatternOf(t.workers[t.owner[p]]) == Some(p) || Settled(c, t, p)
    {
      if Settled(c, s, p) {
        SettledGrows(c, s, t, p);
      }
    }
  }

  lemma ClaimKeepsClaims<V>(c: Config<V>, s: State<V>, w: nat)
    requires ClaimsOk(c, s) && w < |s.workers| && s.workers[w].Idle?
    ensures ClaimsOk(c, Claim(c, s, w))
  {
    var t := Claim(c, s, w);
    forall p | 0 <= p < |t.owner|
      ensures PatternOf(t.workers[t.owner[p]]) == Some(p) || Settled(c, t, p)
    {
      if p < |s.owner| && Settled(c, s, p) {
        SettledGrows(c, s, t, p);
      }
    }
  }

  lemma ClaimKeepsInv<V>(c: Config<V>, s: State<V>, w: nat)
    requires Inv(c, s) && w < |s.workers| && s.workers[w].Idle?
    ensures Inv(c, Claim(c, s, w))
  {
    ClaimKeepsClaims(c, s, w);
    OthersStayOk(c, s, Claim(c, s, w), w);
  }

  lemma NumberKeepsInv<V>(c: Config<V>, s: State<V>, w: nat, p: nat, k: nat, ok: bool)
    requires Inv(c, s) && w < |s.workers| && s.workers[w] == Testing(p, k, ok) && IsHit(c, p, k)
    ensures Inv(c, Number(c, s, w, p, k, ok))
  {
    var t := Number(c, s, w, p, k, ok);
    MatchIsIssued(c, s, t, p, k, ok);
    OthersStayOk(c, s, t, w);
    ClaimsStay(c, s, t, w);
    assert Match(p, k) !in s.issued;
    assert ReportedOk(c, t) by {
      forall i | 0 <= i < |t.issued| && InWindow(i, c.skip, c.limit)
        ensures i in t.reported || HeldBy(t.workers[t.owner[t.issued[i].p]], i)
      {
        if i < |s.issued| {
          assert t.issued[i] == s.issued[i];
        }
      }
    }
  }

  lemma StillDistinct<T>(s: seq<T>, x: T)
    requires Distinct(s) && x !in s
    ensures Distinct(s + [x])
  {
  }

  lemma PushKeepsReported<V>(c: Config<V>, s: State<V>, w: nat, p: nat, k: nat, i: nat, ok: bool, erred: bool)
    requires IssuedOk(c, s) && ClaimsOk(c, s) && ReportedOk(c, s) && WorkerOk(c, s, Holding(p, k, i, ok, erred))
    requires w < |s.workers| && s.workers[w] == Holding(p, k, i, ok, erred) && k < |c.table|
    requires IssuedOk(c, Push(c, s, w, p, k, i, ok, erred)) && ClaimsOk(c, Push(c, s, w, p, k, i, ok, erred))
    ensures ReportedOk(c, Push(c, s, w, p, k, i, ok, erred))
  {
    var t := Push(c, s, w, p, k, i, ok, erred);
    StillDistinct(s.reported, i);
    assert t.reported == s.reported || t.reported == s.reported + [i];
    forall j | 0 <= j < |t.issued| && InWindow(j, c.skip, c.limit)
      ensures j in t.reported || HeldBy(t.workers[t.owner[t.issued[j].p]], j)
    {
      if j == i && t.reported != s.reported {
        assert t.reported[|s.reported|] == i;
      } else if j in s.reported {
        assert j in t.reported;
      } else if t.issued[j].p == p {
        assert s.owner[p] == w;
      }
    }
  }

  lemma PushKeepsClaims<V>(c: Config<V>, s: State<V>, w: nat, p: nat, k: nat, i: nat, ok: bool, erred: bool)
    requires IssuedOk(c, s) && ClaimsOk(c, s)
    requires w < |s.workers| && s.workers[w] == Holding(p, k, i, ok, erred) && k < |c.table|
    ensures IssuedOk(c, Push(c, s, w, p, k, i, ok, erred)) && ClaimsOk(c, Push(c, s, w, p, k, i, ok, erred))
  {
    var t := Push(c, s, w, p, k, i, ok, erred);
    ClaimsStay(c, s, t, w);
  }

  lemma PushKeepsPlace<V>(c: Config<V>, s: State<V>, w: nat, p: nat, k: nat, i: nat, ok: bool, erred: bool)
    requires IsHit(c, p, k) && w < |s.workers| && s.workers[w] == Holding(p, k, i, ok, erred)
    requires WorkerOk(c, s, Holding(p, k, i, ok, erred))
    ensures var t := Push(c, s, w, p, k, i, ok, erred); Grows(s, t, w) && WorkerOk(c, t, t.workers[w])
  {
  }

  lemma PushKeepsWorkers<V>(c: Config<V>, s: State<V>, t: State<V>, w: nat, p: nat, k: nat, i: nat, ok: bool,
                            erred: bool)
    requires ClaimsOk(c, s) && WorkersOk(c, s) && IsHit(c, p, k)
    requires w < |s.workers| && s.workers[w] == Holding(p, k, i, ok, erred)
    requires t == Push(c, s, w, p, k, i, ok, erred)
    ensures WorkersOk(c, t)
  {
    assert WorkerOk(c, s, s.workers[w]);
    PushKeepsPlace(c, s, w, p, k, i, ok, erred);
    OthersStayOk(c, s, t, w);
  }

  lemma PushKeepsResults<V>(c: Config<V>, s: State<V>, w: nat, p: nat, k: nat, i: nat, ok: bool, erred: bool)
    requires IssuedOk(c, s) && ResultsOk(c, s) && WorkerOk(c, s, Holding(p, k, i, ok, erred)) && IsHit(c, p, k)
    requires w < |s.workers| && IssuedOk(c, Push(c, s, w, p, k, i, ok, erred))
    ensures ResultsOk(c, Push(c, s, w, p, k, i, ok, erred))
  {
  }

  lemma PushKeepsInv<V>(c: Config<V>, s: State<V>, w: nat, p: nat, k: nat, i: nat, ok: bool, erred: bool)
    requires IsHit(c, p, k)
    requires Inv(c, s) && w < |s.workers| && s.workers[w] == Holding(p, k, i, ok, erred)
    ensures Inv(c, Push(c, s, w, p, k, i, ok, erred))
  {
    PushKeepsWorkers(c, s, Push(c, s, w, p, k, i, ok, erred), w, p, k, i, ok, erred);
    PushKeepsClaims(c, s, w, p, k, i, ok, erred);
    assert WorkerOk(c, s, s.workers[w]);
    PushKeepsReported(c, s, w, p, k, i, ok, erred);
    PushKeepsResults(c, s, w, p, k, i, ok, erred);
  }

  lemma HoldsHit<V>(c: Config<V>, s: State<V>, w: nat, p: nat, k: nat, i: nat, ok: bool, erred: bool)
    requires IssuedOk(c, s) && WorkersOk(c, s) && w < |s.workers| && s.workers[w] == Holding(p, k, i, ok, erred)
    ensures IsHit(c, p, k)
  {
    assert WorkerOk(c, s, s.workers[w]);
    assert IsHit(c, s.issued[i].p, s.issued[i].k);
  }

  lemma EnterKeepsInv<V>(c: Config<V>, s: State<V>, w: nat, p: nat)
    requires Sorted(c.table) && Inv(c, s) && w < |s.workers| && s.workers[w] == Claimed(p)
    ensures Inv(c, Step(c, s, w))
  {
    assert WorkerOk(c, s, s.workers[w]);
    ScanStarts(c, s, p);
    Moves(c, s, w, Step(c, s, w).workers[w], s.exit, s.ret);
  }

  lemma ScanKeepsInv<V>(c: Config<V>, s: State<V>, w: nat, p: nat, k: nat, ok: bool)
    requires Sorted(c.table) && Inv(c, s) && w < |s.workers| && s.workers[w] == Scanning(p, k, ok)
    ensures Inv(c, Step(c, s, w))
  {
    assert WorkerOk(c, s, s.workers[w]);
    if k == |c.table| || !(Prefix(c.patterns[p]) <= c.table[k].key) {
      ScanEnds(c, s, p, k, ok);
    }
    Moves(c, s, w, Step(c, s, w).workers[w], s.exit, s.ret);
  }

  lemma PassIsPlaced<V>(c: Config<V>, s: State<V>, p: nat, k: nat, ok: bool)
    requires Placed(c, s, p, k, ok) && k < |c.table| && !IsHit(c, p, k)
    ensures Placed(c, s, p, k + 1, ok)
  {
  }

  lemma PassKeepsInv<V>(c: Config<V>, s: State<V>, w: nat, p: nat, k: nat, ok: bool)
    requires Inv(c, s) && w < |s.workers| && s.workers[w] == Testing(p, k, ok) && !IsHit(c, p, k)
    ensures Inv(c, At(s, w, Scanning(p, k + 1, ok)))
  {
    assert WorkerOk(c, s, s.workers[w]);
    PassIsPlaced(c, s, p, k, ok);
    Moves(c, s, w, Scanning(p, k + 1, ok), s.exit, s.ret);
  }

  lemma TestKeepsInv<V>(c: Config<V>, s: State<V>, w: nat, p: nat, k: nat, ok: bool)
    requires Inv(c, s) && w < |s.workers| && s.workers[w] == Testing(p, k, ok)
    ensures Inv(c, if IsHit(c, p, k) then Number(c, s, w, p, k, ok) else At(s, w, Scanning(p, k + 1, ok)))
  {
    if IsHit(c, p, k) {
      NumberKeepsInv(c, s, w, p, k, ok);
    } else {
      PassKeepsInv(c, s, w, p, k, ok);
    }
  }

  lemma CheckKeepsInv<V>(c: Config<V>, s: State<V>, w: nat, p: nat, k: nat, i: nat, ok: bool)
    requires Inv(c, s) && w < |s.workers| && s.workers[w] == Checking(p, k, i, ok)
    ensures Inv(c, Step(c, s, w))
  {
    assert WorkerOk(c, s, s.workers[w]);
    var t := Step(c, s, w);
    Moves(c, s, w, t.workers[w], t.exit, s.ret);
  }

  lemma ReturnKeepsInv<V>(c: Config<V>, s: State<V>, w: nat, p: nat, ok: bool)
    requires Inv(c, s) && w < |s.workers| && s.workers[w] == Returning(p, ok)
    ensures Inv(c, Step(c, s, w))
  {
    assert WorkerOk(c, s, s.workers[w]);
    Moves(c, s, w, Idle, s.exit, ok);
  }

  lemma ClaimStep<V>(c: Config<V>, s: State<V>, w: nat)
    requires Inv(c, s) && w < |s.workers| && s.workers[w].Idle?
    ensures Inv(c, Step(c, s, w))
  {
    ClaimKeepsInv(c, s, w);
    assert Step(c, s, w) == Claim(c, s, w);
  }

  lemma TestStep<V>(c: Config<V>, s: State<V>, w: nat, p: nat, k: nat, ok: bool)
    requires Inv(c, s) && w < |s.workers| && s.workers[w] == Testing(p, k, ok)
    ensures Inv(c, Step(c, s, w))
  {
    TestKeepsInv(c, s, w, p, k, ok);
    assert Step(c, s, w) == if IsHit(c, p, k) then Number(c, s, w, p, k, ok) else At(s, w, Scanning(p, k + 1, ok));
  }

  lemma PushStep<V>(c: Config<V>, s: State<V>, w: nat, p: nat, k: nat, i: nat, ok: bool, erred: bool)
    requires Inv(c, s) && w < |s.workers| && s.workers[w] == Holding(p, k, i, ok, erred)
    ensures Inv(c, Step(c, s, w))
  {
    HoldsHit(c, s, w, p, k, i, ok, erred);
    PushKeepsInv(c, s, w, p, k, i, ok, erred);
    assert Step(c, s, w) == Push(c, s, w, p, k, i, ok, erred);
  }

  /** Every access of a worker to shared state keeps the invariant. */
  lemma StepKeepsInv<V>(c: Config<V>, s: State<V>, w: nat)
    requires Sorted(c.table) && Inv(c, s) && w < |s.workers|
    ensures Inv(c, Step(c, s, w))
  {
    match s.workers[w]
    case Idle => ClaimStep(c, s, w);
    case Claimed(p) => EnterKeepsInv(c, s, w, p);
    case Scanning(p, k, ok) => ScanKeepsInv(c, s, w, p, k, ok);
    case Testing(p, k, ok) => TestStep(c, s, w, p, k, ok);
    case Holding(p, k, i, ok, erred) => PushStep(c, s, w, p, k, i, ok, erred);
    case Checking(p, k, i, ok) => CheckKeepsInv(c, s, w, p, k, i, ok);
    case Returning(p, ok) => ReturnKeepsInv(c, s, w, p, ok);
    case Stopped =>
  }

  // ---------------------------------------------------------------------------------------------
  // Whole runs
  // ---------------------------------------------------------------------------------------------

  /** The state after the workers have gone on in this order; a number that is no worker's changes nothing. */
  function Run<V>(c: Config<V>, numWorkers: nat, schedule: seq<nat>): State<V> {
    if schedule == [] then Start(numWorkers)
    else
      var n := |schedule| - 1;
      Next(c, Run(c, numWorkers, schedule[..n]), schedule[n])
  }

  function Next<V>(c: Config<V>, s: State<V>, w: nat): State<V> {
    if w < |s.workers| then Step(c, s, w) else s
  }

  lemma NextKeepsInv<V>(c: Config<V>, s: State<V>, w: nat)
    requires Sorted(c.table) && Inv(c, s)
    ensures Inv(c, Next(c, s, w))
  {
    if w < |s.workers| {
      StepKeepsInv(c, s, w);
    }
  }

  lemma NextKeepsWorkers<V>(c: Config<V>, s: State<V>, w: nat)
    ensures |Next(c, s, w).workers| == |s.workers|
  {
  }

  lemma StartInv<V>(c: Config<V>, numWorkers: nat)
    ensures Inv(c, Start(numWorkers))
  {
  }

  lemma {:induction false} RunKeepsInv<V>(c: Config<V>, numWorkers: nat, schedule: seq<nat>)
    requires Sorted(c.table)
    ensures Inv(c, Run(c, numWorkers, schedule)) && |Run(c, numWorkers, schedule).workers| == numWorkers
  {
    if schedule == [] {
      StartInv(c, numWorkers);
    } else {
      var n := |schedule| - 1;
      RunKeepsInv(c, numWorkers, schedule[..n]);
      NextKeepsInv(c, Run(c, numWorkers, schedule[..n]), schedule[n]);
      NextKeepsWorkers(c, Run(c, numWorkers, schedule[..n]), schedule[n]);
    }
  }

  // ---------------------------------------------------------------------------------------------
  // What a finished run has reported
  // ---------------------------------------------------------------------------------------------

  ghost predicate Finished<V>(s: State<V>) {
    forall w :: 0 <= w < |s.workers| ==> s.workers[w].Stopped?
  }

  /** The matches of a pattern list, pattern by pattern. */
  function Matched(table: Table, patterns: seq<string>): seq<Entry> {
    if patterns == [] then []
    else
      var p := |patterns| - 1;
      Matched(table, patterns[..p]) + Hits(table, Prefix(patterns[p]), patterns[p])
  }

  /** The positions of the hits in the first `n` keys. */
  function Places<V>(c: Config<V>, p: nat, n: nat): seq<Match>
    requires p < |c.patterns| && n <= |c.table|
  {
    if n == 0 then [] else Places(c, p, n - 1) + if IsHit(c, p, n - 1) then [Match(p, n - 1)] else []
  }

  function AllPlaces<V>(c: Config<V>, n: nat): seq<Match>
    requires n <= |c.patterns|
  {
    if n == 0 then [] else AllPlaces(c, n - 1) + Places(c, n - 1, |c.table|)
  }

  lemma {:induction false} PlacesAreHits<V>(c: Config<V>, p: nat, n: nat)
    requires p < |c.patterns| && n <= |c.table|
    ensures forall m :: m in Places(c, p, n) <==> m.p == p && m.k < n && IsHit(c, p, m.k)
    ensures Distinct(Places(c, p, n))
    ensures |Places(c, p, n)| == |HitsTo(c.table, n, Prefix(c.patterns[p]), c.patterns[p])|
  {
    if n > 0 {
      PlacesAreHits(c, p, n - 1);
      HitsGrow(c.table, n - 1, Prefix(c.patterns[p]), c.patterns[p]);
      if IsHit(c, p, n - 1) {
        StillDistinct(Places(c, p, n - 1), Match(p, n - 1));
      }
    }
  }

  lemma {:induction false} AllPlacesAreHits<V>(c: Config<V>, n: nat)
    requires n <= |c.patterns|
    ensures forall m :: m in AllPlaces(c, n) <==> m.p < n && IsHit(c, m.p, m.k)
    ensures Distinct(AllPlaces(c, n))
    ensures |AllPlaces(c, n)| == |Matched(c.table, c.patterns[..n])|
  {
    if n > 0 {
      AllPlacesAreHits(c, n - 1);
      PlacesAreHits(c, n - 1, |c.table|);
      assert c.patterns[..n][..n - 1] == c.patterns[..n - 1];
      DistinctTogether(AllPlaces(c, n - 1), Places(c, n - 1, |c.table|));
    }
  }

  lemma DistinctTogether<T>(s: seq<T>, t: seq<T>)
    requires Distinct(s) && Distinct(t) && forall x :: x in s ==> x !in t
    ensures Distinct(s + t)
  {
    forall i, j | 0 <= i < j < |s + t|
      ensures (s + t)[i] != (s + t)[j]
    {
      if i < |s| <= j {
        assert s[i] in s && t[j - |s|] in t;
      }
    }
  }

  /** Distinct lists with the same elements are permutations of each other. */
  lemma {:induction false} DistinctPermutation<T>(s: seq<T>, t: seq<T>)
    requires Distinct(s) && Distinct(t) && forall x :: x in s <==> x in t
    ensures multiset(s) == multiset(t) && |s| == |t|
  {
    DistinctMultiset(s);
    DistinctMultiset(t);
    assert multiset(s) == multiset(t);
    assert |multiset(s)| == |s| && |multiset(t)| == |t|;
  }

  lemma {:induction false} DistinctMultiset<T>(s: seq<T>)
    requires Distinct(s)
    ensures forall x :: multiset(s)[x] == if x in s then 1 else 0
  {
    if s != [] {
      var n := |s| - 1;
      DistinctMultiset(s[..n]);
      assert s == s[..n] + [s[n]];
    }
  }

  lemma DistinctSubset<T>(s: seq<T>, t: seq<T>)
    requires Distinct(s) && Distinct(t) && forall x :: x in s ==> x in t
    ensures |s| <= |t|
  {
    DistinctMultiset(s);
    DistinctMultiset(t);
    assert multiset(s) <= multiset(t);
    assert multiset(t) == multiset(s) + (multiset(t) - multiset(s));
    assert |multiset(s)| == |s| && |multiset(t)| == |t|;
  }

  /** The numbers of the window among the first `n`. */
  function WindowNumbers(n: nat, skip: int, limit: int): seq<nat> {
    if n == 0 then [] else WindowNumbers(n - 1, skip, limit) + if InWindow(n - 1, skip, limit) then [n - 1] else []
  }

  lemma {:induction false} WindowNumbersAre<T>(s: seq<T>, skip: int, limit: int)
    ensures var numbers := WindowNumbers(|s|, skip, limit);
      |numbers| == |Window(s, skip, limit)| && Distinct(numbers)
      && forall i: nat :: i in numbers <==> i < |s| && InWindow(i, skip, limit)
  {
    if s != [] {
      var n := |s| - 1;
      WindowNumbersAre(s[..n], skip, limit);
      if InWindow(n, skip, limit) {
        StillDistinct(WindowNumbers(n, skip, limit), n);
      }
    }
  }

  lemma {:induction false} AllIssued<V>(c: Config<V>, s: State<V>)
    requires Inv(c, s) && Sound(c) && Finished(s) && |s.workers| > 0
    ensures var total := AllPlaces(c, |c.patterns|);
      if s.exit then c.limit != -1 && c.skip + c.limit < |s.issued| <= |total|
      else multiset(s.issued) == multiset(total) && |s.issued| == |total|
  {
    var total := AllPlaces(c, |c.patterns|);
    AllPlacesAreHits(c, |c.patterns|);
    assert WorkerOk(c, s, s.workers[0]);
    forall m | m in s.issued
      ensures m in total
    {
      var i :| 0 <= i < |s.issued| && s.issued[i] == m;
      assert IsHit(c, s.issued[i].p, s.issued[i].k);
    }
    if s.exit {
      DistinctSubset(s.issued, total);
    } else {
      forall m | m in total
        ensures m in s.issued
      {
        assert PatternOf(s.workers[s.owner[m.p]]) == None;
        assert Settled(c, s, m.p);
        assert Match(m.p, m.k) == m;
      }
      DistinctPermutation(s.issued, total);
    }
  }

  lemma ReportedAreWindow<V>(c: Config<V>, s: State<V>)
    requires Inv(c, s) && Finished(s)
    ensures |s.reported| == |Window(s.issued, c.skip, c.limit)|
  {
    WindowNumbersAre(s.issued, c.skip, c.limit);
    forall i: nat | i < |s.issued| && InWindow(i, c.skip, c.limit)
      ensures i in s.reported
    {
      assert s.workers[s.owner[s.issued[i].p]].Stopped?;
    }
    DistinctPermutation(s.reported, WindowNumbers(|s.issued|, c.skip, c.limit));
  }

  /** Listings of the same length, or both longer than the window, have windows of the same size. */
  lemma {:induction false} SameWindow<S, T>(s: seq<S>, t: seq<T>, skip: int, limit: int)
    requires |s| == |t| || (limit != -1 && skip + limit < |s| <= |t|)
    ensures |Window(s, skip, limit)| == |Window(t, skip, limit)|
  {
    WindowIsSlice(s, skip, limit);
    WindowIsSlice(t, skip, limit);
  }

  lemma ReportedCount<V>(c: Config<V>, s: State<V>)
    requires Inv(c, s) && Sound(c) && Finished(s) && |s.workers| > 0
    ensures |s.reported| == |Window(Matched(c.table, c.patterns), c.skip, c.limit)|
  {
    ReportedAreWindow(c, s);
    AllIssued(c, s);
    AllPlacesAreHits(c, |c.patterns|);
    assert c.patterns[..|c.patterns|] == c.patterns;
    SameWindow(s.issued, Matched(c.table, c.patterns), c.skip, c.limit);
  }

  function RowsAt<V>(c: Config<V>, matches: seq<Match>): seq<Row<V>> {
    if matches == [] then []
    else
      var n := |matches| - 1;
      RowsAt(c, matches[..n]) + if matches[n].k < |c.table| then RowsOf(c.table[matches[n].k], c.load) else []
  }

  lemma {:induction false} RowByRow<V>(c: Config<V>, matches: seq<Match>, results: seq<Row<V>>)
    requires |matches| == |results|
    requires forall j :: 0 <= j < |matches| ==>
      matches[j].k < |c.table| && [results[j]] == RowsOf(c.table[matches[j].k], c.load)
    ensures results == RowsAt(c, matches)
  {
    if matches != [] {
      var n := |matches| - 1;
      RowByRow(c, matches[..n], results[..n]);
      assert results == results[..n] + [results[n]];
    }
  }

  /** Whatever the interleaving: no match is reported twice, every row belongs to a match, and the number of
      results is that of one scan over all patterns with the same `skip` and `limit`. */
  lemma EveryInterleaving<V>(c: Config<V>, numWorkers: nat, schedule: seq<nat>) returns (matches: seq<Match>)
    requires Sorted(c.table) && Sound(c) && numWorkers > 0
    requires Finished(Run(c, numWorkers, schedule))
    ensures var s := Run(c, numWorkers, schedule);
      && s.ret && s.results == RowsAt(c, matches) && Distinct(matches)
      && (forall m :: m in matches ==> IsHit(c, m.p, m.k))
      && |s.results| == |matches| == |Window(Matched(c.table, c.patterns), c.skip, c.limit)|
      && (forall j :: 0 <= j < |matches| ==>
            var e := c.table[matches[j].k];
            c.load(e.value).Some? && s.results[j] == Found(e.key, c.load(e.value).value))
  {
    RunKeepsInv(c, numWorkers, schedule);
    var s := Run(c, numWorkers, schedule);
    ReportedCount(c, s);
    matches := ReportedMatches(c, s);
    forall j | 0 <= j < |matches|
      ensures var e := c.table[matches[j].k];
        c.load(e.value).Some? && s.results[j] == Found(e.key, c.load(e.value).value)
    {
      assert IsHit(c, matches[j].p, matches[j].k);
      RowAt(c, matches, j);
    }
  }

  lemma {:induction false} RowAt<V>(c: Config<V>, matches: seq<Match>, j: nat)
    requires j < |matches| && forall m :: m in matches ==> m.k < |c.table| && c.load(c.table[m.k].value).Some?
    ensures var e := c.table[matches[j].k];
      |RowsAt(c, matches)| == |matches| && RowsAt(c, matches)[j] == Found(e.key, c.load(e.value).value)
    decreases |matches|
  {
    var n := |matches| - 1;
    assert matches[n] in matches;
    if n > 0 {
      RowAt(c, matches[..n], if j < n then j else 0);
    } else {
      assert matches[..n] == [];
    }
  }

  lemma ReportedMatches<V>(c: Config<V>, s: State<V>) returns (matches: seq<Match>)
    requires IssuedOk(c, s) && ClaimsOk(c, s) && ReportedOk(c, s) && ResultsOk(c, s) && Sound(c)
    ensures s.ret && s.results == RowsAt(c, matches) && Distinct(matches) && |matches| == |s.reported| == |s.results|
    ensures forall m :: m in matches ==> IsHit(c, m.p, m.k)
    ensures forall j :: 0 <= j < |s.reported| ==> matches[j] == s.issued[s.reported[j]]
  {
    matches := Numbered(s.issued, s.reported);
    forall j | 0 <= j < |matches|
      ensures IsHit(c, matches[j].p, matches[j].k)
    {
      assert IsHit(c, s.issued[s.reported[j]].p, s.issued[s.reported[j]].k);
    }
    RowByRow(c, matches, s.results);
  }

  lemma Numbered(issued: seq<Match>, reported: seq<nat>) returns (matches: seq<Match>)
    requires Distinct(issued) && Distinct(reported) && forall j :: 0 <= j < |reported| ==> reported[j] < |issued|
    ensures |matches| == |reported| && Distinct(matches)
    ensures forall j :: 0 <= j < |reported| ==> matches[j] == issued[reported[j]]
  {
    matches := seq(|reported|, j requires 0 <= j < |reported| => issued[reported[j]]);
    forall i, j | 0 <= i < j < |matches|
      ensures matches[i] != matches[j]
    {
      assert reported[i] != reported[j];
    }
  }

  /** The number of results in plain terms. */
  lemma {:induction false} ResultCount<V>(c: Config<V>, numWorkers: nat, schedule: seq<nat>)
    requires Sorted(c.table) && Sound(c) && numWorkers > 0 && c.skip >= 0 && c.limit >= -1
    requires Finished(Run(c, numWorkers, schedule))
    ensures var total, results := |Matched(c.table, c.patterns)|, Run(c, numWorkers, schedule).results;
      var rest := if total > c.skip then total - c.skip else 0;
      |results| == if c.limit == -1 || rest < c.limit then rest else c.limit
  {
    var matches := EveryInterleaving(c, numWorkers, schedule);
    WindowIsSlice(Matched(c.table, c.patterns), c.skip, c.limit);
  }

  lemma {:induction false} RowsAtTogether<V>(c: Config<V>, s: seq<Match>, t: seq<Match>)
    ensures RowsAt(c, s + t) == RowsAt(c, s) + RowsAt(c, t)
  {
    if t == [] {
      assert s + t == s;
    } else {
      var n := |t| - 1;
      assert (s + t)[..|s| + n] == s + t[..n];
      RowsAtTogether(c, s, t[..n]);
    }
  }

  lemma {:induction false} RowsAtGrow<V>(c: Config<V>, s: seq<Match>, m: Match)
    requires m.k < |c.table|
    ensures RowsAt(c, s + [m]) == RowsAt(c, s) + RowsOf(c.table[m.k], c.load)
  {
    assert (s + [m])[..|s|] == s;
  }

  function Without<T>(s: seq<T>, i: nat): seq<T>
    requires i < |s|
  {
    s[..i] + s[i + 1..]
  }

  /** The rows of one match, as a bag. */
  ghost function Bag<V>(c: Config<V>, m: Match): multiset<Row<V>> {
    if m.k < |c.table| then multiset(RowsOf(c.table[m.k], c.load)) else multiset{}
  }

  lemma {:induction false} RowsAtLast<V>(c: Config<V>, s: seq<Match>, m: Match)
    ensures multiset(RowsAt(c, s + [m])) == multiset(RowsAt(c, s)) + Bag(c, m)
  {
    assert (s + [m])[..|s|] == s;
  }

  lemma {:induction false} RowsAtWithout<V>(c: Config<V>, t: seq<Match>, i: nat)
    requires i < |t|
    ensures multiset(RowsAt(c, t)) == multiset(RowsAt(c, Without(t, i))) + Bag(c, t[i])
    decreases |t|
  {
    var n := |t| - 1;
    WithoutLast(t, i);
    RowsAtLast(c, t[..n], t[n]);
    if i < n {
      RowsAtWithout(c, t[..n], i);
      RowsAtLast(c, Without(t[..n], i), t[n]);
    }
  }

  lemma WithoutLast<T>(t: seq<T>, i: nat)
    requires i < |t|
    ensures t == t[..|t| - 1] + [t[|t| - 1]]
    ensures i == |t| - 1 ==> Without(t, i) == t[..|t| - 1]
    ensures i < |t| - 1 ==> t[..|t| - 1][i] == t[i] && Without(t, i) == Without(t[..|t| - 1], i) + [t[|t| - 1]]
  {
  }

  lemma WithoutBag<T>(t: seq<T>, i: nat)
    requires i < |t|
    ensures multiset(t) == multiset(Without(t, i)) + multiset{t[i]}
  {
    assert t == t[..i] + [t[i]] + t[i + 1..];
  }

  lemma Cancel<T>(s: multiset<T>, t: multiset<T>, x: T)
    requires s + multiset{x} == t + multiset{x}
    ensures s == t
  {
    assert s == (s + multiset{x}) - multiset{x};
    assert t == (t + multiset{x}) - multiset{x};
  }

  lemma PlaceOf<T>(s: seq<T>, t: seq<T>) returns (i: nat)
    requires s != [] && multiset(s) == multiset(t)
    ensures i < |t| && t[i] == s[0]
  {
    assert s[0] in multiset(s);
    i :| 0 <= i < |t| && t[i] == s[0];
  }

  lemma {:induction false} RowsAtPermutation<V>(c: Config<V>, s: seq<Match>, t: seq<Match>)
    requires multiset(s) == multiset(t)
    ensures multiset(RowsAt(c, s)) == multiset(RowsAt(c, t))
    decreases |s|
  {
    if s == [] {
      assert |multiset(t)| == 0;
      assert t == [];
    } else {
      var i := PlaceOf(s, t);
      WithoutBag(s, 0);
      WithoutBag(t, i);
      Cancel(multiset(Without(s, 0)), multiset(Without(t, i)), s[0]);
      RowsAtPermutation(c, Without(s, 0), Without(t, i));
      RowsAtWithout(c, s, 0);
      RowsAtWithout(c, t, i);
    }
  }

  lemma {:induction false} RowsTogether<V>(s: seq<Entry>, t: seq<Entry>, load: string -> Option<V>)
    ensures Rows(s + t, load) == Rows(s, load) + Rows(t, load)
    decreases |t|
  {
    if t == [] {
      NothingMore(s, Rows(s, load));
    } else {
      var n := |t| - 1;
      RowsTogether(s, t[..n], load);
      LastOfBoth(s, t);
      RowsGrow(s + t[..n], t[n], load);
      RowsGrow(t[..n], t[n], load);
      Associative(Rows(s, load), Rows(t[..n], load), RowsOf(t[n], load));
    }
  }

  lemma NothingMore<S, T>(s: seq<S>, t: seq<T>)
    ensures s + [] == s && t + [] == t
  {
  }

  lemma LastOfBoth<T>(s: seq<T>, t: seq<T>)
    requires t != []
    ensures var n := |t| - 1; t == t[..n] + [t[n]] && s + t == (s + t[..n]) + [t[n]]
  {
  }

  lemma {:induction false} NoRows<V>(c: Config<V>, places: seq<Match>, entries: Table)
    requires places == [] && entries == []
    ensures RowsAt(c, places) == Rows(entries, c.load)
  {
  }

  lemma {:induction false} RowsOfOne<V>(c: Config<V>, places: seq<Match>, hits: Table, m: Match, hit: bool,
                                        morePlaces: seq<Match>, moreHits: Table)
    requires RowsAt(c, places) == Rows(hits, c.load) && m.k < |c.table|
    requires morePlaces == places + (if hit then [m] else []) && moreHits == hits + if hit then [c.table[m.k]] else []
    ensures RowsAt(c, morePlaces) == Rows(moreHits, c.load)
  {
    if hit {
      RowsAtGrow(c, places, m);
      RowsGrow(hits, c.table[m.k], c.load);
    } else {
      assert morePlaces == places && moreHits == hits;
    }
  }

  lemma RowsOfNext<V>(c: Config<V>, p: nat, n: nat, pre: string, wild: string)
    requires p < |c.patterns| && n < |c.table| && wild == c.patterns[p] && pre == Prefix(wild)
    requires RowsAt(c, Places(c, p, n)) == Rows(HitsTo(c.table, n, pre, wild), c.load)
    ensures RowsAt(c, Places(c, p, n + 1)) == Rows(HitsTo(c.table, n + 1, pre, wild), c.load)
  {
    RowsOfOne(c, Places(c, p, n), HitsTo(c.table, n, pre, wild), Match(p, n), IsHit(c, p, n),
              Places(c, p, n + 1), HitsTo(c.table, n + 1, pre, wild));
  }

  lemma {:induction false} NoPlaces<V>(c: Config<V>, p: nat, pre: string, wild: string)
    requires p < |c.patterns|
    ensures Places(c, p, 0) == [] && HitsTo(c.table, 0, pre, wild) == []
  {
  }

  lemma {:induction false} RowsOfPlaces<V>(c: Config<V>, p: nat, n: nat, pre: string, wild: string)
    requires p < |c.patterns| && n <= |c.table| && wild == c.patterns[p] && pre == Prefix(wild)
    ensures RowsAt(c, Places(c, p, n)) == Rows(HitsTo(c.table, n, pre, wild), c.load)
  {
    if n == 0 {
      NoPlaces(c, p, pre, wild);
      NoRows(c, Places(c, p, n), HitsTo(c.table, n, pre, wild));
    } else {
      RowsOfPlaces(c, p, n - 1, pre, wild);
      RowsOfNext(c, p, n - 1, pre, wild);
    }
  }

  lemma {:induction false} OneMorePattern<V>(c: Config<V>, n: nat)
    requires 0 < n <= |c.patterns|
    ensures AllPlaces(c, n) == AllPlaces(c, n - 1) + Places(c, n - 1, |c.table|)
    ensures Matched(c.table, c.patterns[..n]) ==
            Matched(c.table, c.patterns[..n - 1]) + Hits(c.table, Prefix(c.patterns[n - 1]), c.patterns[n - 1])
  {
    assert c.patterns[..n][..n - 1] == c.patterns[..n - 1];
  }

  lemma {:induction false} RowsOfAllPlaces<V>(c: Config<V>, n: nat)
    requires n <= |c.patterns|
    ensures RowsAt(c, AllPlaces(c, n)) == Rows(Matched(c.table, c.patterns[..n]), c.load)
  {
    if n == 0 {
      NoRows(c, AllPlaces(c, n), Matched(c.table, c.patterns[..n]));
    } else {
      var wild := c.patterns[n - 1];
      RowsOfAllPlaces(c, n - 1);
      RowsOfPlaces(c, n - 1, |c.table|, Prefix(wild), wild);
      OneMorePattern(c, n);
      RowsOfBoth(c, AllPlaces(c, n - 1), Places(c, n - 1, |c.table|), AllPlaces(c, n),
        Matched(c.table, c.patterns[..n - 1]), Hits(c.table, Prefix(wild), wild), Matched(c.table, c.patterns[..n]));
    }
  }

  lemma {:induction false} RowsOfBoth<V>(c: Config<V>, p1: seq<Match>, p2: seq<Match>, p: seq<Match>, h1: Table,
                                         h2: Table, h: Table)
    requires RowsAt(c, p1) == Rows(h1, c.load) && RowsAt(c, p2) == Rows(h2, c.load) && p == p1 + p2 && h == h1 + h2
    ensures RowsAt(c, p) == Rows(h, c.load)
  {
    RowsAtTogether(c, p1, p2);
    RowsTogether(h1, h2, c.load);
  }

  /** With no `skip` and no `limit` the results are exactly the rows of all matches, in some order. */
  lemma {:induction false} FullResults<V>(c: Config<V>, numWorkers: nat, schedule: seq<nat>)
    requires Sorted(c.table) && Sound(c) && numWorkers > 0 && c.skip <= 0 && c.limit == -1
    requires Finished(Run(c, numWorkers, schedule))
    ensures multiset(Run(c, numWorkers, schedule).results) == multiset(Rows(Matched(c.table, c.patterns), c.load))
  {
    var matches := EveryInterleaving(c, numWorkers, schedule);
    var all := AllPlaces(c, |c.patterns|);
    AllPlacesAreHits(c, |c.patterns|);
    RowsOfAllPlaces(c, |c.patterns|);
    assert c.patterns[..|c.patterns|] == c.patterns;
    WholeWindow(Matched(c.table, c.patterns), c.skip);
    DistinctAll(matches, all);
    RowsAtPermutation(c, matches, all);
  }

  lemma {:induction false} WholeWindow<T>(s: seq<T>, skip: int)
    requires skip <= 0
    ensures Window(s, skip, -1) == s
  {
    WindowIsSlice(s, skip, -1);
  }

  lemma DistinctAll<T>(s: seq<T>, t: seq<T>)
    requires Distinct(s) && Distinct(t) && |s| == |t| && forall x :: x in s ==> x in t
    ensures multiset(s) == multiset(t)
  {
    DistinctMultiset(s);
    DistinctMultiset(t);
    assert multiset(s) <= multiset(t);
    SameSize(multiset(s), multiset(t));
  }

  lemma SameSize<T>(s: multiset<T>, t: multiset<T>)
    requires s <= t && |s| == |t|
    ensures s == t
  {
    assert t == s + (t - s);
    assert |t - s| == 0;
  }

  // ---------------------------------------------------------------------------------------------
  // Runs end
  // ---------------------------------------------------------------------------------------------

  /** A bound on the steps a worker still makes for its pattern. */
  function Left(n: nat, w: Worker): nat {
    match w
    case Idle => 1
    case Claimed(_) => 5 * n + 5
    case Scanning(_, k, _) => if k <= n then 5 * (n - k) + 4 else 4
    case Testing(_, k, _) => if k <= n then 5 * (n - k) + 3 else 3
    case Holding(_, k, _, _, erred) => if k <= n then 5 * (n - k) + (if erred then 1 else 2) else 1
    case Checking(_, k, _, _) => if k <= n then 5 * (n - k) else 0
    case Returning(_, _) => 2
    case Stopped => 0
  }

  function LeftAll(n: nat, workers: seq<Worker>): nat {
    if workers == [] then 0 else Left(n, workers[0]) + LeftAll(n, workers[1..])
  }

  function Times(a: nat, b: nat): nat { if a == 0 then 0 else Times(a - 1, b) + b }

  /** A bound on the steps of all workers. */
  function StepsLeft<V>(c: Config<V>, s: State<V>): nat {
    Times(if s.wildIndex + 1 < |c.patterns| then |c.patterns| - (s.wildIndex + 1) else 0, 5 * |c.table| + 5) +
      LeftAll(|c.table|, s.workers)
  }

  lemma {:induction false} OneMoves(n: nat, workers: seq<Worker>, w: nat, x: Worker)
    requires w < |workers|
    ensures LeftAll(n, workers[w := x]) == LeftAll(n, workers) - Left(n, workers[w]) + Left(n, x)
  {
    if w > 0 {
      assert workers[w := x][1..] == workers[1..][w - 1 := x];
      OneMoves(n, workers[1..], w - 1, x);
    } else {
      assert workers[w := x][1..] == workers[1..];
    }
  }

  predicate InRange(n: nat, w: Worker) {
    match w
    case Scanning(_, k, _) => k <= n
    case Testing(_, k, _) => k < n
    case Holding(_, k, _, _, _) => k < n
    case Checking(_, k, _, _) => k < n
    case _ => true
  }

  lemma WorkersInRange<V>(c: Config<V>, s: State<V>, w: nat)
    requires IssuedOk(c, s) && WorkersOk(c, s) && w < |s.workers|
    ensures InRange(|c.table|, s.workers[w])
  {
    assert WorkerOk(c, s, s.workers[w]);
    if s.workers[w].Holding? || s.workers[w].Checking? {
      assert IsHit(c, s.issued[s.workers[w].i].p, s.issued[s.workers[w].i].k);
    }
  }

  lemma PatternDecreases<V>(c: Config<V>, s: State<V>, w: nat)
    requires w < |s.workers| && PatternOf(s.workers[w]).Some? && InRange(|c.table|, s.workers[w])
    ensures Left(|c.table|, Step(c, s, w).workers[w]) < Left(|c.table|, s.workers[w])
  {
  }

  lemma StepIsAt<V>(c: Config<V>, s: State<V>, w: nat)
    requires w < |s.workers|
    ensures Step(c, s, w).workers == s.workers[w := Step(c, s, w).workers[w]]
    ensures !s.workers[w].Idle? ==> Step(c, s, w).wildIndex == s.wildIndex
  {
  }

  lemma StepsDecrease<V>(c: Config<V>, s: State<V>, w: nat)
    requires Inv(c, s) && w < |s.workers| && !s.workers[w].Stopped?
    ensures StepsLeft(c, Step(c, s, w)) < StepsLeft(c, s)
  {
    StepIsAt(c, s, w);
    OneMoves(|c.table|, s.workers, w, Step(c, s, w).workers[w]);
    if !s.workers[w].Idle? {
      WorkersInRange(c, s, w);
      PatternDecreases(c, s, w);
    }
  }

  /** No run goes on forever: as long as each step is one of a worker that has not stopped, there are at most
      so many. */
  lemma {:induction false} RunsEnd<V>(c: Config<V>, numWorkers: nat, schedule: seq<nat>)
    requires Sorted(c.table)
    requires forall i :: 0 <= i < |schedule| ==>
      schedule[i] < |Run(c, numWorkers, schedule[..i]).workers| &&
        !Run(c, numWorkers, schedule[..i]).workers[schedule[i]].Stopped?
    ensures |schedule| + StepsLeft(c, Run(c, numWorkers, schedule)) <= StepsLeft(c, Start(numWorkers))
  {
    if schedule != [] {
      var n := |schedule| - 1;
      var before := schedule[..n];
      forall i | 0 <= i < n
        ensures before[..i] == schedule[..i]
      {
      }
      RunsEnd(c, numWorkers, before);
      RunKeepsInv(c, numWorkers, before);
      StepsDecrease(c, Run(c, numWorkers, before), schedule[n]);
    }
  }

  lemma {:induction false} RunGoesOn<V>(c: Config<V>, numWorkers: nat, schedule: seq<nat>, w: nat)
    ensures Run(c, numWorkers, schedule + [w]) == Next(c, Run(c, numWorkers, schedule), w)
  {
    assert (schedule + [w])[..|schedule|] == schedule;
  }
}
