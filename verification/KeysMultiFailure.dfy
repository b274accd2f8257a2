/** When `getKeysMulti` reports a refused pattern. Its result flag is read and written in two accesses. */
module KeysMultiFailure {
  import opened Wrappers
  import opened KeyScan
  import opened KeysMulti

  /** Every matching value can be decoded. */
  ghost predicate Decodes<V>(c: Config<V>) {
    forall p: nat, k: nat :: IsHit(c, p, k) ==> c.load(c.table[k].value).Some?
  }

  ghost predicate SomeRefused<V>(c: Config<V>) {
    exists p :: 0 <= p < |c.patterns| && Refused(c.patterns[p])
  }

  /** One worker, or only refused patterns among the first claims. */
  ghost predicate Noticed<V>(c: Config<V>, numWorkers: nat) {
    || numWorkers == 1
    || (numWorkers > 1 && forall p :: 0 <= p < |c.patterns| && p < numWorkers ==> Refused(c.patterns[p]))
  }

  predicate InScan(w: Worker) {
    w.Scanning? || w.Testing? || w.Holding? || w.Checking?
  }

  // ---------------------------------------------------------------------------------------------
  // One worker
  // ---------------------------------------------------------------------------------------------

  /** A single worker lowers the flag at the first refused pattern and never raises it again. */
  ghost predicate Alone<V>(c: Config<V>, s: State<V>) {
    && |s.workers| == 1 && |s.owner| <= |c.patterns|
    && (s.ret ==> forall p :: 0 <= p < |s.owner| && PatternOf(s.workers[0]) != Some(p) ==> !Refused(c.patterns[p]))
    && var w := s.workers[0];
       && (PatternOf(w).Some? ==> w.p < |c.patterns|)
       && (InScan(w) ==> s.ret && !Refused(c.patterns[w.p]))
       && (w.Returning? && w.ok ==> s.ret && !Refused(c.patterns[w.p]))
  }

  lemma StepKeepsAlone<V>(c: Config<V>, s: State<V>)
    requires Alone(c, s) && ClaimsOk(c, s)
    ensures Alone(c, Step(c, s, 0))
  {
  }

  lemma {:induction false} RunIsAlone<V>(c: Config<V>, schedule: seq<nat>)
    requires Sorted(c.table)
    ensures Alone(c, Run(c, 1, schedule))
  {
    if schedule != [] {
      var n := |schedule| - 1;
      RunIsAlone(c, schedule[..n]);
      RunKeepsInv(c, 1, schedule[..n]);
      if schedule[n] == 0 {
        StepKeepsAlone(c, Run(c, 1, schedule[..n]));
      }
    }
  }

  lemma {:induction false} OneWorkerNotices<V>(c: Config<V>, schedule: seq<nat>)
    requires Sorted(c.table) && SomeRefused(c) && Finished(Run(c, 1, schedule))
    ensures !Run(c, 1, schedule).ret
  {
    RunIsAlone(c, schedule);
    RunKeepsInv(c, 1, schedule);
    var s := Run(c, 1, schedule);
    assert WorkerOk(c, s, s.workers[0]);
  }

  // ---------------------------------------------------------------------------------------------
  // Only refused patterns at first
  // ---------------------------------------------------------------------------------------------

  /** No worker scans, and as long as the flag is up each claimed pattern is still with its worker. */
  ghost predicate Doomed<V>(c: Config<V>, s: State<V>) {
    && (forall w :: 0 <= w < |s.workers| ==> DoomedWorker(c, s.ret, s.workers[w]))
    && (s.ret ==> forall p :: 0 <= p < |s.owner| ==>
          s.owner[p] < |s.workers| && PatternOf(s.workers[s.owner[p]]) == Some(p))
  }

  predicate DoomedWorker<V>(c: Config<V>, ret: bool, w: Worker) {
    && !InScan(w)
    && (w.Claimed? ==> w.p < |c.patterns| && (Refused(c.patterns[w.p]) || !ret))
    && (w.Returning? ==> !w.ok)
  }

  function Upto(n: nat): seq<nat> {
    if n == 0 then [] else Upto(n - 1) + [n - 1]
  }

  lemma {:induction false} UptoIs(n: nat)
    ensures |Upto(n)| == n && Distinct(Upto(n)) && forall i: nat :: i in Upto(n) <==> i < n
  {
    if n > 0 {
      UptoIs(n - 1);
      StillDistinct(Upto(n - 1), n - 1);
    }
  }

  /** Distinct workers, and one more, are not more than there are. */
  lemma FewerThan(s: seq<nat>, w: nat, n: nat)
    requires Distinct(s) && w !in s && w < n && forall x :: x in s ==> x < n
    ensures |s| < n
  {
    UptoIs(n);
    StillDistinct(s, w);
    DistinctSubset(s + [w], Upto(n));
  }

  lemma ClaimIsEarly<V>(c: Config<V>, s: State<V>, w: nat)
    requires ClaimsOk(c, s) && Doomed(c, s) && s.ret && w < |s.workers| && s.workers[w].Idle?
    ensures |s.owner| < |s.workers|
  {
    assert Distinct(s.owner);
    FewerThan(s.owner, w, |s.workers|);
  }

  lemma StepIsDoomed<V>(c: Config<V>, s: State<V>, w: nat)
    requires ClaimsOk(c, s) && Doomed(c, s) && w < |s.workers|
    requires s.workers[w].Idle? && s.ret && s.wildIndex + 1 < |c.patterns| ==> Refused(c.patterns[s.wildIndex + 1])
    ensures var t := Step(c, s, w); DoomedWorker(c, t.ret, t.workers[w]) && (t.ret ==> s.ret)
  {
    assert DoomedWorker(c, s.ret, s.workers[w]);
  }

  lemma StepKeepsDoomed<V>(c: Config<V>, s: State<V>, w: nat)
    requires ClaimsOk(c, s) && Doomed(c, s) && w < |s.workers|
    requires forall p :: 0 <= p < |c.patterns| && p < |s.workers| ==> Refused(c.patterns[p])
    ensures Doomed(c, Step(c, s, w))
  {
    if s.workers[w].Idle? && s.ret {
      ClaimIsEarly(c, s, w);
    }
    StepIsDoomed(c, s, w);
    StepIsAt(c, s, w);
  }

  lemma {:induction false} RunIsDoomed<V>(c: Config<V>, numWorkers: nat, schedule: seq<nat>)
    requires Sorted(c.table) && forall p :: 0 <= p < |c.patterns| && p < numWorkers ==> Refused(c.patterns[p])
    ensures Doomed(c, Run(c, numWorkers, schedule))
  {
    if schedule != [] {
      var n := |schedule| - 1;
      RunIsDoomed(c, numWorkers, schedule[..n]);
      RunKeepsInv(c, numWorkers, schedule[..n]);
      if schedule[n] < numWorkers {
        StepKeepsDoomed(c, Run(c, numWorkers, schedule[..n]), schedule[n]);
      }
    }
  }

  lemma {:induction false} RefusedFirstNotices<V>(c: Config<V>, numWorkers: nat, schedule: seq<nat>)
    requires Sorted(c.table) && SomeRefused(c) && numWorkers > 0 && Finished(Run(c, numWorkers, schedule))
    requires forall p :: 0 <= p < |c.patterns| && p < numWorkers ==> Refused(c.patterns[p])
    ensures !Run(c, numWorkers, schedule).ret
  {
    RunIsDoomed(c, numWorkers, schedule);
    RunKeepsInv(c, numWorkers, schedule);
    var s := Run(c, numWorkers, schedule);
    assert WorkerOk(c, s, s.workers[0]);
    assert |s.owner| == |c.patterns| && s.workers[s.owner[0]].Stopped?;
  }

  // ---------------------------------------------------------------------------------------------
  // Losing a failure
  // ---------------------------------------------------------------------------------------------

  /** The first `k` workers have claimed one pattern each. */
  ghost predicate FirstClaims<V>(s: State<V>, k: nat) {
    && k <= |s.workers| && s.wildIndex == k - 1 && s.ret
    && (forall w :: 0 <= w < k ==> s.workers[w] == Claimed(w)) &&
      (forall w :: k <= w < |s.workers| ==> s.workers[w] == Idle)
  }

  lemma OneMoreClaim<V>(c: Config<V>, s: State<V>, k: nat)
    requires FirstClaims(s, k) && k < |s.workers| && k < |c.patterns|
    ensures FirstClaims(Next(c, s, k), k + 1)
  {
  }

  lemma NoClaims<V>(c: Config<V>, numWorkers: nat)
    ensures FirstClaims(Run(c, numWorkers, []), 0) && |Run(c, numWorkers, []).workers| == numWorkers
  {
  }

  lemma ClaimNext<V>(c: Config<V>, numWorkers: nat, schedule: seq<nat>, k: nat)
    requires FirstClaims(Run(c, numWorkers, schedule), k) && k < |c.patterns|
    requires k < numWorkers == |Run(c, numWorkers, schedule).workers|
    ensures FirstClaims(Run(c, numWorkers, schedule + [k]), k + 1)
    ensures numWorkers == |Run(c, numWorkers, schedule + [k]).workers|
  {
    var s := Run(c, numWorkers, schedule);
    RunGoesOn(c, numWorkers, schedule, k);
    OneMoreClaim(c, s, k);
    NextKeepsWorkers(c, s, k);
  }

  lemma {:induction false} ClaimInOrder<V>(c: Config<V>, numWorkers: nat, k: nat) returns (schedule: seq<nat>)
    requires k <= numWorkers && k <= |c.patterns|
    ensures FirstClaims(Run(c, numWorkers, schedule), k) && numWorkers == |Run(c, numWorkers, schedule).workers|
  {
    if k == 0 {
      NoClaims(c, numWorkers);
      schedule := [];
    } else {
      schedule := ClaimInOrder(c, numWorkers, k - 1);
      ClaimNext(c, numWorkers, schedule, k - 1);
      schedule := schedule + [k - 1];
    }
  }

  /** A worker can be run until it stops, whatever the others do not do meanwhile. */
  lemma {:induction false} FinishWorker<V>(c: Config<V>, numWorkers: nat, schedule: seq<nat>, v: nat)
    returns (more: seq<nat>)
    requires Sorted(c.table) && v < numWorkers
    ensures var s, t := Run(c, numWorkers, schedule), Run(c, numWorkers, more);
      && |s.workers| == |t.workers| == numWorkers && t.workers[v].Stopped?
      && forall u :: 0 <= u < numWorkers && u != v ==> t.workers[u] == s.workers[u]
    decreases StepsLeft(c, Run(c, numWorkers, schedule))
  {
    RunKeepsInv(c, numWorkers, schedule);
    var s := Run(c, numWorkers, schedule);
    more := schedule;
    if !s.workers[v].Stopped? {
      RunGoesOn(c, numWorkers, schedule, v);
      StepsDecrease(c, s, v);
      StepIsAt(c, s, v);
      more := FinishWorker(c, numWorkers, schedule + [v], v);
    }
  }

  /** All workers but one are run until they stop. */
  lemma {:induction false} FinishOthers<V>(c: Config<V>, numWorkers: nat, schedule: seq<nat>, keep: nat, k: nat)
    returns (more: seq<nat>)
    requires Sorted(c.table) && keep < numWorkers && k <= numWorkers
    ensures var s, t := Run(c, numWorkers, schedule), Run(c, numWorkers, more);
      && |s.workers| == |t.workers| == numWorkers && t.workers[keep] == s.workers[keep]
      && forall u :: 0 <= u < k && u != keep ==> t.workers[u].Stopped?
    decreases k
  {
    RunKeepsInv(c, numWorkers, schedule);
    if k == 0 {
      more := schedule;
    } else {
      more := FinishOthers(c, numWorkers, schedule, keep, k - 1);
      if k - 1 != keep {
        more := FinishWorker(c, numWorkers, more, k - 1);
      }
    }
  }

  /** The worker is on its way to raise the flag, or has done so. */
  predicate Winning(ret: bool, w: Worker) {
    match w
    case Claimed(_) => false
    case Scanning(_, _, ok) => ok
    case Testing(_, _, ok) => ok
    case Holding(_, _, _, ok, erred) => ok && !erred
    case Checking(_, _, _, ok) => ok
    case Returning(_, ok) => ok
    case _ => ret
  }

  lemma {:induction false} StepKeepsWinning<V>(c: Config<V>, s: State<V>, w: nat)
    requires Inv(c, s) && Decodes(c) && w < |s.workers| && s.wildIndex >= |c.patterns| && Winning(s.ret, s.workers[w])
    ensures var t := Step(c, s, w); t.wildIndex >= |c.patterns| && Winning(t.ret, t.workers[w])
  {
    var worker := s.workers[w];
    if worker.Holding? {
      HoldsHit(c, s, w, worker.p, worker.k, worker.i, worker.ok, worker.erred);
    }
  }

  lemma {:induction false} FinishWinner<V>(c: Config<V>, numWorkers: nat, schedule: seq<nat>, w: nat)
    returns (more: seq<nat>)
    requires Sorted(c.table) && Decodes(c) && w < numWorkers
    requires var s := Run(c, numWorkers, schedule);
      && |s.workers| == numWorkers && s.wildIndex >= |c.patterns| && Winning(s.ret, s.workers[w])
      && forall u :: 0 <= u < numWorkers && u != w ==> s.workers[u].Stopped?
    ensures Finished(Run(c, numWorkers, more)) && Run(c, numWorkers, more).ret
    decreases StepsLeft(c, Run(c, numWorkers, schedule))
  {
    RunKeepsInv(c, numWorkers, schedule);
    var s := Run(c, numWorkers, schedule);
    more := schedule;
    if !s.workers[w].Stopped? {
      RunGoesOn(c, numWorkers, schedule, w);
      StepsDecrease(c, s, w);
      StepIsAt(c, s, w);
      StepKeepsWinning(c, s, w);
      more := FinishWinner(c, numWorkers, schedule + [w], w);
    }
  }

  /** A worker with an accepted pattern reads the flag, lets the others finish, and writes last. */
  lemma {:induction false} FailureIsLost<V>(c: Config<V>, numWorkers: nat, j: nat) returns (schedule: seq<nat>)
    requires Sorted(c.table) && Decodes(c) && numWorkers > 1
    requires j < numWorkers && j < |c.patterns| && !Refused(c.patterns[j])
    ensures Finished(Run(c, numWorkers, schedule)) && Run(c, numWorkers, schedule).ret
  {
    var claimed := ClaimInOrder(c, numWorkers, j + 1);
    RunGoesOn(c, numWorkers, claimed, j);
    schedule := FinishOthers(c, numWorkers, claimed + [j], j, numWorkers);
    RunKeepsInv(c, numWorkers, schedule);
    var s := Run(c, numWorkers, schedule);
    var other := if j == 0 then 1 else 0;
    assert s.workers[other].Stopped? && WorkerOk(c, s, s.workers[other]);
    schedule := FinishWinner(c, numWorkers, schedule, j);
  }

  lemma NoWorkers<V>(c: Config<V>) returns (schedule: seq<nat>)
    ensures Finished(Run(c, 0, schedule)) && Run(c, 0, schedule).ret
  {
    schedule := [];
  }

  /** For a store whose matching values can all be decoded, and patterns of which some are refused: every finished
      run reports the failure exactly when there is one worker, or several and the patterns that they claim first
      are all refused. */
  lemma {:induction false} FailureIsReportedExactly<V>(c: Config<V>, numWorkers: nat)
    requires Sorted(c.table) && Decodes(c) && SomeRefused(c)
    ensures Noticed(c, numWorkers) <==>
      forall schedule :: Finished(Run(c, numWorkers, schedule)) ==> !Run(c, numWorkers, schedule).ret
  {
    if Noticed(c, numWorkers) {
      forall schedule | Finished(Run(c, numWorkers, schedule))
        ensures !Run(c, numWorkers, schedule).ret
      {
        if numWorkers == 1 {
          OneWorkerNotices(c, schedule);
        } else {
          RefusedFirstNotices(c, numWorkers, schedule);
        }
      }
    } else if numWorkers == 0 {
      var schedule := NoWorkers(c);
      assert Finished(Run(c, numWorkers, schedule)) && Run(c, numWorkers, schedule).ret;
    } else {
      var j :| 0 <= j < |c.patterns| && j < numWorkers && !Refused(c.patterns[j]);
      var schedule := FailureIsLost(c, numWorkers, j);
    }
  }

  /** For example, with two workers on an empty store. */
  lemma FailureCanBeLost<V>(load: string -> Option<V>) returns (schedule: seq<nat>)
    ensures var c, s := Config(["*", "a"], [], 0, -1, load), Run(Config(["*", "a"], [], 0, -1, load), 2, schedule);
      Refused(c.patterns[0]) && Finished(s) && s.ret
  {
    schedule := FailureIsLost(Config(["*", "a"], [], 0, -1, load), 2, 1);
  }
}
