/** Merging chains of simple nodes keeps every route. */
module RouteCompaction {
  import opened RoutePatterns
  import opened RouteArena

  /** A node that compaction leaves alone: it has no literal children, or one that is not simple. */
  ghost predicate LocallyCompact(nodes: seq<Node>, i: nat)
    requires Ok(nodes) && i < |nodes|
  {
    assert NodeOk(nodes, i);
    nodes[i].children == map[] || exists f :: f in nodes[i].children && !nodes[nodes[i].children[f]].IsSimpleNode()
  }

  ghost predicate ParamsCompact(nodes: seq<Node>, i: nat)
    requires Ok(nodes) && i < |nodes|
    decreases |nodes| - i, 0
  {
    assert NodeOk(nodes, i);
    forall k :: 0 <= k < 5 && nodes[i].paramChildren[k] != 0 ==> Compact(nodes, nodes[i].paramChildren[k])
  }

  ghost predicate ChildrenCompact(nodes: seq<Node>, i: nat)
    requires Ok(nodes) && i < |nodes|
    decreases |nodes| - i, 0
  {
    assert NodeOk(nodes, i);
    forall f :: f in nodes[i].children ==> Compact(nodes, nodes[i].children[f])
  }

  /** No node below `i` can be merged any further. */
  ghost predicate Compact(nodes: seq<Node>, i: nat)
    requires Ok(nodes) && i < |nodes|
    decreases |nodes| - i, 1
  {
    LocallyCompact(nodes, i) && ParamsCompact(nodes, i) && ChildrenCompact(nodes, i)
  }

  /** What compaction may change: only the literal children of nodes that are not yet compact. */
  ghost predicate Evolves(a: seq<Node>, b: seq<Node>)
    requires Ok(a)
  {
    && |a| == |b|
    && (forall j :: 0 <= j < |a| ==> a[j].ruleIndex == b[j].ruleIndex && a[j].paramChildren == b[j].paramChildren)
    && (forall j :: 0 <= j < |a| && LocallyCompact(a, j) ==> a[j] == b[j])
  }

  /** Everything one call of `OptimizeNode(i)` guarantees about the arena. */
  ghost predicate Optimized(a: seq<Node>, b: seq<Node>, i: nat)
    requires Ok(a)
  {
    && Ok(b)
    && Evolves(a, b)
    && SameRoutes(a, b)
    && (Unambiguous(a) ==> Unambiguous(b))
    && forall j :: 0 <= j < i && j < |a| ==> a[j] == b[j]
  }

  lemma OptimizedTransitive(a: seq<Node>, b: seq<Node>, c: seq<Node>, i: nat, i': nat)
    requires Ok(a) && Optimized(a, b, i) && Optimized(b, c, i') && i <= i'
    ensures Optimized(a, c, i)
  {
    forall j | 0 <= j < |a| && LocallyCompact(a, j)
      ensures a[j] == c[j]
    {
      LocallyCompactStays(a, b, j);
    }
  }

  lemma LocallyCompactStays(a: seq<Node>, b: seq<Node>, j: nat)
    requires Ok(a) && Ok(b) && Evolves(a, b) && j < |a| && LocallyCompact(a, j)
    ensures a[j] == b[j] && LocallyCompact(b, j)
  {
    assert NodeOk(a, j);
    if a[j].children != map[] {
      var f :| f in a[j].children && !a[a[j].children[f]].IsSimpleNode();
      assert !b[b[j].children[f]].IsSimpleNode();
    }
  }

  lemma {:induction false} CompactStays(a: seq<Node>, b: seq<Node>, i: nat)
    requires Ok(a) && Ok(b) && Evolves(a, b) && i < |a| && Compact(a, i)
    ensures Compact(b, i)
    decreases |a| - i, 1
  {
    LocallyCompactStays(a, b, i);
    ParamsCompactStay(a, b, i);
    assert NodeOk(a, i);
    forall f | f in a[i].children
      ensures Compact(b, a[i].children[f])
    {
      CompactStays(a, b, a[i].children[f]);
    }
  }

  lemma {:induction false} ParamsCompactStay(a: seq<Node>, b: seq<Node>, i: nat)
    requires Ok(a) && Ok(b) && Evolves(a, b) && i < |a| && ParamsCompact(a, i)
    ensures ParamsCompact(b, i)
    decreases |a| - i, 0
  {
    assert NodeOk(a, i);
    forall k | 0 <= k < 5 && a[i].paramChildren[k] != 0
      ensures Compact(b, a[i].paramChildren[k])
    {
      CompactStays(a, b, a[i].paramChildren[k]);
    }
  }

  /** From node `i`, fragment `f` and then fragment `g` lead to some node. */
  ghost predicate TwoSteps(nodes: seq<Node>, i: nat, f: string, g: string)
    requires Ok(nodes) && i < |nodes|
  {
    assert NodeOk(nodes, i);
    f in nodes[i].children && g in nodes[nodes[i].children[f]].children
  }

  ghost function Grandchild(nodes: seq<Node>, i: nat, f: string, g: string): nat
    requires Ok(nodes) && i < |nodes| && TwoSteps(nodes, i, f, g)
  {
    assert NodeOk(nodes, i);
    nodes[nodes[i].children[f]].children[g]
  }

  ghost predicate MergeCovers(nodes: seq<Node>, i: nat, merged: map<string, nat>)
    requires Ok(nodes) && i < |nodes|
  {
    forall f, g :: TwoSteps(nodes, i, f, g) ==> f + g in merged && merged[f + g] == Grandchild(nodes, i, f, g)
  }

  ghost predicate MergeComesFrom(nodes: seq<Node>, i: nat, merged: map<string, nat>)
    requires Ok(nodes) && i < |nodes|
  {
    forall h :: h in merged ==>
      exists f, g :: TwoSteps(nodes, i, f, g) && h == f + g && merged[h] == Grandchild(nodes, i, f, g)
  }

  /** `merged` holds exactly the two-step fragments below node `i`. */
  ghost predicate IsMerge(nodes: seq<Node>, i: nat, merged: map<string, nat>)
    requires Ok(nodes) && i < |nodes|
  {
    MergeCovers(nodes, i, merged) && MergeComesFrom(nodes, i, merged)
  }

  ghost predicate Mergeable(nodes: seq<Node>, i: nat)
    requires Ok(nodes) && i < |nodes|
  {
    assert NodeOk(nodes, i);
    forall f :: f in nodes[i].children ==> nodes[nodes[i].children[f]].IsSimpleNode()
  }

  /** Two-step fragments are the same string only when both steps are the same. */
  lemma ConcatenationsAreDistinct(f1: string, g1: string, f2: string, g2: string, fs: set<string>)
    requires PrefixFree(fs) && f1 in fs && f2 in fs && f1 + g1 <= f2 + g2
    ensures f1 == f2 && g1 <= g2
  {
    var u := f2 + g2;
    assert f2 == u[..|f2|];
    assert f1 == u[..|f1|] by {
      assert f1 == (f1 + g1)[..|f1|];
    }
    assert f1 <= f2 || f2 <= f1;
    assert g1 == (f1 + g1)[|f1|..] && g2 == u[|f2|..];
  }

  /** `merged` holds exactly the two-step fragments seen so far. */
  ghost predicate Gathers(nodes: seq<Node>, i: nat, merged: map<string, nat>, seen: set<(string, string)>)
    requires Ok(nodes) && i < |nodes|
  {
    && (forall f, g :: (f, g) in seen ==>
          TwoSteps(nodes, i, f, g) && f + g in merged && merged[f + g] == Grandchild(nodes, i, f, g))
    && forall h :: h in merged ==> exists f, g :: (f, g) in seen && h == f + g
  }

  lemma GathersOneMore(nodes: seq<Node>, i: nat, merged: map<string, nat>, seen: set<(string, string)>, f: string,
                       g: string)
    requires Ok(nodes) && i < |nodes| && PrefixFree(nodes[i].children.Keys)
    requires Gathers(nodes, i, merged, seen) && TwoSteps(nodes, i, f, g)
    ensures Gathers(nodes, i, merged[f + g := Grandchild(nodes, i, f, g)], seen + {(f, g)})
  {
    var more, seen' := merged[f + g := Grandchild(nodes, i, f, g)], seen + {(f, g)};
    forall f', g' | (f', g') in seen'
      ensures TwoSteps(nodes, i, f', g') && f' + g' in more && more[f' + g'] == Grandchild(nodes, i, f', g')
    {
      if f' + g' == f + g {
        ConcatenationsAreDistinct(f', g', f, g, nodes[i].children.Keys);
        assert |g'| == |f' + g'| - |f'| == |g| && g' == g[..|g'|] == g;
      }
    }
    forall h | h in more
      ensures exists f', g' :: (f', g') in seen' && h == f' + g'
    {
      if h == f + g {
        assert (f, g) in seen';
      } else {
        var f', g' :| (f', g') in seen && h == f' + g';
        assert (f', g') in seen';
      }
    }
  }

  lemma GathersAll(nodes: seq<Node>, i: nat, merged: map<string, nat>, seen: set<(string, string)>)
    requires Ok(nodes) && i < |nodes| && Gathers(nodes, i, merged, seen)
    requires forall f, g :: TwoSteps(nodes, i, f, g) ==> (f, g) in seen
    ensures IsMerge(nodes, i, merged)
  {
  }

  lemma MergeIsPrefixFree(nodes: seq<Node>, i: nat, merged: map<string, nat>)
    requires Ok(nodes) && Unambiguous(nodes) && i < |nodes| && MergeComesFrom(nodes, i, merged)
    ensures PrefixFree(merged.Keys)
  {
    var ch := nodes[i].children;
    assert NodeOk(nodes, i);
    forall h, h' | h in merged && h' in merged && h <= h'
      ensures h == h'
    {
      var f, g :| TwoSteps(nodes, i, f, g) && h == f + g;
      var f', g' :| TwoSteps(nodes, i, f', g') && h' == f' + g';
      ConcatenationsAreDistinct(f, g, f', g', ch.Keys);
      assert PrefixFree(nodes[ch[f]].children.Keys);
    }
  }

  lemma MergeIsOk(nodes: seq<Node>, i: nat, merged: map<string, nat>)
    requires Ok(nodes) && i < |nodes| && MergeComesFrom(nodes, i, merged)
    ensures Ok(nodes[i := nodes[i].(children := merged)])
  {
    var nodes' := nodes[i := nodes[i].(children := merged)];
    forall h | h in merged
      ensures h != "" && i < merged[h] < |nodes|
    {
      MergeLinksForward(nodes, i, merged, h);
    }
    forall j | 0 <= j < |nodes'|
      ensures NodeOk(nodes', j)
    {
      assert NodeOk(nodes, j);
    }
  }

  lemma MergeLinksForward(nodes: seq<Node>, i: nat, merged: map<string, nat>, h: string)
    requires Ok(nodes) && i < |nodes| && MergeComesFrom(nodes, i, merged) && h in merged
    ensures h != ""
    ensures exists f :: f in nodes[i].children && i < nodes[i].children[f] < merged[h] < |nodes|
  {
    var ch := nodes[i].children;
    assert NodeOk(nodes, i);
    var f, g :| TwoSteps(nodes, i, f, g) && h == f + g && merged[h] == Grandchild(nodes, i, f, g);
    assert NodeOk(nodes, ch[f]);
  }

  /** Replacing the children of a node by its grandchildren keeps every route. */
  lemma {:induction false} MergeKeepsRoutes(nodes: seq<Node>, nodes': seq<Node>, i: nat, merged: map<string, nat>,
                                            j: nat, ts: seq<Token>, r: nat)
    requires Ok(nodes) && i < |nodes| && j < |nodes| && Mergeable(nodes, i) && IsMerge(nodes, i, merged)
    requires nodes' == nodes[i := nodes[i].(children := merged)] && Ok(nodes')
    ensures Routes(nodes, j, ts, r) <==> Routes(nodes', j, ts, r)
    decreases |ts|, 1
  {
    assert NodeOk(nodes, j) && NodeOk(nodes', j);
    if ts == [] {
    } else if ts[0].Hole? {
      if nodes[j].Param(ts[0].kind) != 0 {
        MergeKeepsRoutes(nodes, nodes', i, merged, nodes[j].Param(ts[0].kind), ts[1..], r);
      }
    } else if j != i {
      forall f | f in nodes[j].children && Spells(f, ts)
        ensures Routes(nodes, nodes[j].children[f], ts[|f|..], r) <==>
          Routes(nodes', nodes[j].children[f], ts[|f|..], r)
      {
        MergeKeepsRoutes(nodes, nodes', i, merged, nodes[j].children[f], ts[|f|..], r);
      }
    } else {
      if Routes(nodes, i, ts, r) {
        MergedNodeGains(nodes, nodes', i, merged, ts, r);
      }
      if Routes(nodes', i, ts, r) {
        MergedNodeLoses(nodes, nodes', i, merged, ts, r);
      }
    }
  }

  lemma {:induction false} MergedNodeGains(nodes: seq<Node>, nodes': seq<Node>, i: nat, merged: map<string, nat>,
                                           ts: seq<Token>, r: nat)
    requires Ok(nodes) && i < |nodes| && Mergeable(nodes, i) && IsMerge(nodes, i, merged)
    requires nodes' == nodes[i := nodes[i].(children := merged)] && Ok(nodes')
    requires ts != [] && ts[0].Lit? && Routes(nodes, i, ts, r)
    ensures Routes(nodes', i, ts, r)
    decreases |ts|, 0
  {
    var h := TwoStepsMerge(nodes, i, merged, ts, r);
    MergeKeepsRoutes(nodes, nodes', i, merged, merged[h], ts[|h|..], r);
    assert NodeOk(nodes', i);
    RoutesThroughFragment(nodes', i, h, ts[|h|..], r);
    assert ts == Lits(h) + ts[|h|..];
  }

  lemma {:induction false} MergedNodeLoses(nodes: seq<Node>, nodes': seq<Node>, i: nat, merged: map<string, nat>,
                                           ts: seq<Token>, r: nat)
    requires Ok(nodes) && i < |nodes| && Mergeable(nodes, i) && IsMerge(nodes, i, merged)
    requires nodes' == nodes[i := nodes[i].(children := merged)] && Ok(nodes')
    requires ts != [] && ts[0].Lit? && Routes(nodes', i, ts, r)
    ensures Routes(nodes, i, ts, r)
    decreases |ts|, 0
  {
    var h := RouteTakesFragment(nodes', i, ts, r);
    MergeKeepsRoutes(nodes, nodes', i, merged, merged[h], ts[|h|..], r);
    MergeIsTwoSteps(nodes, i, merged, h, ts[|h|..], r);
  }

  lemma LitsConcat(f: string, g: string, ts: seq<Token>)
    ensures Lits(f + g) == Lits(f) + Lits(g)
    ensures Spells(f, ts) && Spells(g, ts[|f|..]) ==> Spells(f + g, ts) && ts[|f|..][|g|..] == ts[|f + g|..]
  {
    if Spells(f, ts) && Spells(g, ts[|f|..]) {
      var fg := |f| + |g|;
      assert ts[..fg] == ts[..|f|] + ts[|f|..][..|g|];
    }
  }

  lemma LitsAssociate(f: string, g: string, rest: seq<Token>)
    ensures Lits(f + g) + rest == Lits(f) + (Lits(g) + rest)
  {
    LitsConcat(f, g, rest);
  }

  lemma TwoStepsMerge(nodes: seq<Node>, i: nat, merged: map<string, nat>, ts: seq<Token>, r: nat) returns (h: string)
    requires Ok(nodes) && i < |nodes| && Mergeable(nodes, i) && MergeCovers(nodes, i, merged)
    requires Routes(nodes, i, ts, r) && ts != [] && ts[0].Lit?
    ensures h in merged && h != "" && merged[h] < |nodes| && Spells(h, ts) && Routes(nodes, merged[h], ts[|h|..], r)
  {
    assert NodeOk(nodes, i);
    var ch := nodes[i].children;
    var f := RouteTakesFragment(nodes, i, ts, r);
    assert ts[|f|..] != [] && ts[|f|..][0].Lit? by {
      assert NodeOk(nodes, ch[f]) && nodes[ch[f]].IsSimpleNode();
    }
    var g := RouteTakesFragment(nodes, ch[f], ts[|f|..], r);
    LitsConcat(f, g, ts);
    assert TwoSteps(nodes, i, f, g);
    h := f + g;
  }

  lemma {:induction false} TwoStepsRoute(nodes: seq<Node>, i: nat, f: string, g: string, ts: seq<Token>, r: nat)
    requires Ok(nodes) && i < |nodes| && TwoSteps(nodes, i, f, g) && Grandchild(nodes, i, f, g) < |nodes|
    requires Routes(nodes, Grandchild(nodes, i, f, g), ts, r)
    ensures Routes(nodes, i, Lits(f) + (Lits(g) + ts), r)
  {
    assert NodeOk(nodes, i);
    assert NodeOk(nodes, nodes[i].children[f]);
    RoutesThroughFragment(nodes, nodes[i].children[f], g, ts, r);
    RoutesThroughFragment(nodes, i, f, Lits(g) + ts, r);
  }

  lemma {:induction false} MergeIsTwoSteps(nodes: seq<Node>, i: nat, merged: map<string, nat>, h: string,
                                           rest: seq<Token>, r: nat)
    requires Ok(nodes) && i < |nodes| && MergeComesFrom(nodes, i, merged)
    requires h in merged && merged[h] < |nodes| && Routes(nodes, merged[h], rest, r)
    ensures Routes(nodes, i, Lits(h) + rest, r)
  {
    var f, g :| TwoSteps(nodes, i, f, g) && h == f + g && merged[h] == Grandchild(nodes, i, f, g);
    LitsAssociate(f, g, rest);
    TwoStepsRoute(nodes, i, f, g, rest, r);
  }

  /** One merge is a step of compaction. */
  lemma MergeOptimizes(nodes: seq<Node>, i: nat, merged: map<string, nat>)
    requires Ok(nodes) && i < |nodes| && Mergeable(nodes, i) && IsMerge(nodes, i, merged)
    requires nodes[i].children != map[]
    ensures Optimized(nodes, nodes[i := nodes[i].(children := merged)], i)
  {
    var nodes' := nodes[i := nodes[i].(children := merged)];
    MergeIsOk(nodes, i, merged);
    if Unambiguous(nodes) {
      MergeIsPrefixFree(nodes, i, merged);
    }
    forall j, ts, r | 0 <= j < |nodes|
      ensures Routes(nodes, j, ts, r) <==> Routes(nodes', j, ts, r)
    {
      MergeKeepsRoutes(nodes, nodes', i, merged, j, ts, r);
    }
  }

  /** Only one pattern below node `i` has rule `r`. */
  ghost predicate OnePattern(nodes: seq<Node>, i: nat, r: nat)
    requires Ok(nodes) && i < |nodes|
  {
    forall ts, ts' :: Routes(nodes, i, ts, r) && Routes(nodes, i, ts', r) ==> ts == ts'
  }

  /** The best answer of a compacted arena is the best answer of the arena: the same rule, and the same
      parameters when one pattern has the rule. */
  lemma CompactionKeepsBest(a: seq<Node>, b: seq<Node>, k: nat, i: nat, url: string, pos: nat, ps: Params,
                            strtod: Strtod, r1: nat, p1: Params, r2: nat, p2: Params)
    requires Ok(a) && Optimized(a, b, k) && i < |a| && pos <= |url|
    requires IsBest(Answers(a, i, url, pos, ps, strtod), r1, p1)
    requires IsBest(Answers(b, i, url, pos, ps, strtod), r2, p2)
    ensures r1 == r2
    ensures r1 != 0 && OnePattern(a, i, r1) ==> p1 == p2
  {
    assert Answers(a, i, url, pos, ps, strtod) == Answers(b, i, url, pos, ps, strtod);
    if r1 != 0 && r2 != 0 {
      assert (r1, p1) in Answers(a, i, url, pos, ps, strtod) && (r2, p2) in Answers(a, i, url, pos, ps, strtod);
    }
  }
}
