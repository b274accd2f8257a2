/** The URL routing trie: an arena of nodes linked by index, built by `Add`, compacted in place by
    `OptimizeNode`, and searched with backtracking by `Find`; and the router on top of it.

    The abstract value of a trie is `table`, a finite map from token paths to rule indices.  `Add`
    extends the table, compaction keeps it, and `Find` answers from it. */
module RouteTrie {
  import opened Wrappers
  import opened RoutePatterns
  import opened RouteArena
  import opened RouteCompaction
  import opened RouteBuilding

  /** The parameters collected on the way down, shared by every level of the search. */
  class RoutingParams {
    var ints: seq<int>
    var uints: seq<nat>
    var doubles: seq<real>
    var strings: seq<string>

    constructor ()
      ensures Value() == NO_PARAMS
    {
      ints, uints, doubles, strings := [], [], [], [];
    }

    function Value(): Params
      reads this
    {
      Params(ints, uints, doubles, strings)
    }
  }

  class Trie {
    var nodes: seq<Node>
    ghost var table: map<seq<Token>, nat>
    ghost var pathTo: seq<seq<Token>>

    ghost predicate Valid()
      reads this
    {
      Ok(nodes) && Unambiguous(nodes) && Holds(nodes, table)
    }

    /** Not compacted yet: this is when rules may still be added. */
    ghost predicate Building()
      reads this
    {
      Valid() && OneCharacter(nodes) && IsTree(nodes, pathTo)
    }

    constructor ()
      ensures Building() && table == map[]
    {
      nodes := [EMPTY_NODE];
      table := map[];
      pathTo := [[]];
      new;
      assert NodeOk(nodes, 0);
      forall ts, r
        ensures !Routes(nodes, 0, ts, r)
      {
        assert NodeOk(nodes, 0);
      }
    }

    /** The child of node `idx` for one token, created when it is missing. */
    method ChildFor(idx: nat, t: Token) returns (child: nat)
      requires Building() && idx < |nodes|
      modifies this
      ensures Building() && table == old(table)
      ensures child < |nodes| && pathTo[child] == old(pathTo)[idx] + [t]
    {
      assert NodeOk(nodes, idx);
      ghost var before := nodes;
      child := |nodes|;
      match t {
        case Hole(kind) =>
          if nodes[idx].Param(kind) != 0 {
            child := nodes[idx].Param(kind);
            assert Step(nodes, idx, t) == Some(child);
            return;
          }
          nodes := nodes + [EMPTY_NODE];
          nodes := nodes[idx := nodes[idx].(paramChildren := nodes[idx].paramChildren[Slot(kind) := child])];
        case Lit(c) =>
          if [c] in nodes[idx].children {
            child := nodes[idx].children[[c]];
            assert Step(nodes, idx, t) == Some(child);
            return;
          }
          nodes := nodes + [EMPTY_NODE];
          nodes := nodes[idx := nodes[idx].(children := nodes[idx].children[[c] := child])];
      }
      assert nodes == Grown(before, idx, t);
      GrowthKeepsBuilding(before, idx, t, table, pathTo);
      pathTo := pathTo + [pathTo[idx] + [t]];
    }

    /** Registers a pattern.  False is the exception for a pattern whose path already has a rule. */
    method Add(url: string, rule: nat) returns (ok: bool)
      requires Building() && KnownTags(url, 0)
      modifies this
      ensures Building()
      ensures ok <==> Tokens(url, 0) !in old(table)
      ensures table == if ok && rule != 0 then old(table)[Tokens(url, 0) := rule] else old(table)
    {
      var idx: nat, i: nat := 0, 0;
      ghost var done: seq<Token> := [];
      while i < |url|
        invariant Building() && table == old(table)
        invariant idx < |nodes| && pathTo[idx] == done
        invariant i <= |url| && KnownTags(url, i) && SplitsAt(url, i, done)
      {
        var token, len := ReadToken(url, i, done);
        idx := ChildFor(idx, token);
        done := done + [token];
        i := i + len;
      }
      assert pathTo[idx] == Tokens(url, 0);
      ok := SetRule(idx, rule);
    }

    /** The end of `Add`: gives a rule to a node that has none. */
    method SetRule(idx: nat, rule: nat) returns (ok: bool)
      requires Building() && idx < |nodes|
      modifies this
      ensures Building()
      ensures ok <==> old(pathTo)[idx] !in old(table)
      ensures table == if ok && rule != 0 then old(table)[old(pathTo)[idx] := rule] else old(table)
    {
      ghost var toks := pathTo[idx];
      assert Walk(nodes, 0, pathTo[idx]) == Some(idx);
      RoutesAreWalks(nodes, 0, toks, nodes[idx].ruleIndex);
      if nodes[idx].ruleIndex != 0 {
        return false;
      }
      ghost var before := nodes;
      RuleKeepsBuilding(nodes, pathTo, table, idx, rule, toks);
      nodes := nodes[idx := nodes[idx].(ruleIndex := rule)];
      if rule == 0 {
        assert nodes == before;
      } else {
        table := table[toks := rule];
      }
      return true;
    }

    /** The literal children of node `i` with their own literal children, under joined fragments. */
    method MergedChildren(i: nat) returns (merged: map<string, nat>)
      requires Ok(nodes) && Unambiguous(nodes) && i < |nodes|
      ensures IsMerge(nodes, i, merged)
    {
      merged := map[];
      var children := nodes[i].children;
      var rest := children.Keys;
      ghost var seen: set<(string, string)> := {};
      while rest != {}
        invariant rest <= children.Keys && Gathers(nodes, i, merged, seen)
        invariant forall f, g :: TwoSteps(nodes, i, f, g) && f !in rest ==> (f, g) in seen
        decreases |rest|
      {
        var f :| f in rest;
        merged, seen := MergeOne(i, f, merged, seen);
        rest := rest - {f};
      }
      GathersAll(nodes, i, merged, seen);
    }

    /** The inner loop: the literal children of one child. */
    method MergeOne(i: nat, f: string, merged: map<string, nat>, ghost seen: set<(string, string)>)
      returns (more: map<string, nat>, ghost all: set<(string, string)>)
      requires Ok(nodes) && Unambiguous(nodes) && i < |nodes| && f in nodes[i].children &&
        Gathers(nodes, i, merged, seen)
      ensures Gathers(nodes, i, more, all) && seen <= all
      ensures forall g :: TwoSteps(nodes, i, f, g) ==> (f, g) in all
    {
      more, all := merged, seen;
      assert NodeOk(nodes, i);
      var child := nodes[nodes[i].children[f]];
      var todo := child.children.Keys;
      while todo != {}
        invariant todo <= child.children.Keys && Gathers(nodes, i, more, all) && seen <= all
        invariant forall g :: g in child.children && g !in todo ==> (f, g) in all
        decreases |todo|
      {
        var g :| g in todo;
        GathersOneMore(nodes, i, more, all, f, g);
        more, all := more[f + g := child.children[g]], all + {(f, g)};
        todo := todo - {g};
      }
    }

    /** Merges chains of simple nodes below node `i`, in place.  `low` bounds the indices of the literal
        children from below; every merge raises that bound, which is why the recursion ends. */
    method OptimizeNode(i: nat, ghost low: nat)
      requires Ok(nodes) && Unambiguous(nodes) && i < |nodes| && low <= |nodes|
      requires forall f :: f in nodes[i].children ==> low <= nodes[i].children[f]
      modifies this`nodes
      ensures Optimized(old(nodes), nodes, i) && Compact(nodes, i)
      decreases |nodes| - i, |nodes| - low
    {
      ghost var start := nodes;
      assert NodeOk(nodes, i);
      OptimizeParams(i);
      assert NodeOk(nodes, i);
      if nodes[i].children == map[] {
        return;
      }
      var mergeWithChild := AllChildrenSimple(i);
      if mergeWithChild {
        ghost var mid := nodes;
        var merged := MergedChildren(i);
        MergeOptimizes(nodes, i, merged);
        nodes := nodes[i := nodes[i].(children := merged)];
        forall h | h in merged
          ensures low + 1 <= merged[h]
        {
          MergeLinksForward(mid, i, merged, h);
        }
        OptimizedTransitive(start, mid, nodes, i, i);
        ghost var joined := nodes;
        OptimizeNode(i, low + 1);
        OptimizedTransitive(start, joined, nodes, i, i);
      } else {
        ghost var mid := nodes;
        OptimizeChildren(i);
        OptimizedTransitive(start, mid, nodes, i, i);
      }
    }

    /** The first loop of the source's `optimizeNode`. */
    method OptimizeParams(i: nat)
      requires Ok(nodes) && Unambiguous(nodes) && i < |nodes|
      modifies this`nodes
      ensures Optimized(old(nodes), nodes, i + 1) && ParamsCompact(nodes, i)
      decreases |nodes| - i, 0, 0
    {
      ghost var start := nodes;
      assert NodeOk(nodes, i);
      var params := nodes[i].paramChildren;
      for k := 0 to 5
        invariant Optimized(start, nodes, i + 1) && Unambiguous(nodes)
        invariant forall k' :: 0 <= k' < k && params[k'] != 0 ==> Compact(nodes, params[k'])
      {
        if params[k] != 0 {
          ghost var mid := nodes;
          assert NodeOk(nodes, params[k]);
          OptimizeNode(params[k], 0);
          OptimizedTransitive(start, mid, nodes, i + 1, params[k]);
          forall k' | 0 <= k' < k && params[k'] != 0
            ensures Compact(nodes, params[k'])
          {
            CompactStays(mid, nodes, params[k']);
          }
        }
      }
    }

    method AllChildrenSimple(i: nat) returns (simple: bool)
      requires Ok(nodes) && i < |nodes|
      ensures simple <==> Mergeable(nodes, i)
    {
      assert NodeOk(nodes, i);
      var children := nodes[i].children;
      var rest := children.Keys;
      while rest != {}
        invariant rest <= children.Keys
        invariant forall f :: f in children && f !in rest ==> nodes[children[f]].IsSimpleNode()
        decreases |rest|
      {
        var f :| f in rest;
        if !nodes[children[f]].IsSimpleNode() {
          return false;
        }
        rest := rest - {f};
      }
      return true;
    }

    /** The last loop of the source's `optimizeNode`, for a node that cannot be merged. */
    method OptimizeChildren(i: nat)
      requires Ok(nodes) && Unambiguous(nodes) && i < |nodes| && !Mergeable(nodes, i) && ParamsCompact(nodes, i)
      modifies this`nodes
      ensures Optimized(old(nodes), nodes, i) && Compact(nodes, i)
      decreases |nodes| - i, 0, 0
    {
      ghost var start := nodes;
      assert NodeOk(nodes, i);
      var children := nodes[i].children;
      var rest := children.Keys;
      while rest != {}
        invariant rest <= children.Keys
        invariant Optimized(start, nodes, i + 1) && Unambiguous(nodes)
        invariant forall f :: f in children && f !in rest ==> Compact(nodes, children[f])
        decreases |rest|
      {
        var f :| f in rest;
        ghost var mid := nodes;
        OptimizeNode(children[f], 0);
        OptimizedTransitive(start, mid, nodes, i + 1, children[f]);
        forall f' | f' in children && f' !in rest
          ensures Compact(nodes, children[f'])
        {
          CompactStays(mid, nodes, children[f']);
        }
        rest := rest - {f};
      }
      ParamsCompactStay(start, nodes, i);
      assert LocallyCompact(nodes, i) by {
        assert nodes[i] == start[i];
        assert LocallyCompact(start, i);
        LocallyCompactStays(start, nodes, i);
      }
      assert NodeOk(nodes, i);
    }

    /** Compacts the whole trie.  False is the exception for a head that is not a simple node. */
    method Validate() returns (ok: bool)
      requires Valid()
      modifies this`nodes
      ensures Valid() && table == old(table)
      ensures ok == old(nodes)[0].IsSimpleNode()
      ensures if ok then Optimized(old(nodes), nodes, 0) && Compact(nodes, 0) else nodes == old(nodes)
    {
      ok := nodes[0].IsSimpleNode();
      if ok {
        ghost var before := nodes;
        OptimizeNode(0, 0);
        forall ts, r
          ensures Routes(nodes, 0, ts, r) <==> ts in table && table[ts] == r
        {
          assert Routes(before, 0, ts, r) <==> ts in table && table[ts] == r;
        }
      }
    }

    /** Searches from node `i`.  `params` holds the parameters collected on the way down; every push is
        undone before the call returns. */
    method Find(url: string, i: nat, pos: nat, params: RoutingParams, strtod: Strtod)
      returns (found: nat, matched: Params)
      requires Ok(nodes) && i < |nodes| && pos <= |url|
      modifies params
      ensures params.Value() == old(params.Value())
      ensures IsBest(Answers(nodes, i, url, pos, old(params.Value()), strtod), found, matched)
      ensures found == 0 ==> matched == if pos == |url| then old(params.Value()) else NO_PARAMS
      decreases |nodes| - i, 2
    {
      ghost var ps := params.Value();
      if pos == |url| {
        AnswersAtEnd(nodes, i, url, ps, strtod);
        return nodes[i].ruleIndex, params.Value();
      }
      AnswersByStep(nodes, i, url, pos, ps, strtod);
      found, matched := FindInt(url, i, pos, params, strtod);
      ghost var seen := HoleAnswers(nodes, i, Int, url, pos, ps, strtod);
      var r, p := FindUInt(url, i, pos, params, strtod);
      BestOfUnion(seen, found, matched, HoleAnswers(nodes, i, UInt, url, pos, ps, strtod), r, p);
      if Improves(found, r) { found, matched := r, p; }
      seen := seen + HoleAnswers(nodes, i, UInt, url, pos, ps, strtod);
      r, p := FindDouble(url, i, pos, params, strtod);
      BestOfUnion(seen, found, matched, HoleAnswers(nodes, i, Double, url, pos, ps, strtod), r, p);
      if Improves(found, r) { found, matched := r, p; }
      seen := seen + HoleAnswers(nodes, i, Double, url, pos, ps, strtod);
      r, p := FindString(url, i, pos, params, strtod);
      BestOfUnion(seen, found, matched, HoleAnswers(nodes, i, Str, url, pos, ps, strtod), r, p);
      if Improves(found, r) { found, matched := r, p; }
      seen := seen + HoleAnswers(nodes, i, Str, url, pos, ps, strtod);
      r, p := FindPath(url, i, pos, params, strtod);
      BestOfUnion(seen, found, matched, HoleAnswers(nodes, i, Path, url, pos, ps, strtod), r, p);
      if Improves(found, r) { found, matched := r, p; }
      seen := seen + HoleAnswers(nodes, i, Path, url, pos, ps, strtod);
      r, p := FindChildren(url, i, pos, params, strtod);
      BestOfUnion(seen, found, matched, FragmentAnswers(nodes, i, nodes[i].children.Keys, url, pos, ps, strtod), r, p);
      if Improves(found, r) { found, matched := r, p; }
    }

    method FindInt(url: string, i: nat, pos: nat, params: RoutingParams, strtod: Strtod)
      returns (found: nat, matched: Params)
      requires Ok(nodes) && i < |nodes| && pos < |url|
      modifies params
      ensures params.Value() == old(params.Value())
      ensures IsBest(HoleAnswers(nodes, i, Int, url, pos, old(params.Value()), strtod), found, matched)
      ensures found == 0 ==> matched == NO_PARAMS
      decreases |nodes| - i, 1
    {
      found, matched := 0, NO_PARAMS;
      assert NodeOk(nodes, i);
      var child := nodes[i].Param(Int);
      if child != 0 && (IsDigit(url[pos]) || url[pos] == '+' || url[pos] == '-') {
        var v := Strtoll(url, pos);
        if v.Some? {
          params.ints := params.ints + [v.value.0];
          var r, p := Find(url, child, v.value.1, params, strtod);
          if Improves(found, r) { found, matched := r, p; }
          params.ints := params.ints[..|params.ints| - 1];
        }
      }
    }

    method FindUInt(url: string, i: nat, pos: nat, params: RoutingParams, strtod: Strtod)
      returns (found: nat, matched: Params)
      requires Ok(nodes) && i < |nodes| && pos < |url|
      modifies params
      ensures params.Value() == old(params.Value())
      ensures IsBest(HoleAnswers(nodes, i, UInt, url, pos, old(params.Value()), strtod), found, matched)
      ensures found == 0 ==> matched == NO_PARAMS
      decreases |nodes| - i, 1
    {
      found, matched := 0, NO_PARAMS;
      assert NodeOk(nodes, i);
      var child := nodes[i].Param(UInt);
      if child != 0 && (IsDigit(url[pos]) || url[pos] == '+') {
        var v := Strtoull(url, pos);
        if v.Some? {
          params.uints := params.uints + [v.value.0];
          var r, p := Find(url, child, v.value.1, params, strtod);
          if Improves(found, r) { found, matched := r, p; }
          params.uints := params.uints[..|params.uints| - 1];
        }
      }
    }

    method FindDouble(url: string, i: nat, pos: nat, params: RoutingParams, strtod: Strtod)
      returns (found: nat, matched: Params)
      requires Ok(nodes) && i < |nodes| && pos < |url|
      modifies params
      ensures params.Value() == old(params.Value())
      ensures IsBest(HoleAnswers(nodes, i, Double, url, pos, old(params.Value()), strtod), found, matched)
      ensures found == 0 ==> matched == NO_PARAMS
      decreases |nodes| - i, 1
    {
      found, matched := 0, NO_PARAMS;
      assert NodeOk(nodes, i);
      var child := nodes[i].Param(Double);
      if child != 0 && (IsDigit(url[pos]) || url[pos] == '+' || url[pos] == '-' || url[pos] == '.') {
        var v := strtod(url, pos);
        if v.Some? {
          params.doubles := params.doubles + [v.value.0];
          var r, p := Find(url, child, v.value.1, params, strtod);
          if Improves(found, r) { found, matched := r, p; }
          params.doubles := params.doubles[..|params.doubles| - 1];
        }
      }
    }

    method FindString(url: string, i: nat, pos: nat, params: RoutingParams, strtod: Strtod)
      returns (found: nat, matched: Params)
      requires Ok(nodes) && i < |nodes| && pos < |url|
      modifies params
      ensures params.Value() == old(params.Value())
      ensures IsBest(HoleAnswers(nodes, i, Str, url, pos, old(params.Value()), strtod), found, matched)
      ensures found == 0 ==> matched == NO_PARAMS
      decreases |nodes| - i, 1
    {
      found, matched := 0, NO_PARAMS;
      assert NodeOk(nodes, i);
      var child := nodes[i].Param(Str);
      if child != 0 {
        var epos := pos;
        while epos < |url|
          invariant pos <= epos <= |url| && SlashOrEnd(url, epos) == SlashOrEnd(url, pos)
        {
          if url[epos] == '/' {
            break;
          }
          epos := epos + 1;
        }
        if epos != pos {
          params.strings := params.strings + [url[pos..epos]];
          var r, p := Find(url, child, epos, params, strtod);
          if Improves(found, r) { found, matched := r, p; }
          params.strings := params.strings[..|params.strings| - 1];
        }
      }
    }

    method FindPath(url: string, i: nat, pos: nat, params: RoutingParams, strtod: Strtod)
      returns (found: nat, matched: Params)
      requires Ok(nodes) && i < |nodes| && pos < |url|
      modifies params
      ensures params.Value() == old(params.Value())
      ensures IsBest(HoleAnswers(nodes, i, Path, url, pos, old(params.Value()), strtod), found, matched)
      ensures found == 0 ==> matched == NO_PARAMS
      decreases |nodes| - i, 1
    {
      found, matched := 0, NO_PARAMS;
      assert NodeOk(nodes, i);
      var child := nodes[i].Param(Path);
      if child != 0 {
        var epos := |url|;
        assert url[pos..epos] == url[pos..];
        params.strings := params.strings + [url[pos..epos]];
        var r, p := Find(url, child, epos, params, strtod);
        if Improves(found, r) { found, matched := r, p; }
        params.strings := params.strings[..|params.strings| - 1];
      }
    }

    /** One round of the loop over the literal children. */
    method FindChild(url: string, i: nat, f: string, pos: nat, params: RoutingParams, strtod: Strtod)
      returns (found: nat, matched: Params)
      requires Ok(nodes) && i < |nodes| && pos < |url| && f in nodes[i].children
      modifies params
      ensures params.Value() == old(params.Value())
      ensures IsBest(FragmentAnswers(nodes, i, {f}, url, pos, old(params.Value()), strtod), found, matched)
      decreases |nodes| - i, 0
    {
      found, matched := 0, NO_PARAMS;
      assert NodeOk(nodes, i);
      var child := nodes[i].children[f];
      if StartsAt(url, pos, f) {
        assert FragmentAnswers(nodes, i, {f}, url, pos, params.Value(), strtod) ==
          Answers(nodes, child, url, pos + |f|, params.Value(), strtod);
        found, matched := Find(url, child, pos + |f|, params, strtod);
      }
    }

    /** The loop over the literal children, in any order. */
    method FindChildren(url: string, i: nat, pos: nat, params: RoutingParams, strtod: Strtod)
      returns (found: nat, matched: Params)
      requires Ok(nodes) && i < |nodes| && pos < |url|
      modifies params
      ensures params.Value() == old(params.Value())
      ensures IsBest(FragmentAnswers(nodes, i, nodes[i].children.Keys, url, pos, old(params.Value()), strtod), found,
        matched)
      ensures found == 0 ==> matched == NO_PARAMS
      decreases |nodes| - i, 1
    {
      ghost var ps := params.Value();
      found, matched := 0, NO_PARAMS;
      assert NodeOk(nodes, i);
      var rest := nodes[i].children.Keys;
      ghost var done: set<string> := {};
      while rest != {}
        invariant done + rest == nodes[i].children.Keys
        invariant params.Value() == ps
        invariant IsBest(FragmentAnswers(nodes, i, done, url, pos, ps, strtod), found, matched)
        invariant found == 0 ==> matched == NO_PARAMS
        decreases |rest|
      {
        var f :| f in rest;
        var r, p := FindChild(url, i, f, pos, params, strtod);
        FragmentAnswersGrow(nodes, i, done, f, url, pos, ps, strtod);
        BestOfUnion(FragmentAnswers(nodes, i, done, url, pos, ps, strtod), found, matched,
                    FragmentAnswers(nodes, i, {f}, url, pos, ps, strtod), r, p);
        if Improves(found, r) { found, matched := r, p; }
        done := done + {f};
        rest := rest - {f};
      }
      assert done == nodes[i].children.Keys;
    }

    /** A search from node `i` before and after its compaction: the same rule, with the same parameters when
        one pattern below the node has it. */
    method FindAroundOptimize(url: string, i: nat, pos: nat, params: RoutingParams, strtod: Strtod)
      returns (found: nat, matched: Params, later: nat, again: Params)
      requires Ok(nodes) && Unambiguous(nodes) && i < |nodes| && pos <= |url|
      modifies this`nodes, params
      ensures Optimized(old(nodes), nodes, i) && params.Value() == old(params.Value())
      ensures IsBest(Answers(old(nodes), i, url, pos, old(params.Value()), strtod), found, matched)
      ensures later == found
      ensures found == 0 || OnePattern(old(nodes), i, found) ==> again == matched
    {
      ghost var before, ps := nodes, params.Value();
      found, matched := Find(url, i, pos, params, strtod);
      OptimizeNode(i, 0);
      later, again := Find(url, i, pos, params, strtod);
      CompactionKeepsBest(before, nodes, i, i, url, pos, ps, strtod, found, matched, later, again);
    }

    /** `find(url)`: the smallest registered rule whose pattern matches, with that rule's parameters. */
    method FindRule(url: string, strtod: Strtod) returns (found: nat, matched: Params)
      requires Valid()
      ensures IsBest(TableAnswers(table, url, strtod), found, matched)
      ensures found == 0 ==> matched == NO_PARAMS
    {
      var params := new RoutingParams();
      found, matched := Find(url, 0, 0, params, strtod);
      AnswersAreTheTables(nodes, table, url, strtod);
    }
  }

  // ---------------------------------------------------------------------------------------------
  // The router on top of the trie
  // ---------------------------------------------------------------------------------------------

  const RULE_SPECIAL_REDIRECT_SLASH := 1

  lemma NextTokenWithoutSlash(url: string, i: nat)
    requires i + 1 < |url| && url[|url| - 1] == '/'
    ensures NextToken(url[..|url| - 1], i) == NextToken(url, i)
  {
    assert forall j: nat, c :: c != '/' ==> Is(url[..|url| - 1], j, c) == Is(url, j, c);
  }

  /** Dropping a trailing slash leaves a pattern with known tags. */
  lemma {:induction false} KnownTagsWithoutSlash(url: string, i: nat)
    requires i < |url| && url[|url| - 1] == '/' && KnownTags(url, i)
    ensures KnownTags(url[..|url| - 1], i)
    decreases |url| - i
  {
    var short := url[..|url| - 1];
    if i < |short| {
      NextTokenWithoutSlash(url, i);
      KnownTagsWithoutSlash(url, i + NextToken(url, i).value.1);
    }
  }

  class Router {
    const trie: Trie
    var ruleCount: nat

    /** Rule numbers are in range, and every number from 2 on belongs to one pattern. */
    ghost predicate Numbered()
      reads this, trie
    {
      && 2 <= ruleCount
      && (forall ts :: ts in trie.table ==> 1 <= trie.table[ts] < ruleCount)
      && (forall ts, ts' ::
            (ts in trie.table && ts' in trie.table
             && trie.table[ts] == trie.table[ts'] != RULE_SPECIAL_REDIRECT_SLASH) ==> ts == ts')
    }

    constructor ()
      ensures trie.Building() && Numbered() && trie.table == map[] && ruleCount == 2
      ensures fresh(trie)
    {
      trie := new Trie();
      ruleCount := 2;
    }

    /** Registers a pattern under the next rule number and, for a pattern that ends in a slash, a
        redirection for the pattern without it.  False is the exception of either registration. */
    method AddRule(rule: string) returns (ok: bool)
      requires trie.Building() && Numbered() && KnownTags(rule, 0)
      modifies this, trie
      ensures trie.Building() && Numbered()
      ensures ruleCount == old(ruleCount) + 1
      ensures var t := Tokens(rule, 0);
        var slash := |rule| > 1 && rule[|rule| - 1] == '/';
        if t in old(trie.table) then !ok && trie.table == old(trie.table)
        else if slash && KnownTags(rule[..|rule| - 1], 0) && Tokens(rule[..|rule| - 1], 0) !in old(trie.table) then
          ok && trie.table == old(trie.table)[t := old(ruleCount)][Tokens(rule[..|rule| - 1],
            0) := RULE_SPECIAL_REDIRECT_SLASH]
        else ok == !slash && trie.table == old(trie.table)[t := old(ruleCount)]
    {
      ruleCount := ruleCount + 1;
      ok := trie.Add(rule, ruleCount - 1);
      if ok && |rule| > 1 && rule[|rule| - 1] == '/' {
        KnownTagsWithoutSlash(rule, 0);
        TokensWithoutSlash(rule, 0);
        ok := trie.Add(rule[..|rule| - 1], RULE_SPECIAL_REDIRECT_SLASH);
      }
    }

    /** The dispatch of `handle`: no rule, the redirection, or exactly the earliest registered pattern
        that matches, with its own parameters.  The rule number is always one that exists. */
    method Handle(url: string, strtod: Strtod) returns (found: nat, matched: Params)
      requires trie.Valid() && Numbered()
      ensures found < ruleCount
      ensures found == 0 ==> forall ts :: ts in trie.table ==> Match(ts, url, 0, NO_PARAMS, strtod) == None
      ensures found != 0 ==> exists ts ::
        ts in trie.table && trie.table[ts] == found && Match(ts, url, 0, NO_PARAMS, strtod) == Some(matched)
      ensures forall ts :: ts in trie.table && Match(ts, url, 0, NO_PARAMS, strtod).Some? ==>
        0 < found <= trie.table[ts]
      ensures forall ts :: found > RULE_SPECIAL_REDIRECT_SLASH && ts in trie.table && trie.table[ts] == found ==>
        Match(ts, url, 0, NO_PARAMS, strtod) == Some(matched)
    {
      found, matched := trie.FindRule(url, strtod);
      forall ts | ts in trie.table && Match(ts, url, 0, NO_PARAMS, strtod).Some?
        ensures 0 < found <= trie.table[ts]
      {
        assert (trie.table[ts], Match(ts, url, 0, NO_PARAMS, strtod).value) in TableAnswers(trie.table, url, strtod);
      }
    }
  }

  /** The tokens of a pattern that ends in a slash are those of the pattern without it, and the slash. */
  lemma {:induction false} TokensWithoutSlash(url: string, i: nat)
    requires i < |url| && url[|url| - 1] == '/' && KnownTags(url, i) && KnownTags(url[..|url| - 1], i)
    ensures Tokens(url, i) == Tokens(url[..|url| - 1], i) + [Lit('/')]
    decreases |url| - i
  {
    var short := url[..|url| - 1];
    if i < |short| {
      NextTokenWithoutSlash(url, i);
      TokensWithoutSlash(url, i + NextToken(url, i).value.1);
    } else {
      assert NextToken(url, i) == Some((Lit('/'), 1));
      assert Tokens(url, i) == [Lit('/')] + Tokens(url, i + 1);
    }
  }
}
