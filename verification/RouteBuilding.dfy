/** Before compaction every fragment is one character and the arena is a tree: adding a pattern adds
    one route.  A table of rules states what the arena holds. */
module RouteBuilding {
  import opened Wrappers
  import opened RoutePatterns
  import opened RouteArena

  /** The node that one token leads to. */
  ghost function Step(nodes: seq<Node>, i: nat, t: Token): (next: Option<nat>)
    requires Ok(nodes) && i < |nodes|
    ensures next.Some? ==> i < next.value < |nodes|
  {
    assert NodeOk(nodes, i);
    match t
    case Hole(kind) => if nodes[i].Param(kind) != 0 then Some(nodes[i].Param(kind)) else None
    case Lit(c) => if [c] in nodes[i].children then Some(nodes[i].children[[c]]) else None
  }

  ghost function Walk(nodes: seq<Node>, i: nat, ts: seq<Token>): (end: Option<nat>)
    requires Ok(nodes) && i < |nodes|
    ensures end.Some? ==> end.value < |nodes|
    decreases |ts|
  {
    if ts == [] then Some(i)
    else
      var next := Step(nodes, i, ts[0]);
      if next.Some? then Walk(nodes, next.value, ts[1..]) else None
  }

  ghost predicate OneCharacter(nodes: seq<Node>) {
    forall i, f :: 0 <= i < |nodes| && f in nodes[i].children ==> |f| == 1
  }

  /** `pathTo[i]` is the only token path that leads from the head to node `i`. */
  ghost predicate IsTree(nodes: seq<Node>, pathTo: seq<seq<Token>>)
    requires Ok(nodes)
  {
    && |pathTo| == |nodes|
    && pathTo[0] == []
    && (forall i {:trigger Walk(nodes, 0, pathTo[i])} :: 0 <= i < |nodes| ==> Walk(nodes, 0, pathTo[i]) == Some(i))
    && forall i, t :: 0 <= i < |nodes| && Step(nodes, i, t).Some? ==> pathTo[Step(nodes, i, t).value] == pathTo[i] + [t]
  }

  lemma {:induction false} WalkFollowsPaths(nodes: seq<Node>, pathTo: seq<seq<Token>>, i: nat, ts: seq<Token>)
    requires Ok(nodes) && IsTree(nodes, pathTo) && i < |nodes| && Walk(nodes, i, ts).Some?
    ensures pathTo[Walk(nodes, i, ts).value] == pathTo[i] + ts
    decreases |ts|
  {
    if ts == [] {
      assert pathTo[i] + ts == pathTo[i];
    } else {
      var next := Step(nodes, i, ts[0]).value;
      WalkFollowsPaths(nodes, pathTo, next, ts[1..]);
      assert pathTo[i] + ts == pathTo[i] + [ts[0]] + ts[1..];
    }
  }

  lemma {:induction false} WalkSnoc(nodes: seq<Node>, i: nat, ts: seq<Token>, t: Token)
    requires Ok(nodes) && i < |nodes| && Walk(nodes, i, ts).Some?
    ensures Walk(nodes, i, ts + [t]) == Step(nodes, Walk(nodes, i, ts).value, t)
    decreases |ts|
  {
    if ts == [] {
      assert ts + [t] == [t];
    } else {
      assert (ts + [t])[1..] == ts[1..] + [t];
      WalkSnoc(nodes, Step(nodes, i, ts[0]).value, ts[1..], t);
    }
  }

  /** While fragments are single characters, a route is a walk to a node that carries the rule. */
  lemma {:induction false} RoutesAreWalks(nodes: seq<Node>, i: nat, ts: seq<Token>, r: nat)
    requires Ok(nodes) && OneCharacter(nodes) && i < |nodes|
    ensures Routes(nodes, i, ts, r) <==>
      r != 0 && Walk(nodes, i, ts).Some? && nodes[Walk(nodes, i, ts).value].ruleIndex == r
    decreases |ts|
  {
    assert NodeOk(nodes, i);
    if ts == [] {
    } else if ts[0].Hole? {
      if nodes[i].Param(ts[0].kind) != 0 {
        RoutesAreWalks(nodes, nodes[i].Param(ts[0].kind), ts[1..], r);
      }
    } else {
      var f := [ts[0].c];
      if Routes(nodes, i, ts, r) {
        var g := RouteTakesFragment(nodes, i, ts, r);
        assert |g| == 1 && Lits(g)[0] == ts[0];
        assert g == f;
      }
      if f in nodes[i].children {
        RoutesAreWalks(nodes, nodes[i].children[f], ts[1..], r);
        if Routes(nodes, nodes[i].children[f], ts[1..], r) {
          RoutesThroughFragment(nodes, i, f, ts[1..], r);
          assert ts == Lits(f) + ts[1..];
        }
      }
    }
  }

  function WithLink(n: Node, t: Token, child: nat): Node
    requires |n.paramChildren| == 5
  {
    match t
    case Hole(kind) => n.(paramChildren := n.paramChildren[Slot(kind) := child])
    case Lit(c) => n.(children := n.children[[c] := child])
  }

  /** The arena with a fresh empty node, linked from node `idx` by `t`. */
  ghost function Grown(nodes: seq<Node>, idx: nat, t: Token): seq<Node>
    requires Ok(nodes) && idx < |nodes|
  {
    assert NodeOk(nodes, idx);
    (nodes + [EMPTY_NODE])[idx := WithLink(nodes[idx], t, |nodes|)]
  }

  lemma SlotsAreDistinct(k: ParamKind, k': ParamKind)
    ensures Slot(k) == Slot(k') ==> k == k'
  {
  }

  lemma GrowthIsOk(a: seq<Node>, idx: nat, t: Token)
    requires Ok(a) && OneCharacter(a) && idx < |a|
    ensures Ok(Grown(a, idx, t)) && OneCharacter(Grown(a, idx, t))
  {
    var b := Grown(a, idx, t);
    assert NodeOk(a, idx);
    forall j | 0 <= j < |b|
      ensures NodeOk(b, j)
    {
      if j < |a| { assert NodeOk(a, j); }
    }
  }

  lemma GrowthAddsOneStep(a: seq<Node>, idx: nat, t: Token, j: nat, u: Token)
    requires Ok(a) && OneCharacter(a) && idx < |a| && j <= |a|
    requires Ok(Grown(a, idx, t))
    ensures j < |a| ==> Step(Grown(a, idx, t), j, u) == if j == idx && u == t then Some(|a|) else Step(a, j, u)
    ensures j == |a| ==> Step(Grown(a, idx, t), j, u) == None
  {
    var b := Grown(a, idx, t);
    assert NodeOk(a, idx) && NodeOk(b, j);
    if j < |a| { assert NodeOk(a, j); }
    if t.Hole? && u.Hole? { SlotsAreDistinct(t.kind, u.kind); }
  }

  lemma OneCharacterIsUnambiguous(nodes: seq<Node>)
    requires OneCharacter(nodes)
    ensures Unambiguous(nodes)
  {
  }

  /** Linking a fresh empty node changes no walk that was possible before, and adds no rule. */
  lemma {:induction false} GrowthKeepsWalks(a: seq<Node>, idx: nat, t: Token, i: nat, ts: seq<Token>)
    requires Ok(a) && OneCharacter(a) && idx < |a| && i < |a| && Step(a, idx, t) == None
    requires Ok(Grown(a, idx, t))
    ensures Walk(Grown(a, idx, t), i, ts) == Walk(a, i, ts)
         || (Walk(a, i, ts) == None && Walk(Grown(a, idx, t), i, ts) == Some(|a|))
    decreases |ts|
  {
    if ts != [] {
      GrowthAddsOneStep(a, idx, t, i, ts[0]);
      if Step(a, i, ts[0]).Some? {
        GrowthKeepsWalks(a, idx, t, Step(a, i, ts[0]).value, ts[1..]);
      } else if ts[1..] != [] {
        GrowthAddsOneStep(a, idx, t, |a|, ts[1]);
      }
    }
  }

  lemma {:induction false} GrowthKeepsRoutes(a: seq<Node>, idx: nat, t: Token, ts: seq<Token>, r: nat)
    requires Ok(a) && OneCharacter(a) && idx < |a| && Step(a, idx, t) == None
    requires Ok(Grown(a, idx, t)) && OneCharacter(Grown(a, idx, t))
    ensures Routes(Grown(a, idx, t), 0, ts, r) <==> Routes(a, 0, ts, r)
  {
    RoutesAreWalks(a, 0, ts, r);
    RoutesAreWalks(Grown(a, idx, t), 0, ts, r);
    GrowthKeepsWalks(a, idx, t, 0, ts);
  }

  /** Giving a rule to the one node that a path leads to adds that path, and nothing else. */
  lemma RuleAddsOneRoute(a: seq<Node>, pathTo: seq<seq<Token>>, idx: nat, rule: nat, toks: seq<Token>, ts: seq<Token>,
                         r: nat)
    requires Ok(a) && OneCharacter(a) && IsTree(a, pathTo)
    requires Walk(a, 0, toks) == Some(idx) && a[idx].ruleIndex == 0 && rule != 0
    requires var b := a[idx := a[idx].(ruleIndex := rule)]; Ok(b) && OneCharacter(b)
    ensures Routes(a[idx := a[idx].(ruleIndex := rule)], 0, ts, r) <==> Routes(a, 0, ts, r) || (ts == toks && r == rule)
  {
    var b := a[idx := a[idx].(ruleIndex := rule)];
    RoutesAreWalks(a, 0, ts, r);
    RoutesAreWalks(b, 0, ts, r);
    RuleKeepsWalks(a, b, idx, rule, 0, ts);
    if Walk(a, 0, ts) == Some(idx) {
      WalkFollowsPaths(a, pathTo, 0, ts);
      WalkFollowsPaths(a, pathTo, 0, toks);
      assert [] + ts == ts && [] + toks == toks;
    }
  }

  lemma {:induction false} RuleKeepsWalks(a: seq<Node>, b: seq<Node>, idx: nat, rule: nat, i: nat, ts: seq<Token>)
    requires Ok(a) && Ok(b) && idx < |a| && b == a[idx := a[idx].(ruleIndex := rule)] && i < |a|
    ensures Walk(a, i, ts) == Walk(b, i, ts)
    decreases |ts|
  {
    if ts != [] {
      assert Step(a, i, ts[0]) == Step(b, i, ts[0]);
      if Step(a, i, ts[0]).Some? {
        RuleKeepsWalks(a, b, idx, rule, Step(a, i, ts[0]).value, ts[1..]);
      }
    }
  }

  lemma RuleIsOk(a: seq<Node>, idx: nat, rule: nat)
    requires Ok(a) && OneCharacter(a) && idx < |a|
    ensures var b := a[idx := a[idx].(ruleIndex := rule)]; Ok(b) && OneCharacter(b)
    ensures forall i, t :: 0 <= i < |a| ==> Step(a[idx := a[idx].(ruleIndex := rule)], i, t) == Step(a, i, t)
  {
    var b := a[idx := a[idx].(ruleIndex := rule)];
    forall j | 0 <= j < |b|
      ensures NodeOk(b, j)
    {
      assert NodeOk(a, j);
    }
  }

  /** The rules that the arena holds at the head are exactly the table. */
  ghost predicate Holds(nodes: seq<Node>, table: map<seq<Token>, nat>)
    requires Ok(nodes)
  {
    forall ts, r :: Routes(nodes, 0, ts, r) <==> ts in table && table[ts] == r
  }

  /** The answers that a table of rules gives to a URL, without any trie. */
  ghost function TableAnswers(table: map<seq<Token>, nat>, url: string, strtod: Strtod): iset<(nat, Params)> {
    iset ts, p | ts in table && Match(ts, url, 0, NO_PARAMS, strtod) == Some(p) :: (table[ts], p)
  }

  lemma AnswersAreTheTables(nodes: seq<Node>, table: map<seq<Token>, nat>, url: string, strtod: Strtod)
    requires Ok(nodes) && Holds(nodes, table)
    ensures Answers(nodes, 0, url, 0, NO_PARAMS, strtod) == TableAnswers(table, url, strtod)
  {
    forall a | a in Answers(nodes, 0, url, 0, NO_PARAMS, strtod)
      ensures a in TableAnswers(table, url, strtod)
    {
      var ts :| Routes(nodes, 0, ts, a.0) && Match(ts, url, 0, NO_PARAMS, strtod) == Some(a.1);
      assert ts in table && table[ts] == a.0;
    }
    forall a | a in TableAnswers(table, url, strtod)
      ensures a in Answers(nodes, 0, url, 0, NO_PARAMS, strtod)
    {
      var ts :| ts in table && Match(ts, url, 0, NO_PARAMS, strtod) == Some(a.1) && table[ts] == a.0;
      assert Routes(nodes, 0, ts, a.0);
    }
  }

  ghost predicate OnePatternOf(table: map<seq<Token>, nat>, r: nat) {
    forall ts, ts' :: ts in table && ts' in table && table[ts] == table[ts'] == r ==> ts == ts'
  }

  /** Two best answers have the same rule; and the same parameters when only one pattern has that rule. */
  lemma BestIsUnique(table: map<seq<Token>, nat>, url: string, strtod: Strtod, r1: nat, p1: Params, r2: nat, p2: Params)
    requires IsBest(TableAnswers(table, url, strtod), r1, p1) && IsBest(TableAnswers(table, url, strtod), r2, p2)
    ensures r1 == r2
    ensures r1 != 0 && OnePatternOf(table, r1) ==> p1 == p2
  {
    if r1 != 0 && r2 != 0 {
      assert (r1, p1) in TableAnswers(table, url, strtod) && (r2, p2) in TableAnswers(table, url, strtod);
    }
  }

  lemma GrowthKeepsPaths(a: seq<Node>, idx: nat, t: Token, pathTo: seq<seq<Token>>, i: nat)
    requires Ok(a) && OneCharacter(a) && IsTree(a, pathTo) && idx < |a| && Step(a, idx, t) == None && i <= |a|
    requires Ok(Grown(a, idx, t))
    ensures Walk(Grown(a, idx, t), 0, (pathTo + [pathTo[idx] + [t]])[i]) == Some(i)
  {
    var b := Grown(a, idx, t);
    var j := if i < |a| then i else idx;
    assert Walk(a, 0, pathTo[j]) == Some(j);
    GrowthKeepsWalks(a, idx, t, 0, pathTo[j]);
    if i == |a| {
      WalkSnoc(b, 0, pathTo[idx], t);
      GrowthAddsOneStep(a, idx, t, idx, t);
    }
  }

  lemma GrowthKeepsBuilding(a: seq<Node>, idx: nat, t: Token, table: map<seq<Token>, nat>, pathTo: seq<seq<Token>>)
    requires Ok(a) && OneCharacter(a) && IsTree(a, pathTo) && Holds(a, table) && idx < |a| && Step(a, idx, t) == None
    ensures var b := Grown(a, idx, t);
      Ok(b) && OneCharacter(b) && Unambiguous(b) && IsTree(b, pathTo + [pathTo[idx] + [t]]) && Holds(b, table)
  {
    var b := Grown(a, idx, t);
    GrowthIsOk(a, idx, t);
    OneCharacterIsUnambiguous(b);
    forall i | 0 <= i < |b|
      ensures Walk(b, 0, (pathTo + [pathTo[idx] + [t]])[i]) == Some(i)
    {
      GrowthKeepsPaths(a, idx, t, pathTo, i);
    }
    forall i, u | 0 <= i < |b| && Step(b, i, u).Some?
      ensures (pathTo + [pathTo[idx] + [t]])[Step(b, i, u).value] == (pathTo + [pathTo[idx] + [t]])[i] + [u]
    {
      GrowthAddsOneStep(a, idx, t, i, u);
    }
    forall ts, r
      ensures Routes(b, 0, ts, r) <==> ts in table && table[ts] == r
    {
      GrowthKeepsRoutes(a, idx, t, ts, r);
    }
  }

  lemma RuleKeepsBuilding(a: seq<Node>, pathTo: seq<seq<Token>>, table: map<seq<Token>, nat>, idx: nat, rule: nat,
                          toks: seq<Token>)
    requires Ok(a) && OneCharacter(a) && IsTree(a, pathTo) && Holds(a, table)
    requires Walk(a, 0, toks) == Some(idx) && a[idx].ruleIndex == 0
    ensures toks !in table
    ensures rule != 0 ==>
      var b := a[idx := a[idx].(ruleIndex := rule)];
      Ok(b) && OneCharacter(b) && Unambiguous(b) && IsTree(b, pathTo) && Holds(b, table[toks := rule])
  {
    if toks in table {
      assert Routes(a, 0, toks, table[toks]);
      RoutesAreWalks(a, 0, toks, table[toks]);
    }
    if rule != 0 {
      var b := a[idx := a[idx].(ruleIndex := rule)];
      RuleIsOk(a, idx, rule);
      forall i | 0 <= i < |b|
        ensures Walk(b, 0, pathTo[i]) == Some(i)
      {
        assert Walk(a, 0, pathTo[i]) == Some(i);
        RuleKeepsWalks(a, b, idx, rule, 0, pathTo[i]);
      }
      OneCharacterIsUnambiguous(b);
      forall ts, r
        ensures Routes(b, 0, ts, r) <==> ts in table[toks := rule] && table[toks := rule][ts] == r
      {
        RuleAddsOneRoute(a, pathTo, idx, rule, toks, ts, r);
      }
    }
  }
}
