/** The arena of nodes linked by index, the routes it holds, and the answers those routes give. */
module RouteArena {
  import opened Wrappers
  import opened RoutePatterns

  // ---------------------------------------------------------------------------------------------
  // The arena
  // ---------------------------------------------------------------------------------------------

  /** Index 0 in `paramChildren` and rule index 0 both mean "none". */
  datatype Node = Node(ruleIndex: nat, paramChildren: seq<nat>, children: map<string, nat>) {
    function Param(kind: ParamKind): nat
      requires |paramChildren| == 5
    {
      paramChildren[Slot(kind)]
    }

    predicate IsSimpleNode() {
      ruleIndex == 0 && forall k :: 0 <= k < |paramChildren| ==> paramChildren[k] == 0
    }
  }

  const EMPTY_NODE := Node(0, [0, 0, 0, 0, 0], map[])

  /** Links lead to later nodes, and fragments are not empty. */
  ghost predicate NodeOk(nodes: seq<Node>, i: nat)
    requires i < |nodes|
  {
    && |nodes[i].paramChildren| == 5
    && (forall k :: 0 <= k < 5 && nodes[i].paramChildren[k] != 0 ==> i < nodes[i].paramChildren[k] < |nodes|)
    && (forall f :: f in nodes[i].children ==> f != "" && i < nodes[i].children[f] < |nodes|)
  }

  ghost predicate Ok(nodes: seq<Node>) {
    0 < |nodes| && forall i :: 0 <= i < |nodes| ==> NodeOk(nodes, i)
  }

  /** No fragment is a proper prefix of another. */
  ghost predicate PrefixFree(fs: set<string>) {
    forall f, g :: f in fs && g in fs && f <= g ==> f == g
  }

  /** At most one fragment of any node can start a given text. */
  ghost predicate Unambiguous(nodes: seq<Node>) {
    forall i :: 0 <= i < |nodes| ==> PrefixFree(nodes[i].children.Keys)
  }

  function Lits(f: string): (ts: seq<Token>)
    ensures |ts| == |f| && forall i :: 0 <= i < |f| ==> ts[i] == Lit(f[i])
  {
    seq(|f|, i requires 0 <= i < |f| => Lit(f[i]))
  }

  /** The tokens start with the characters of a fragment. */
  ghost predicate Spells(f: string, ts: seq<Token>) {
    |f| <= |ts| && ts[..|f|] == Lits(f)
  }

  /** Following the tokens from node `i` ends at a node that carries rule `r`. */
  ghost predicate Routes(nodes: seq<Node>, i: nat, ts: seq<Token>, r: nat)
    requires Ok(nodes) && i < |nodes|
    decreases |ts|
  {
    assert NodeOk(nodes, i);
    if ts == [] then r != 0 && nodes[i].ruleIndex == r
    else match ts[0]
      case Hole(kind) => nodes[i].Param(kind) != 0 && Routes(nodes, nodes[i].Param(kind), ts[1..], r)
      case Lit(_) => exists f ::
        f in nodes[i].children && Spells(f, ts) && Routes(nodes, nodes[i].children[f], ts[|f|..], r)
  }

  lemma RouteTakesFragment(nodes: seq<Node>, i: nat, ts: seq<Token>, r: nat) returns (f: string)
    requires Ok(nodes) && i < |nodes| && Routes(nodes, i, ts, r) && ts != [] && ts[0].Lit?
    ensures f in nodes[i].children && f != "" && nodes[i].children[f] < |nodes|
    ensures Spells(f, ts) && ts == Lits(f) + ts[|f|..] && Routes(nodes, nodes[i].children[f], ts[|f|..], r)
  {
    assert NodeOk(nodes, i);
    f :| f in nodes[i].children && Spells(f, ts) && Routes(nodes, nodes[i].children[f], ts[|f|..], r);
    assert ts == ts[..|f|] + ts[|f|..];
  }

  lemma {:induction false} RoutesThroughFragment(nodes: seq<Node>, i: nat, f: string, ts: seq<Token>, r: nat)
    requires Ok(nodes) && i < |nodes| && f in nodes[i].children
    requires NodeOk(nodes, i) && Routes(nodes, nodes[i].children[f], ts, r)
    ensures Routes(nodes, i, Lits(f) + ts, r)
  {
    var whole := Lits(f) + ts;
    assert whole[0] == Lit(f[0]) && whole[|f|..] == ts && Spells(f, whole);
  }

  /** The two arenas hold the same rules at the same token paths, from every node. */
  ghost predicate SameRoutes(a: seq<Node>, b: seq<Node>)
    requires Ok(a) && Ok(b) && |a| == |b|
  {
    forall i, ts, r :: 0 <= i < |a| ==> (Routes(a, i, ts, r) <==> Routes(b, i, ts, r))
  }

  // ---------------------------------------------------------------------------------------------
  // Searching: the answers of a node, and how one step splits them
  // ---------------------------------------------------------------------------------------------

  /** Every rule that can be reached from node `i` by tokens that match the URL from `pos` on, with
      the parameters that the tokens collect. */
  ghost function Answers(nodes: seq<Node>, i: nat, url: string, pos: nat, ps: Params, strtod: Strtod): iset<(nat,
                         Params)>
    requires Ok(nodes) && i < |nodes| && pos <= |url|
  {
    iset ts, r, p | Routes(nodes, i, ts, r) && Match(ts, url, pos, ps, strtod) == Some(p) :: (r, p)
  }

  /** The smallest rule index among the answers, with the parameters of an answer that has it. */
  ghost predicate IsBest(answers: iset<(nat, Params)>, found: nat, matched: Params) {
    if found == 0 then answers == iset{}
    else (found, matched) in answers && forall a :: a in answers ==> found <= a.0
  }

  /** The answers that start with a parameter of this kind. */
  ghost function HoleAnswers(nodes: seq<Node>, i: nat, kind: ParamKind, url: string, pos: nat, ps: Params,
                             strtod: Strtod): iset<(nat, Params)>
    requires Ok(nodes) && i < |nodes| && pos < |url|
  {
    assert NodeOk(nodes, i);
    var child := nodes[i].Param(kind);
    var step := Consume(kind, url, pos, ps, strtod);
    if child != 0 && step.Some? then Answers(nodes, child, url, step.value.0, step.value.1, strtod) else iset{}
  }

  ghost predicate StartsInFragment(nodes: seq<Node>, i: nat, fs: set<string>, url: string, pos: nat, ps: Params,
                                   strtod: Strtod, a: (nat, Params))
    requires Ok(nodes) && i < |nodes| && pos < |url| && fs <= nodes[i].children.Keys
  {
    assert NodeOk(nodes, i);
    exists f :: f in fs && StartsAt(url, pos, f) &&
      a in Answers(nodes, nodes[i].children[f], url, pos + |f|, ps, strtod)
  }

  /** The answers that start with one of the given fragments. */
  ghost function FragmentAnswers(nodes: seq<Node>, i: nat, fs: set<string>, url: string, pos: nat, ps: Params,
                                 strtod: Strtod): iset<(nat, Params)>
    requires Ok(nodes) && i < |nodes| && pos < |url| && fs <= nodes[i].children.Keys
  {
    iset a: (nat, Params) | StartsInFragment(nodes, i, fs, url, pos, ps, strtod, a)
  }

  /** The source's `update_found`: a found rule replaces the best so far when it is smaller. */
  predicate Improves(found: nat, r: nat) {
    r != 0 && (found == 0 || found > r)
  }

  lemma BestOfUnion(a: iset<(nat, Params)>, found: nat, matched: Params, b: iset<(nat, Params)>, r: nat, p: Params)
    requires IsBest(a, found, matched) && IsBest(b, r, p)
    ensures if Improves(found, r) then IsBest(a + b, r, p) else IsBest(a + b, found, matched)
  {
  }

  lemma {:induction false} MatchFragment(f: string, rest: seq<Token>, url: string, pos: nat, ps: Params, strtod: Strtod)
    requires pos <= |url|
    ensures Match(Lits(f) + rest, url, pos, ps, strtod)
         == if StartsAt(url, pos, f) then Match(rest, url, pos + |f|, ps, strtod) else None
    decreases |f|
  {
    var ts := Lits(f) + rest;
    if f == "" {
      assert ts == rest;
    } else if pos < |url| && url[pos] == f[0] {
      assert ts[1..] == Lits(f[1..]) + rest;
      MatchFragment(f[1..], rest, url, pos + 1, ps, strtod);
      assert StartsAt(url, pos, f) <==> StartsAt(url, pos + 1, f[1..]) by {
        if StartsAt(url, pos, f) { assert url[pos + 1..pos + |f|] == url[pos..pos + |f|][1..]; }
        if StartsAt(url, pos + 1, f[1..]) { assert url[pos..pos + |f|] == [url[pos]] + url[pos + 1..pos + |f|]; }
      }
    } else {
      assert pos < |url| && pos + |f| <= |url| ==> url[pos] == url[pos..pos + |f|][0];
    }
  }

  lemma AnswersAtEnd(nodes: seq<Node>, i: nat, url: string, ps: Params, strtod: Strtod)
    requires Ok(nodes) && i < |nodes|
    ensures IsBest(Answers(nodes, i, url, |url|, ps, strtod), nodes[i].ruleIndex, ps)
  {
    if nodes[i].ruleIndex != 0 {
      assert Routes(nodes, i, [], nodes[i].ruleIndex);
      assert Match([], url, |url|, ps, strtod) == Some(ps);
    }
  }

  lemma FragmentAnswersGrow(nodes: seq<Node>, i: nat, done: set<string>, f: string, url: string, pos: nat, ps: Params,
                            strtod: Strtod)
    requires Ok(nodes) && i < |nodes| && pos < |url| && done <= nodes[i].children.Keys && f in nodes[i].children
    requires NodeOk(nodes, i)
    ensures FragmentAnswers(nodes, i, done + {f}, url, pos, ps, strtod)
         == FragmentAnswers(nodes, i, done, url, pos, ps, strtod)
          + FragmentAnswers(nodes, i, {f}, url, pos, ps, strtod)
  {
  }

  ghost function AllSteps(nodes: seq<Node>, i: nat, url: string, pos: nat, ps: Params, strtod: Strtod): iset<(nat,
                          Params)>
    requires Ok(nodes) && i < |nodes| && pos < |url|
  {
    HoleAnswers(nodes, i, Int, url, pos, ps, strtod) + HoleAnswers(nodes, i, UInt, url, pos, ps, strtod)
    + HoleAnswers(nodes, i, Double, url, pos, ps, strtod) + HoleAnswers(nodes, i, Str, url, pos, ps, strtod)
    + HoleAnswers(nodes, i, Path, url, pos, ps, strtod)
    + FragmentAnswers(nodes, i, nodes[i].children.Keys, url, pos, ps, strtod)
  }

  /** Before the end of the URL, the answers of a node are those of its steps. */
  lemma AnswersByStep(nodes: seq<Node>, i: nat, url: string, pos: nat, ps: Params, strtod: Strtod)
    requires Ok(nodes) && i < |nodes| && pos < |url|
    ensures Answers(nodes, i, url, pos, ps, strtod) == AllSteps(nodes, i, url, pos, ps, strtod)
  {
    assert NodeOk(nodes, i);
    forall a | a in Answers(nodes, i, url, pos, ps, strtod)
      ensures a in AllSteps(nodes, i, url, pos, ps, strtod)
    {
      var ts :| Routes(nodes, i, ts, a.0) && Match(ts, url, pos, ps, strtod) == Some(a.1);
      AnswerTakesStep(nodes, i, url, pos, ps, strtod, ts, a);
    }
    forall a | a in AllSteps(nodes, i, url, pos, ps, strtod)
      ensures a in Answers(nodes, i, url, pos, ps, strtod)
    {
      if a in FragmentAnswers(nodes, i, nodes[i].children.Keys, url, pos, ps, strtod) {
        FragmentStepAnswers(nodes, i, url, pos, ps, strtod, a);
      } else {
        var kind :| a in HoleAnswers(nodes, i, kind, url, pos, ps, strtod);
        HoleStepAnswers(nodes, i, kind, url, pos, ps, strtod, a);
      }
    }
  }

  lemma {:induction false} AnswerTakesStep(nodes: seq<Node>, i: nat, url: string, pos: nat, ps: Params,
                                           strtod: Strtod, ts: seq<Token>, a: (nat, Params))
    requires Ok(nodes) && i < |nodes| && pos < |url|
    requires Routes(nodes, i, ts, a.0) && Match(ts, url, pos, ps, strtod) == Some(a.1)
    ensures a in AllSteps(nodes, i, url, pos, ps, strtod)
  {
    if ts[0].Lit? {
      AnswerTakesFragment(nodes, i, url, pos, ps, strtod, ts, a);
    } else {
      AnswerTakesHole(nodes, i, url, pos, ps, strtod, ts, a);
      match ts[0].kind case Int => case UInt => case Double => case Str => case Path =>
    }
  }

  lemma {:induction false} AnswerTakesHole(nodes: seq<Node>, i: nat, url: string, pos: nat, ps: Params,
                                           strtod: Strtod, ts: seq<Token>, a: (nat, Params))
    requires Ok(nodes) && i < |nodes| && pos < |url|
    requires Routes(nodes, i, ts, a.0) && Match(ts, url, pos, ps, strtod) == Some(a.1) && ts[0].Hole?
    ensures a in HoleAnswers(nodes, i, ts[0].kind, url, pos, ps, strtod)
  {
    assert NodeOk(nodes, i);
    var step := Consume(ts[0].kind, url, pos, ps, strtod).value;
    assert a in Answers(nodes, nodes[i].Param(ts[0].kind), url, step.0, step.1, strtod);
  }

  lemma {:induction false} AnswerTakesFragment(nodes: seq<Node>, i: nat, url: string, pos: nat, ps: Params,
                                               strtod: Strtod, ts: seq<Token>, a: (nat, Params))
    requires Ok(nodes) && i < |nodes| && pos < |url|
    requires Routes(nodes, i, ts, a.0) && Match(ts, url, pos, ps, strtod) == Some(a.1) && ts[0].Lit?
    ensures a in FragmentAnswers(nodes, i, nodes[i].children.Keys, url, pos, ps, strtod)
  {
    var f := RouteTakesFragment(nodes, i, ts, a.0);
    MatchFragment(f, ts[|f|..], url, pos, ps, strtod);
    assert a in Answers(nodes, nodes[i].children[f], url, pos + |f|, ps, strtod);
  }

  lemma HoleStepAnswers(nodes: seq<Node>, i: nat, kind: ParamKind, url: string, pos: nat, ps: Params, strtod: Strtod,
                        a: (nat, Params))
    requires Ok(nodes) && i < |nodes| && pos < |url|
    requires a in HoleAnswers(nodes, i, kind, url, pos, ps, strtod)
    ensures a in Answers(nodes, i, url, pos, ps, strtod)
  {
    assert NodeOk(nodes, i);
    var step := Consume(kind, url, pos, ps, strtod).value;
    var ts :| Routes(nodes, nodes[i].Param(kind), ts, a.0) && Match(ts, url, step.0, step.1, strtod) == Some(a.1);
    var whole := [Hole(kind)] + ts;
    assert whole[1..] == ts;
    assert Routes(nodes, i, whole, a.0) && Match(whole, url, pos, ps, strtod) == Some(a.1);
  }

  lemma FragmentStepAnswers(nodes: seq<Node>, i: nat, url: string, pos: nat, ps: Params, strtod: Strtod,
                            a: (nat, Params))
    requires Ok(nodes) && i < |nodes| && pos < |url|
    requires a in FragmentAnswers(nodes, i, nodes[i].children.Keys, url, pos, ps, strtod)
    ensures a in Answers(nodes, i, url, pos, ps, strtod)
  {
    assert NodeOk(nodes, i);
    var f :| f in nodes[i].children && StartsAt(url, pos, f) &&
      a in Answers(nodes, nodes[i].children[f], url, pos + |f|, ps, strtod);
    var ts :| Routes(nodes, nodes[i].children[f], ts, a.0) && Match(ts, url, pos + |f|, ps, strtod) == Some(a.1);
    RoutesThroughFragment(nodes, i, f, ts, a.0);
    MatchFragment(f, ts, url, pos, ps, strtod);
  }
}
