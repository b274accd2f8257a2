/** Registering patterns, compacting the trie and dispatching a URL, told in terms of pieces. */
module RouteServing {
  import opened Wrappers
  import opened RoutePatterns
  import opened RouteLanguage
  import opened RouteTrie

  /** The URL is put together from the texts of the pattern and from texts that fit its tags, with these parameters. */
  ghost predicate Reads(shape: seq<Piece>, url: string, strtod: Strtod, matched: Params) {
    exists pieces :: SameShape(shape, pieces) && Laid(pieces, url, 0, strtod) && Collected(NO_PARAMS, pieces) == matched
  }

  ghost predicate Accepts(shape: seq<Piece>, url: string, strtod: Strtod) {
    exists matched :: Reads(shape, url, strtod, matched)
  }

  /** A pattern without a trailing slash, so that no redirection is registered with it. */
  predicate Registrable(shape: seq<Piece>) {
    Plain(shape) && (Pattern(shape) == "" || Pattern(shape)[|Pattern(shape)| - 1] != '/')
  }

  function PathOf(shape: seq<Piece>): seq<Token>
    requires Plain(shape)
  {
    PatternTokens(shape);
    Tokens(Pattern(shape), 0)
  }

  lemma MatchIsReads(shape: seq<Piece>, url: string, strtod: Strtod)
    requires Plain(shape)
    ensures forall matched ::
      Match(PathOf(shape), url, 0, NO_PARAMS, strtod) == Some(matched) <==> Reads(shape, url, strtod, matched)
    ensures Match(PathOf(shape), url, 0, NO_PARAMS, strtod).Some? <==> Accepts(shape, url, strtod)
  {
    forall matched
      ensures Match(PathOf(shape), url, 0, NO_PARAMS, strtod) == Some(matched) <==> Reads(shape, url, strtod, matched)
    {
      MatchesExactly(shape, url, strtod, matched);
    }
    if Match(PathOf(shape), url, 0, NO_PARAMS, strtod).Some? {
      assert Reads(shape, url, strtod, Match(PathOf(shape), url, 0, NO_PARAMS, strtod).value);
    }
  }

  /** Path number `j` has rule `2 + j`, and there is no other. */
  ghost predicate Registered(table: map<seq<Token>, nat>, paths: seq<seq<Token>>) {
    && (forall j :: 0 <= j < |paths| ==> paths[j] in table && table[paths[j]] == 2 + j)
    && (forall ts :: ts in table ==> ts in paths)
  }

  lemma OneMoreRegistered(table: map<seq<Token>, nat>, paths: seq<seq<Token>>, path: seq<Token>)
    requires Registered(table, paths) && path !in table
    ensures Registered(table[path := 2 + |paths|], paths + [path])
  {
    var more, all := table[path := 2 + |paths|], paths + [path];
    forall ts | ts in more
      ensures ts in all
    {
      if ts == path {
        assert all[|paths|] == ts;
      } else {
        assert ts in paths;
      }
    }
  }

  /** One registration. False is the exception for a pattern whose tags are registered already. */
  method Register(router: Router, shape: seq<Piece>, ghost paths: seq<seq<Token>>) returns (ok: bool)
    requires Registrable(shape) && router.trie.Building() && router.Numbered()
    requires router.ruleCount == 2 + |paths| && Registered(router.trie.table, paths)
    modifies router, router.trie
    ensures router.trie.Building() && router.Numbered()
    ensures ok ==> router.ruleCount == 3 + |paths| && Registered(router.trie.table, paths + [PathOf(shape)])
    ensures ok <==> PathOf(shape) !in paths
  {
    PatternTokens(shape);
    ghost var table := router.trie.table;
    ok := router.AddRule(Pattern(shape));
    if ok {
      OneMoreRegistered(table, paths, PathOf(shape));
    }
  }

  /** The paths of the first patterns. */
  ghost predicate PathsOf(shapes: seq<seq<Piece>>, paths: seq<seq<Token>>) {
    |paths| <= |shapes| && forall j :: 0 <= j < |paths| ==> Plain(shapes[j]) && paths[j] == PathOf(shapes[j])
  }

  lemma OneMorePath(shapes: seq<seq<Piece>>, paths: seq<seq<Token>>)
    requires PathsOf(shapes, paths) && |paths| < |shapes| && Plain(shapes[|paths|])
    ensures PathsOf(shapes, paths + [PathOf(shapes[|paths|])])
  {
  }

  /** No two patterns have the same texts and kinds of tags, so each has a path of its own in the trie. */
  ghost predicate Distinct(shapes: seq<seq<Piece>>) {
    forall i, j :: 0 <= i < j < |shapes| && Plain(shapes[i]) && Plain(shapes[j]) ==>
                     PathOf(shapes[i]) != PathOf(shapes[j])
  }

  lemma RegisteredAreDistinct(shapes: seq<seq<Piece>>, table: map<seq<Token>, nat>, paths: seq<seq<Token>>)
    requires |paths| == |shapes| && PathsOf(shapes, paths) && Registered(table, paths)
    ensures Distinct(shapes)
  {
    forall i, j | 0 <= i < j < |shapes|
      ensures PathOf(shapes[i]) != PathOf(shapes[j])
    {
      assert table[paths[i]] != table[paths[j]];
    }
  }

  lemma PathTwice(shapes: seq<seq<Piece>>, paths: seq<seq<Token>>)
    requires PathsOf(shapes, paths) && |paths| < |shapes| && Plain(shapes[|paths|])
    requires PathOf(shapes[|paths|]) in paths
    ensures !Distinct(shapes)
  {
    var i :| 0 <= i < |paths| && paths[i] == PathOf(shapes[|paths|]);
    assert PathOf(shapes[i]) == PathOf(shapes[|paths|]);
  }

  method RegisterAll(shapes: seq<seq<Piece>>) returns (router: Router, ok: bool, ghost paths: seq<seq<Token>>)
    requires forall j :: 0 <= j < |shapes| ==> Registrable(shapes[j])
    ensures fresh(router) && fresh(router.trie) && router.trie.Building() && router.Numbered()
    ensures ok ==> |paths| == |shapes| && PathsOf(shapes, paths) && Registered(router.trie.table, paths)
    ensures ok <==> Distinct(shapes)
  {
    router := new Router();
    ok, paths := true, [];
    for n := 0 to |shapes|
      invariant router.trie.Building() && router.Numbered() && fresh(router) && fresh(router.trie)
      invariant ok && |paths| == n && PathsOf(shapes, paths)
      invariant router.ruleCount == 2 + n && Registered(router.trie.table, paths)
    {
      ok := Register(router, shapes[n], paths);
      if !ok {
        PathTwice(shapes, paths);
        return;
      }
      OneMorePath(shapes, paths);
      paths := paths + [PathOf(shapes[n])];
    }
    RegisteredAreDistinct(shapes, router.trie.table, paths);
  }

  lemma FirstFound(table: map<seq<Token>, nat>, paths: seq<seq<Token>>, url: string, strtod: Strtod, found: nat,
                   matched: Params)
    requires Registered(table, paths)
    requires found == 0 ==> forall ts :: ts in table ==> Match(ts, url, 0, NO_PARAMS, strtod) == None
    requires found != 0 ==>
      exists ts :: ts in table && table[ts] == found && Match(ts, url, 0, NO_PARAMS, strtod) == Some(matched)
    requires forall ts :: ts in table && Match(ts, url, 0, NO_PARAMS, strtod).Some? ==> 0 < found <= table[ts]
    ensures found != 0 ==>
      2 <= found < 2 + |paths| && Match(paths[found - 2], url, 0, NO_PARAMS, strtod) == Some(matched)
    ensures forall j :: 0 <= j < |paths| && (found == 0 || j < found - 2) ==>
      Match(paths[j], url, 0, NO_PARAMS, strtod) == None
  {
    if found != 0 {
      var ts :| ts in table && table[ts] == found && Match(ts, url, 0, NO_PARAMS, strtod) == Some(matched);
      var j :| 0 <= j < |paths| && ts == paths[j];
    }
  }

  /** Registers patterns in order, compacts the trie and dispatches one URL: the first pattern that accepts the URL is
      found, with the parameters that it reads.  False is the exception for two patterns with the same path. */
  method Serve(shapes: seq<seq<Piece>>, url: string, strtod: Strtod) returns (ok: bool, found: nat, matched: Params)
    requires forall j :: 0 <= j < |shapes| ==> Registrable(shapes[j])
    ensures ok && found != 0 ==> 2 <= found < 2 + |shapes| && Reads(shapes[found - 2], url, strtod, matched)
    ensures ok ==> forall j :: 0 <= j < |shapes| && (found == 0 || j < found - 2) ==> !Accepts(shapes[j], url, strtod)
    ensures ok <==> Distinct(shapes)
  {
    found, matched := 0, NO_PARAMS;
    var router;
    ghost var paths;
    router, ok, paths := RegisterAll(shapes);
    if ok {
      ghost var table := router.trie.table;
      var simple := router.trie.Validate();
      found, matched := router.Handle(url, strtod);
      FirstFound(table, paths, url, strtod, found, matched);
      FirstAccepts(shapes, paths, url, strtod, found, matched);
    }
  }

  lemma FirstAccepts(shapes: seq<seq<Piece>>, paths: seq<seq<Token>>, url: string, strtod: Strtod, found: nat,
                     matched: Params)
    requires |paths| == |shapes| && PathsOf(shapes, paths)
    requires found != 0 ==>
      2 <= found < 2 + |paths| && Match(paths[found - 2], url, 0, NO_PARAMS, strtod) == Some(matched)
    requires forall j :: 0 <= j < |paths| && (found == 0 || j < found - 2) ==>
      Match(paths[j], url, 0, NO_PARAMS, strtod) == None
    ensures found != 0 ==> Reads(shapes[found - 2], url, strtod, matched)
    ensures forall j :: 0 <= j < |shapes| && (found == 0 || j < found - 2) ==> !Accepts(shapes[j], url, strtod)
  {
    forall j | 0 <= j < |shapes| && (found == 0 || j < found - 2)
      ensures !Accepts(shapes[j], url, strtod)
    {
      assert Match(paths[j], url, 0, NO_PARAMS, strtod) == None;
      MatchIsReads(shapes[j], url, strtod);
    }
    if found != 0 {
      assert paths[found - 2] == PathOf(shapes[found - 2]);
      MatchIsReads(shapes[found - 2], url, strtod);
    }
  }
}
