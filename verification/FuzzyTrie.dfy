/** The word trie on the heap and its edit-bounded search. */
module FuzzyTrie {
  import opened Levenshtein

  datatype WordData = WordData(category: string, userData: string)

  type Dictionary = map<string, seq<WordData>>

  // ---------------------------------------------------------------------------------------------
  // Which words the search accepts
  // ---------------------------------------------------------------------------------------------

  /** The rest `w` of a word can still be read: every character takes the next character of the query, for
      nothing or for one edit, or is an extra character, for one edit; the query may end anywhere. */
  predicate Fits(w: string, query: string, qi: nat, edits: int, maxEdits: int)
    decreases |w|
  {
    edits <= maxEdits &&
    (w == ""
     || (qi < |query| && Fits(w[1..], query, qi + 1, if query[qi] == w[0] then edits else edits + 1, maxEdits))
     || Fits(w[1..], query, qi, edits + 1, maxEdits))
  }

  /** Which characters of a word are extra ones; the others take the characters of the query in order. */
  ghost function Cost(w: string, extra: seq<bool>, query: string, qi: nat): int
    requires |extra| == |w|
    decreases |w|
  {
    if w == "" then 0
    else if extra[0] then 1 + Cost(w[1..], extra[1..], query, qi)
    else (if qi < |query| && query[qi] == w[0] then 0 else 1) + Cost(w[1..], extra[1..], query, qi + 1)
  }

  ghost function Taken(extra: seq<bool>): nat {
    if extra == [] then 0 else (if extra[0] then 0 else 1) + Taken(extra[1..])
  }

  /** The word aligns with a prefix of the query by substitutions and insertions within the budget. */
  ghost predicate Aligns(w: string, query: string, qi: nat, budget: int) {
    exists extra: seq<bool> :: |extra| == |w| && qi + Taken(extra) <= |query| && Cost(w, extra, query, qi) <= budget
  }

  lemma {:induction false} CostIsNatural(w: string, extra: seq<bool>, query: string, qi: nat)
    requires |extra| == |w|
    ensures Cost(w, extra, query, qi) >= 0
    decreases |w|
  {
    if w != "" {
      CostIsNatural(w[1..], extra[1..], query, qi);
      CostIsNatural(w[1..], extra[1..], query, qi + 1);
    }
  }

  lemma {:induction false} FitsAligns(w: string, query: string, qi: nat, edits: int, maxEdits: int)
    requires qi <= |query| && Fits(w, query, qi, edits, maxEdits)
    ensures Aligns(w, query, qi, maxEdits - edits)
    decreases |w|
  {
    if w == "" {
      var none: seq<bool> := [];
      assert |none| == |w| && Taken(none) == 0 && Cost(w, none, query, qi) == 0;
    } else {
      var cost := if qi < |query| && query[qi] == w[0] then 0 else 1;
      if qi < |query| && Fits(w[1..], query, qi + 1, edits + cost, maxEdits) {
        FitsAligns(w[1..], query, qi + 1, edits + cost, maxEdits);
        var rest :| |rest| == |w[1..]| && qi + 1 + Taken(rest) <= |query| &&
          Cost(w[1..], rest, query, qi + 1) <= maxEdits - edits - cost;
        var extra := [false] + rest;
        assert extra[1..] == rest;
      } else {
        FitsAligns(w[1..], query, qi, edits + 1, maxEdits);
        var rest :| |rest| == |w[1..]| && qi + Taken(rest) <= |query| &&
          Cost(w[1..], rest, query, qi) <= maxEdits - edits - 1;
        var extra := [true] + rest;
        assert extra[1..] == rest;
      }
    }
  }

  lemma {:induction false} AlignmentFits(w: string, extra: seq<bool>, query: string, qi: nat, edits: int, maxEdits: int)
    requires |extra| == |w| && qi + Taken(extra) <= |query| && Cost(w, extra, query, qi) <= maxEdits - edits
    ensures Fits(w, query, qi, edits, maxEdits)
    decreases |w|
  {
    CostIsNatural(w, extra, query, qi);
    if w != "" {
      if extra[0] {
        AlignmentFits(w[1..], extra[1..], query, qi, edits + 1, maxEdits);
      } else {
        AlignmentFits(w[1..], extra[1..], query, qi + 1, if query[qi] == w[0] then edits else edits + 1, maxEdits);
      }
    }
  }

  /** The search accepts exactly the words that align with some prefix of the query. */
  lemma {:induction false} FitsIsAlignment(w: string, query: string, maxEdits: int)
    ensures Fits(w, query, 0, 0, maxEdits) <==> Aligns(w, query, 0, maxEdits)
  {
    if Fits(w, query, 0, 0, maxEdits) {
      FitsAligns(w, query, 0, 0, maxEdits);
    }
    if Aligns(w, query, 0, maxEdits) {
      var extra :| |extra| == |w| && 0 + Taken(extra) <= |query| && Cost(w, extra, query, 0) <= maxEdits;
      AlignmentFits(w, extra, query, 0, 0, maxEdits);
    }
  }

  lemma FirstAndInit(c: char, s: string)
    requires s != ""
    ensures Init([c] + s) == [c] + Init(s) && Last([c] + s) == Last(s)
  {
  }

  lemma {:induction false} CommonFirst(c: char, s: string, t: string)
    ensures Distance([c] + s, [c] + t) <= Distance(s, t)
    decreases |s| + |t|
  {
    if s == "" {
      assert [c] + s == [c];
      PrefixDistance([c], t);
    } else if t == "" {
      assert [c] + t == [c];
      PrefixDistance([c], s);
      Symmetric([c] + s, [c]);
    } else {
      FirstAndInit(c, s);
      FirstAndInit(c, t);
      CommonFirst(c, Init(s), Init(t));
      CommonFirst(c, Init(s), t);
      CommonFirst(c, s, Init(t));
    }
  }

  lemma {:induction false} PrefixDistance(s: string, t: string)
    ensures Distance(s, s + t) <= |t|
    decreases |t|
  {
    if t == "" {
      assert s + t == s;
      ZeroOnlyWhenEqual(s, s);
    } else {
      assert Init(s + t) == s + Init(t);
      PrefixDistance(s, Init(t));
      OneMoreCharacter(s, s + t);
    }
  }

  lemma {:induction false} TakeFirst(c: char, d: char, s: string, t: string)
    ensures Distance([c] + s, [d] + t) <= (if c == d then 0 else 1) + Distance(s, t)
  {
    CommonFirst(d, s, t);
    var e := Substitute(0, d);
    assert Apply(e, [c] + s) == [d] + s;
    OneEditIsNear(e, [c] + s);
    Triangle([c] + s, [d] + s, [d] + t);
  }

  lemma {:induction false} ExtraFirst(c: char, s: string, t: string)
    ensures Distance([c] + s, t) <= 1 + Distance(s, t)
  {
    var e := Delete(0);
    assert Apply(e, [c] + s) == s;
    OneEditIsNear(e, [c] + s);
    Triangle([c] + s, s, t);
  }

  /** Every accepted word is within the budget of some prefix of the rest of the query. */
  lemma {:induction false} FitsIsNear(w: string, query: string, qi: nat, edits: int, maxEdits: int) returns (k: nat)
    requires qi <= |query| && Fits(w, query, qi, edits, maxEdits)
    ensures qi <= k <= |query| && edits + Distance(w, query[qi..k]) <= maxEdits
    decreases |w|
  {
    if w == "" {
      k := qi;
      assert query[qi..qi] == "";
    } else {
      assert w == [w[0]] + w[1..];
      var cost := if qi < |query| && query[qi] == w[0] then 0 else 1;
      if qi < |query| && Fits(w[1..], query, qi + 1, edits + cost, maxEdits) {
        k := FitsIsNear(w[1..], query, qi + 1, edits + cost, maxEdits);
        TakeFirst(w[0], query[qi], w[1..], query[qi + 1..k]);
        assert query[qi..k] == [query[qi]] + query[qi + 1..k];
      } else {
        k := FitsIsNear(w[1..], query, qi, edits + 1, maxEdits);
        ExtraFirst(w[0], w[1..], query[qi..k]);
      }
    }
  }

  // ---------------------------------------------------------------------------------------------
  // Results
  // ---------------------------------------------------------------------------------------------

  function Rows(word: string, data: seq<WordData>): seq<(string, WordData)> {
    seq(|data|, i requires 0 <= i < |data| => (word, data[i]))
  }

  /** All metadata of the words, word by word. */
  function Listing(order: seq<string>, words: Dictionary): seq<(string, WordData)>
    requires forall w :: w in order ==> w in words
  {
    if order == [] then []
    else
      var last := order[|order| - 1];
      Listing(order[..|order| - 1], words) + Rows(last, words[last])
  }

  /** The words below `current` that the search accepts when it arrives there. */
  ghost function Found(words: Dictionary, current: string, query: string, qi: nat, edits: int,
                       maxEdits: int): set<string> {
    set p | p in words && current <= p && Fits(p[|current|..], query, qi, edits, maxEdits)
  }

  /** Those of them that continue with one of the given characters. */
  ghost function FoundBelow(words: Dictionary, current: string, chars: set<char>, query: string, qi: nat, edits: int,
                            maxEdits: int): set<string> {
    set p | p in words && current < p && p[|current|] in chars && Fits(p[|current|..], query, qi, edits, maxEdits)
  }

  /** One child contributes what its two recursive searches find. */
  lemma FoundBelowOne(words: Dictionary, current: string, ch: char, query: string, qi: nat, edits: int, maxEdits: int,
                      before: set<string>, middle: set<string>, after: set<string>)
    requires edits <= maxEdits
    requires var cost := if qi < |query| && query[qi] == ch then 0 else 1;
      middle == if qi < |query| then before + Found(words, current + [ch], query, qi + 1, edits + cost, maxEdits)
        else before
    requires after == if edits + 1 <= maxEdits
      then middle + Found(words, current + [ch], query, qi, edits + 1, maxEdits) else middle
    ensures after == before + FoundBelow(words, current, {ch}, query, qi, edits, maxEdits)
  {
    var cost := if qi < |query| && query[qi] == ch then 0 else 1;
    var next := current + [ch];
    var left := if qi < |query| then Found(words, next, query, qi + 1, edits + cost, maxEdits) else {};
    var right := if edits + 1 <= maxEdits then Found(words, next, query, qi, edits + 1, maxEdits) else {};
    forall p: string
      ensures p in FoundBelow(words, current, {ch}, query, qi, edits, maxEdits) <==> p in left + right
    {
      ContinuesWith(current, ch, p);
      if next <= p {
        FitsUnfolds(p[|current|..], query, qi, edits, maxEdits);
        assert p[|current|] in {ch} && |next| == |current| + 1;
      }
    }
  }

  lemma FitsUnfolds(w: string, query: string, qi: nat, edits: int, maxEdits: int)
    requires w != "" && edits <= maxEdits
    ensures var cost := if qi < |query| && query[qi] == w[0] then 0 else 1;
      Fits(w, query, qi, edits, maxEdits) <==>
        (qi < |query| && Fits(w[1..], query, qi + 1, edits + cost, maxEdits))
        || (edits + 1 <= maxEdits && Fits(w[1..], query, qi, edits + 1, maxEdits))
  {
  }

  lemma ContinuesWith(current: string, ch: char, p: string)
    ensures current < p && p[|current|] == ch <==> current + [ch] <= p
    ensures current + [ch] <= p ==>
      p[|current|..] != "" && p[|current|..][0] == ch && p[|current|..][1..] == p[|current + [ch]|..]
  {
    var next := current + [ch];
    if current < p && p[|current|] == ch {
      assert p[..|next|] == next;
    }
    if next <= p {
      assert p[..|current|] == next[..|current|] == current;
      assert p[|current|] == next[|current|];
    }
  }

  lemma NothingBelow(words: Dictionary, current: string, query: string, qi: nat, edits: int, maxEdits: int,
                     before: set<string>)
    ensures before + FoundBelow(words, current, {}, query, qi, edits, maxEdits) == before
  {
  }

  lemma Moved(visited: set<char>, pending: set<char>, ch: char)
    requires ch in pending
    ensures (visited + {ch}) + (pending - {ch}) == visited + pending && |pending - {ch}| < |pending|
  {
  }

  lemma FoundBelowGrows(words: Dictionary, current: string, visited: set<char>, ch: char, query: string, qi: nat,
                        edits: int, maxEdits: int, before: set<string>, middle: set<string>, after: set<string>)
    requires middle == before + FoundBelow(words, current, visited, query, qi, edits, maxEdits)
    requires after == middle + FoundBelow(words, current, {ch}, query, qi, edits, maxEdits)
    ensures after == before + FoundBelow(words, current, visited + {ch}, query, qi, edits, maxEdits)
  {
  }

  /** What a search finds from `current` is the word that ends there and what lies below. */
  lemma FoundHere(words: Dictionary, current: string, chars: set<char>, query: string, qi: nat, edits: int,
                  maxEdits: int, before: set<string>, early: set<string>, middle: set<string>, after: set<string>)
    requires edits <= maxEdits
    requires forall p :: p in words && current < p ==> p[|current|] in chars
    requires early == before || (early == before + {current} && current in words)
    requires middle == early + FoundBelow(words, current, chars, query, qi, edits, maxEdits)
    requires after == if current in words then middle + {current} else middle
    ensures after == before + Found(words, current, query, qi, edits, maxEdits)
  {
    forall p: string
      ensures p in Found(words, current, query, qi, edits, maxEdits)
         <==> (p == current && current in words) || p in FoundBelow(words, current, chars, query, qi, edits, maxEdits)
    {
      assert current <= p && |p| == |current| ==> p == current;
      assert current[|current|..] == "";
    }
  }

  /** The results of one query, filled in as the search goes: `uniqueWords` are the words reported so far. */
  datatype Matches = Matches(results: seq<(string, WordData)>, uniqueWords: set<string>)

  /** Reporting these words, each for the first time, gives these results. */
  ghost predicate InOrder(order: seq<string>, m: Matches, words: Dictionary)
    decreases |order|
  {
    if order == [] then m == Matches([], {})
    else
      var last, others := order[|order| - 1], order[..|order| - 1];
      last in words && last !in others &&
      exists before :: InOrder(others, before, words)
        && m == Matches(before.results + Rows(last, words[last]), before.uniqueWords + {last})
  }

  /** The results are the metadata of the words reported so far, each word once. */
  ghost predicate Lists(m: Matches, words: Dictionary) {
    exists order :: InOrder(order, m, words)
  }

  lemma {:induction false} InOrderIsListing(order: seq<string>, m: Matches, words: Dictionary)
    requires InOrder(order, m, words)
    ensures forall w :: w in order <==> w in m.uniqueWords
    ensures forall w :: w in order ==> w in words
    ensures forall i, j :: 0 <= i < j < |order| ==> order[i] != order[j]
    ensures m.results == Listing(order, words)
    decreases |order|
  {
    if order != [] {
      var last, others := order[|order| - 1], order[..|order| - 1];
      var before :| InOrder(others, before, words)
        && m == Matches(before.results + Rows(last, words[last]), before.uniqueWords + {last});
      InOrderIsListing(others, before, words);
      assert order == others + [last];
    }
  }

  /** Reports a word with all its metadata, unless it has been reported before. */
  method Report(word: string, metadata: seq<WordData>, m: Matches, ghost words: Dictionary) returns (after: Matches)
    requires Lists(m, words) && word in words && words[word] == metadata
    ensures Lists(after, words) && after.uniqueWords == m.uniqueWords + {word}
  {
    after := m;
    if word !in m.uniqueWords {
      for i := 0 to |metadata|
        invariant after == Matches(m.results + Rows(word, metadata[..i]), m.uniqueWords)
      {
        after := after.(results := after.results + [(word, metadata[i])]);
      }
      assert metadata[..|metadata|] == metadata;
      after := after.(uniqueWords := after.uniqueWords + {word});
      ghost var order :| InOrder(order, m, words);
      InOrderIsListing(order, m, words);
      assert (order + [word])[..|order|] == order;
      assert InOrder(order + [word], after, words);
    }
  }

  // ---------------------------------------------------------------------------------------------
  // The trie
  // ---------------------------------------------------------------------------------------------

  class TrieNode {
    /** The path from the root to the node. */
    ghost const path: string
    var children: map<char, TrieNode>
    var isEndOfWord: bool
    var metadata: seq<WordData>

    constructor (ghost path: string)
      ensures this.path == path && children == map[] && !isEndOfWord && metadata == []
    {
      this.path := path;
      children, isEndOfWord, metadata := map[], false, [];
    }
  }

  function With(words: Dictionary, word: string, data: WordData): Dictionary {
    words[word := (if word in words then words[word] else []) + [data]]
  }

  lemma Slices(s: string, i: nat)
    requires i < |s|
    ensures s[..i] + [s[i]] == s[..i + 1]
  {
  }

  /** Each path of the trie leads to a node of its own, and the children of a node are the paths with one more
      character. */
  ghost predicate IsTree(root: TrieNode, at: map<string, TrieNode>, children: map<string, map<char, TrieNode>>,
                         longest: nat) {
    && at.Keys == children.Keys
    && "" in at && at[""] == root
    && (forall p :: p in at ==> at[p].path == p)
    && (forall p, ch :: p in at && ch in children[p] ==> p + [ch] in at && at[p + [ch]] == children[p][ch])
    && (forall p {:trigger HasParent(p, children)} :: p in at ==> HasParent(p, children))
    && (forall p :: p in at ==> |p| <= longest)
  }

  ghost predicate HasParent(p: string, children: map<string, map<char, TrieNode>>) {
    p != "" ==> Init(p) in children && Last(p) in children[Init(p)]
  }

  lemma TreeGrows(root: TrieNode, at: map<string, TrieNode>, children: map<string, map<char, TrieNode>>, longest: nat,
                  path: string, ch: char, added: TrieNode)
    requires IsTree(root, at, children, longest) && path in at && path + [ch] !in at
    requires added.path == path + [ch]
    ensures var grownAt := at[path + [ch] := added];
      var grown := children[path := children[path][ch := added]][path + [ch] := map[]];
      IsTree(root, grownAt, grown, longest + 1)
  {
    LinksGrow(at, children, path, ch, added);
    ParentsGrow(at.Keys, children, path, ch, added);
  }

  ghost predicate Linked(at: map<string, TrieNode>, children: map<string, map<char, TrieNode>>, p: string, ch: char) {
    p in children && ch in children[p] ==> p + [ch] in at && at[p + [ch]] == children[p][ch]
  }

  lemma LinksGrow(at: map<string, TrieNode>, children: map<string, map<char, TrieNode>>, path: string, ch: char,
                  added: TrieNode)
    requires at.Keys == children.Keys && path in at && path + [ch] !in at
    requires forall p, c :: p in at && c in children[p] ==> p + [c] in at && at[p + [c]] == children[p][c]
    ensures var grownAt, grown := at[path + [ch] := added],
      children[path := children[path][ch := added]][path + [ch] := map[]];
      forall p, c :: p in grownAt && c in grown[p] ==> p + [c] in grownAt && grownAt[p + [c]] == grown[p][c]
  {
    var grownAt, grown := at[path + [ch] := added], children[path := children[path][ch := added]][path + [ch] := map[]];
    forall p, c | p in grownAt && c in grown[p]
      ensures p + [c] in grownAt && grownAt[p + [c]] == grown[p][c]
    {
      OneLinkGrows(at, children, path, ch, added, p, c);
    }
  }

  lemma OneLinkGrows(at: map<string, TrieNode>, children: map<string, map<char, TrieNode>>, path: string, ch: char,
                     added: TrieNode, p: string, c: char)
    requires path in children && path + [ch] !in at && Linked(at, children, p, c)
    ensures Linked(at[path + [ch] := added], children[path := children[path][ch := added]][path + [ch] := map[]], p, c)
  {
    assert Init(p + [c]) == p && Last(p + [c]) == c;
    assert Init(path + [ch]) == path && Last(path + [ch]) == ch;
  }

  lemma ParentsGrow(paths: set<string>, children: map<string, map<char, TrieNode>>, path: string, ch: char,
                    added: TrieNode)
    requires paths == children.Keys && path in paths && path + [ch] !in paths
    requires forall p {:trigger HasParent(p, children)} :: p in paths ==> HasParent(p, children)
    ensures var grown := children[path := children[path][ch := added]][path + [ch] := map[]];
      forall p {:trigger HasParent(p, grown)} :: p in grown ==> HasParent(p, grown)
  {
    var next := path + [ch];
    assert Init(next) == path && Last(next) == ch;
    var grown := children[path := children[path][ch := added]][next := map[]];
    forall p | p in grown
      ensures HasParent(p, grown)
    {
      assert p != next ==> HasParent(p, children);
    }
  }

  function MetadataOf(words: Dictionary, p: string): seq<WordData> {
    if p in words then words[p] else []
  }

  /** What the fields of a node hold. */
  ghost predicate Shows(node: TrieNode, links: map<char, TrieNode>, words: Dictionary)
    reads node
  {
    && node.children == links
    && node.isEndOfWord == (node.path in words) && node.metadata == MetadataOf(words, node.path)
  }

  class MMapTrie {
    const root: TrieNode
    /** The node that each path from the root leads to. */
    ghost var at: map<string, TrieNode>
    /** The children of each of these nodes. */
    ghost var links: map<string, map<char, TrieNode>>
    ghost var longest: nat
    /** The stored words with their metadata. */
    ghost var words: Dictionary

    ghost predicate Valid()
      reads this, at.Values
    {
      && IsTree(root, at, links, longest) && words.Keys <= at.Keys
      && (forall p :: p in at ==> Shows(at[p], links[p], words))
    }

    constructor ()
      ensures Valid() && words == map[] && fresh(at.Values)
    {
      root := new TrieNode("");
      new;
      at, links := map["" := root], map["" := map[]];
      longest, words := 0, map[];
    }

    /** Adds one more metadata entry for a word, and the word when it is new. */
    method Insert(word: string, category: string, userData: string)
      requires Valid()
      modifies this, at.Values
      ensures Valid() && fresh(at.Values - old(at.Values))
      ensures words == With(old(words), word, WordData(category, userData))
    {
      var node := NodeFor(word);
      Mark(node, WordData(category, userData), word);
    }

    /** The loop over the characters of the word. */
    method NodeFor(word: string) returns (node: TrieNode)
      requires Valid()
      modifies this, at.Values
      ensures Valid() && fresh(at.Values - old(at.Values)) && words == old(words)
      ensures word in at && at[word] == node
    {
      node := root;
      for i := 0 to |word|
        invariant Valid() && fresh(at.Values - old(at.Values)) && words == old(words)
        invariant word[..i] in at && at[word[..i]] == node
      {
        Slices(word, i);
        node := Descend(node, word[i], word[..i]);
      }
      assert word[..|word|] == word;
    }

    method Mark(node: TrieNode, data: WordData, ghost path: string)
      requires Valid() && path in at && at[path] == node
      modifies this`words, node
      ensures Valid() && at == old(at)
      ensures words == With(old(words), path, data)
    {
      Stamp(node, data, path);
    }

    /** The fields of the word's node. */
    method Stamp(node: TrieNode, data: WordData, ghost path: string)
      requires path in at && at[path] == node
      requires forall p :: p in at ==> p in links && at[p].path == p && Shows(at[p], links[p], words)
      modifies this`words, node
      ensures words == With(old(words), path, data)
      ensures forall p :: p in at ==> Shows(at[p], links[p], words)
    {
      words := With(words, path, data);
      node.isEndOfWord := true;
      node.metadata := node.metadata + [data];
    }

    /** The child for one character, created when it is missing. */
    method Descend(node: TrieNode, ch: char, ghost path: string) returns (child: TrieNode)
      requires Valid() && path in at && at[path] == node
      modifies this, node
      ensures Valid() && fresh(at.Values - old(at.Values)) && words == old(words)
      ensures path + [ch] in at && at[path + [ch]] == child
    {
      if ch !in node.children {
        var added := new TrieNode(path + [ch]);
        assert Valid() && words == old(words);
        Attach(node, ch, added, path);
      }
      child := node.children[ch];
    }

    method Attach(node: TrieNode, ch: char, added: TrieNode, ghost path: string)
      requires Valid() && path in at && at[path] == node && ch !in node.children
      requires added.path == path + [ch] && added.children == map[] && !added.isEndOfWord && added.metadata == []
      modifies this, node
      ensures Valid() && at == old(at)[path + [ch] := added] && at.Values <= old(at.Values) + {added} &&
        words == old(words)
      ensures ch in node.children && node.children[ch] == added
    {
      assert Init(path + [ch]) == path && Last(path + [ch]) == ch;
      assert path + [ch] in at ==> HasParent(path + [ch], links);
      TreeGrows(root, at, links, longest, path, ch, added);
      Link(node, ch, added, path);
    }

    method Link(node: TrieNode, ch: char, added: TrieNode, ghost path: string)
      requires path in at && at[path] == node && path + [ch] !in at && path in links
      requires forall p :: p in at ==> p in links && at[p].path == p && Shows(at[p], links[p], words)
      requires added.path == path + [ch] && Shows(added, map[], words)
      modifies this, node
      ensures at == old(at)[path + [ch] := added] && longest == old(longest) + 1 && words == old(words)
      ensures links == old(links)[path := old(links)[path][ch := added]][path + [ch] := map[]]
      ensures forall p :: p in at ==> Shows(at[p], links[p], words)
    {
      node.children := node.children[ch := added];
      at, longest := at[path + [ch] := added], longest + 1;
      links := links[path := links[path][ch := added]][path + [ch] := map[]];
    }

    /** Every stored word below a path goes through one of its children. */
    lemma ContinuesInChild(current: string, p: string)
      requires Valid() && current in at && p in at && current < p
      ensures p[|current|] in at[current].children
      decreases |p|
    {
      assert HasParent(p, links);
      if |p| == |current| + 1 {
        assert Init(p) == current;
      } else {
        assert current < Init(p);
        ContinuesInChild(current, Init(p));
      }
    }

    /** Reports what the children contribute, in whatever order the hash table lists them. */
    method FuzzySearchChildren(node: TrieNode, query: string, current: string, qi: nat, edits: int, maxEdits: int,
                               m: Matches) returns (after: Matches)
      requires Valid() && current in at && at[current] == node && Lists(m, words)
      requires qi <= |query| && edits <= maxEdits
      ensures Lists(after, words)
      ensures after.uniqueWords == m.uniqueWords + FoundBelow(words, current, node.children.Keys, query, qi, edits,
        maxEdits)
      decreases longest - |current|, 0
    {
      after := m;
      var pending := node.children.Keys;
      ghost var visited: set<char> := {};
      NothingBelow(words, current, query, qi, edits, maxEdits, m.uniqueWords);
      while pending != {}
        invariant visited + pending == node.children.Keys
        invariant Lists(after, words)
        invariant after.uniqueWords == m.uniqueWords + FoundBelow(words, current, visited, query, qi, edits, maxEdits)
        decreases |pending|
      {
        var ch :| ch in pending;
        after := FuzzySearchChild(node.children[ch], query, current, ch, qi, edits, maxEdits, after, m.uniqueWords,
          visited);
        Moved(visited, pending, ch);
        pending, visited := pending - {ch}, visited + {ch};
      }
      assert visited == node.children.Keys;
    }

    method FuzzySearchChild(nextNode: TrieNode, query: string, current: string, ch: char, qi: nat, edits: int,
                            maxEdits: int,
                            m: Matches, ghost before: set<string>, ghost visited: set<char>) returns (after: Matches)
      requires Valid() && current + [ch] in at && at[current + [ch]] == nextNode && Lists(m, words)
      requires qi <= |query| && edits <= maxEdits
      requires m.uniqueWords == before + FoundBelow(words, current, visited, query, qi, edits, maxEdits)
      ensures Lists(after, words)
      ensures after.uniqueWords == before + FoundBelow(words, current, visited + {ch}, query, qi, edits, maxEdits)
      decreases longest - |current| - 1, 2
    {
      after := m;
      var cost := if qi < |query| && query[qi] == ch then 0 else 1;
      if qi < |query| {
        after := FuzzySearchHelper(nextNode, query, current + [ch], qi + 1, edits + cost, maxEdits, after);
      }
      ghost var middle := after.uniqueWords;
      if edits + 1 <= maxEdits {
        after := FuzzySearchHelper(nextNode, query, current + [ch], qi, edits + 1, maxEdits, after);
      }
      FoundBelowOne(words, current, ch, query, qi, edits, maxEdits, m.uniqueWords, middle, after.uniqueWords);
      FoundBelowGrows(words, current, visited, ch, query, qi, edits, maxEdits, before, m.uniqueWords,
        after.uniqueWords);
    }

    method FuzzySearchHelper(node: TrieNode, query: string, current: string, qi: nat, edits: int, maxEdits: int,
                             m: Matches) returns (after: Matches)
      requires Valid() && current in at && at[current] == node && Lists(m, words)
      requires qi <= |query|
      ensures Lists(after, words)
      ensures after.uniqueWords == m.uniqueWords + Found(words, current, query, qi, edits, maxEdits)
      decreases longest - |current|, 1
    {
      after := m;
      if edits > maxEdits {
        return;
      }
      StoredBelow(current);
      assert node.isEndOfWord <==> current in words;
      if qi == |query| && node.isEndOfWord {
        after := Report(current, node.metadata, after, words);
      }
      ghost var early := after.uniqueWords;
      assert early == m.uniqueWords || (early == m.uniqueWords + {current} && current in words);
      after := FuzzySearchChildren(node, query, current, qi, edits, maxEdits, after);
      ghost var middle := after.uniqueWords;
      if edits <= maxEdits && node.isEndOfWord {
        after := Report(current, node.metadata, after, words);
      }
      FoundHere(words, current, node.children.Keys, query, qi, edits, maxEdits, m.uniqueWords, early, middle,
        after.uniqueWords);
    }

    lemma StoredBelow(current: string)
      requires Valid() && current in at
      ensures forall p :: p in words && current < p ==> p[|current|] in at[current].children.Keys
    {
      forall p | p in words && current < p
        ensures p[|current|] in at[current].children.Keys
      {
        ContinuesInChild(current, p);
      }
    }

    /** The words of the order are those that align with a prefix of the query within the budget, each once, and the
        results are their metadata. */
    ghost predicate Finds(results: seq<(string, WordData)>, order: seq<string>, query: string, maxEdits: int)
      reads this
    {
      && (forall w :: w in order <==> w in words && Aligns(w, query, 0, maxEdits))
      && (forall i, j :: 0 <= i < j < |order| ==> order[i] != order[j])
      && results == Listing(order, words)
    }

    /** Every stored word that aligns with a prefix of the query within the budget is reported once, with all
        its metadata, and no other. */
    method FuzzySearch(query: string, maxEdits: int) returns (results: seq<(string, WordData)>)
      requires Valid()
      ensures exists order :: Finds(results, order, query, maxEdits)
    {
      assert InOrder([], Matches([], {}), words);
      var m := FuzzySearchHelper(root, query, "", 0, 0, maxEdits, Matches([], {}));
      ghost var order :| InOrder(order, m, words);
      InOrderIsListing(order, m, words);
      results := m.results;
      forall w: string
        ensures w in order <==> w in words && Aligns(w, query, 0, maxEdits)
      {
        FitsIsAlignment(w, query, maxEdits);
        assert w[0..] == w;
      }
      assert Finds(results, order, query, maxEdits);
    }

    /** The metadata stored for exactly this word. */
    method Search(word: string) returns (results: seq<WordData>)
      requires Valid()
      ensures results == if word in words then words[word] else []
    {
      var node := root;
      for i := 0 to |word|
        invariant word[..i] in at && at[word[..i]] == node
      {
        Slices(word, i);
        if word[i] !in node.children {
          NotStored(word, i);
          return [];
        }
        node := node.children[word[i]];
      }
      assert word[..|word|] == word;
      if node.isEndOfWord {
        return node.metadata;
      }
      return [];
    }

    lemma NotStored(word: string, i: nat)
      requires Valid() && i < |word| && word[..i] in at && word[i] !in at[word[..i]].children
      ensures word !in words
    {
      if word in at {
        assert word[..i] < word;
        ContinuesInChild(word[..i], word);
      }
    }
  }
}
