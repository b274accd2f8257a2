/** Scans of the key-value store: seek to the fixed prefix of the pattern, walk on while keys have it. */
module KeyScan {
  import opened Wrappers
  import opened Wildcards

  datatype Entry = Entry(key: string, value: string)

  /** The store as its iterator shows it, in byte order of the keys. */
  type Table = seq<Entry>

  predicate Less(a: string, b: string) {
    b != "" && (a == "" || a[0] < b[0] || (a[0] == b[0] && Less(a[1..], b[1..])))
  }

  ghost predicate Sorted(table: Table) {
    forall i, j :: 0 <= i < j < |table| ==> Less(table[i].key, table[j].key)
  }

  /** Where the iterator stands after `Seek`: at the first key that is not less than the target. */
  function Seek(table: Table, target: string): (k: nat)
    ensures k <= |table|
  {
    if table == [] || !Less(table[0].key, target) then 0 else 1 + Seek(table[1..], target)
  }

  lemma {:induction false} SeekSplits(table: Table, target: string)
    ensures var k := Seek(table, target);
      (forall i :: 0 <= i < k ==> Less(table[i].key, target)) && (k < |table| ==> !Less(table[k].key, target))
  {
    if table != [] && Less(table[0].key, target) {
      SeekSplits(table[1..], target);
    }
  }

  // ---------------------------------------------------------------------------------------------
  // Order and prefixes
  // ---------------------------------------------------------------------------------------------

  lemma {:induction false} LessTransitive(a: string, b: string, c: string)
    requires Less(a, b) && Less(b, c)
    ensures Less(a, c)
  {
    if a != "" && a[0] == b[0] == c[0] {
      LessTransitive(a[1..], b[1..], c[1..]);
    }
  }

  lemma {:induction false} LessIrreflexive(a: string)
    ensures !Less(a, a)
  {
    if a != "" {
      LessIrreflexive(a[1..]);
    }
  }

  lemma {:induction false} PrefixNotAfter(pre: string, key: string)
    requires pre <= key
    ensures !Less(key, pre)
  {
    if pre != "" {
      PrefixNotAfter(pre[1..], key[1..]);
    }
  }

  /** Between a prefix and a key that has it, every key has it. */
  lemma {:induction false} PrefixBetween(pre: string, a: string, b: string)
    requires !Less(a, pre) && Less(a, b) && pre <= b
    ensures pre <= a
  {
    if pre != "" {
      PrefixBetween(pre[1..], a[1..], b[1..]);
      assert a == [a[0]] + a[1..] && pre == [pre[0]] + pre[1..];
    }
  }

  /** The last byte of the prefix plus one; 0xFF wraps around to 0. */
  function Bumped(pre: string): string
    requires pre != ""
  {
    var last := pre[|pre| - 1];
    pre[..|pre| - 1] + [if last >= '\U{FF}' then '\0' else last + 1 as char]
  }

  lemma {:induction false} BumpedBounds(pre: string, key: string)
    requires pre != "" && pre[|pre| - 1] < '\U{FF}'
    ensures pre <= key ==> Less(key, Bumped(pre))
    ensures Less(key, Bumped(pre)) && !Less(key, pre) ==> pre <= key
  {
    var up := Bumped(pre);
    if |pre| == 1 {
      assert up[0] == pre[0] + 1 as char && up[1..] == "" && pre[1..] == "";
      if key != "" && key[0] == pre[0] {
        assert key[..1] == pre;
      } else if key != "" && Less(key, up) {
        assert !Less(key[1..], up[1..]);
        assert up[0] as int == pre[0] as int + 1;
      }
    } else {
      assert up[0] == pre[0] && up[1..] == Bumped(pre[1..]);
      if key != "" && key[0] == pre[0] {
        BumpedBounds(pre[1..], key[1..]);
        assert key == [key[0]] + key[1..] && pre == [pre[0]] + pre[1..];
      }
    }
  }

  /** After the wrap-around, the keys with the prefix all come after the bumped prefix. */
  lemma {:induction false} BumpedWraps(pre: string, key: string)
    requires pre != "" && pre[|pre| - 1] >= '\U{FF}' && pre <= key
    ensures !Less(key, Bumped(pre))
  {
    var up := Bumped(pre);
    if |pre| > 1 {
      assert up[0] == pre[0] && up[1..] == Bumped(pre[1..]);
      BumpedWraps(pre[1..], key[1..]);
    }
  }

  // ---------------------------------------------------------------------------------------------
  // Queries
  // ---------------------------------------------------------------------------------------------

  /** The position of the first star from `i` on, or the length. */
  function Star(wild: string, i: nat): (k: nat)
    requires i <= |wild|
    ensures i <= k <= |wild|
    decreases |wild| - i
  {
    if i == |wild| || wild[i] == '*' then i else Star(wild, i + 1)
  }

  /** The pattern up to its first star. */
  function Prefix(wild: string): string {
    wild[..Star(wild, 0)]
  }

  lemma {:induction false} StarIsFirst(wild: string, i: nat)
    requires i <= |wild|
    ensures forall j :: i <= j < Star(wild, i) ==> wild[j] != '*'
    decreases |wild| - i
  {
    if i < |wild| && wild[i] != '*' {
      StarIsFirst(wild, i + 1);
    }
  }

  lemma PrefixIsStarFree(wild: string)
    ensures var pre := Prefix(wild); pre <= wild && '*' !in pre
  {
    StarIsFirst(wild, 0);
  }

  predicate Hit(e: Entry, pre: string, wild: string) {
    pre <= e.key && Matches(CStr(wild), CStr(e.key))
  }

  /** The entries that match the pattern among the first `k` and those with the prefix. */
  function HitsTo(table: Table, k: nat, pre: string, wild: string): Table
    requires k <= |table|
  {
    if k == 0 then [] else HitsTo(table, k - 1, pre, wild) + if Hit(table[k - 1], pre, wild) then [table[k - 1]] else []
  }

  /** All such entries; with the empty prefix, the simple query. */
  function Hits(table: Table, pre: string, wild: string): Table {
    HitsTo(table, |table|, pre, wild)
  }

  /** The items of a listing whose running number lies between `skip` and `skip + limit`; a limit of -1 is no
      limit. */
  function Window<T>(s: seq<T>, skip: int, limit: int): seq<T> {
    if s == [] then []
    else
      var n := |s| - 1;
      Window(s[..n], skip, limit) + if InWindow(n, skip, limit) then [s[n]] else []
  }

  predicate InWindow(i: int, skip: int, limit: int) {
    i > skip - 1 && (i < skip + limit || limit == -1)
  }

  function Clamped(i: int, n: nat): (k: nat)
    ensures k <= n
  {
    if i < 0 then 0 else if i > n then n else i
  }

  function Slice<T>(s: seq<T>, skip: int, limit: int): seq<T> {
    var lo, hi := Clamped(skip, |s|), if limit == -1 then |s| else Clamped(skip + limit, |s|);
    if lo <= hi then s[lo..hi] else []
  }

  lemma SliceGrows<T>(s: seq<T>, x: T, skip: int, limit: int)
    ensures Slice(s + [x], skip, limit) == Slice(s, skip, limit) + if InWindow(|s|, skip, limit) then [x] else []
  {
  }

  /** The window is one slice of the listing. */
  lemma {:induction false} WindowIsSlice<T>(s: seq<T>, skip: int, limit: int)
    ensures Window(s, skip, limit) == Slice(s, skip, limit)
  {
    if s != [] {
      var n := |s| - 1;
      assert s == s[..n] + [s[n]];
      WindowIsSlice(s[..n], skip, limit);
      SliceGrows(s[..n], s[n], skip, limit);
    }
  }

  function Reversed<T>(s: seq<T>): seq<T> {
    if s == [] then [] else Reversed(s[1..]) + [s[0]]
  }

  lemma {:induction false} WindowGrows<T>(s: seq<T>, x: T, skip: int, limit: int)
    ensures Window(s + [x], skip, limit) == Window(s, skip, limit) + if InWindow(|s|, skip, limit) then [x] else []
  {
    assert (s + [x])[..|s|] == s;
  }

  lemma {:induction false} WindowFull<T>(s: seq<T>, more: seq<T>, skip: int, limit: int)
    requires limit != -1 && skip + limit < |s|
    ensures Window(s + more, skip, limit) == Window(s, skip, limit)
  {
    if more == [] {
      assert s + more == s;
    } else {
      var n := |more| - 1;
      assert s + more == (s + more[..n]) + [more[n]];
      WindowFull(s, more[..n], skip, limit);
      WindowGrows(s + more[..n], more[n], skip, limit);
    }
  }

  /** One result row; an entry whose value cannot be decoded gives an error row and a row with only its key. */
  datatype Row<V> = Found(key: string, value: V) | Error(text: string) | KeyOnly(key: string)

  /** `load` decodes a stored value, if need be as a list of one string. */
  function RowsOf<V>(e: Entry, load: string -> Option<V>): seq<Row<V>> {
    match load(e.value)
    case Some(v) => [Found(e.key, v)]
    case None => [Error(e.value), KeyOnly(e.key)]
  }

  function Rows<V>(entries: seq<Entry>, load: string -> Option<V>): seq<Row<V>> {
    if entries == [] then [] else Rows(entries[..|entries| - 1], load) + RowsOf(entries[|entries| - 1], load)
  }

  predicate AllDecode<V>(entries: seq<Entry>, load: string -> Option<V>) {
    entries == [] || (AllDecode(entries[..|entries| - 1], load) && load(entries[|entries| - 1].value).Some?)
  }

  lemma {:induction false} RowsGrow<V>(entries: seq<Entry>, e: Entry, load: string -> Option<V>)
    ensures Rows(entries + [e], load) == Rows(entries, load) + RowsOf(e, load)
    ensures AllDecode(entries + [e], load) == (AllDecode(entries, load) && load(e.value).Some?)
  {
    assert (entries + [e])[..|entries|] == entries;
  }

  // ---------------------------------------------------------------------------------------------
  // Why the scan is the query
  // ---------------------------------------------------------------------------------------------

  lemma HitsGrow(table: Table, k: nat, pre: string, wild: string)
    requires k < |table|
    ensures HitsTo(table, k + 1, pre, wild) == HitsTo(table, k, pre, wild) + if Hit(table[k], pre, wild)
      then [table[k]] else []
  {
  }

  lemma HitsShrink(table: Table, k: nat, pre: string, wild: string, hits: Table)
    requires k < |table|
    ensures HitsTo(table, k + 1, pre, wild) + hits
         == HitsTo(table, k, pre, wild) + if Hit(table[k], pre, wild) then [table[k]] + hits else hits
  {
    HitsGrow(table, k, pre, wild);
  }

  lemma {:induction false} NoHits(table: Table, lo: nat, hi: nat, pre: string, wild: string)
    requires lo <= hi <= |table|
    requires forall i :: lo <= i < hi ==> !(pre <= table[i].key)
    ensures HitsTo(table, hi, pre, wild) == HitsTo(table, lo, pre, wild)
    decreases hi
  {
    if lo < hi {
      NoHits(table, lo, hi - 1, pre, wild);
      HitsGrow(table, hi - 1, pre, wild);
    }
  }

  lemma {:induction false} NoHitsAtStart(table: Table, pre: string, wild: string)
    requires Sorted(table)
    ensures HitsTo(table, Seek(table, pre), pre, wild) == []
  {
    SeekSplits(table, pre);
    NoHitsBefore(table, Seek(table, pre), pre, wild);
  }

  lemma {:induction false} NoHitsBefore(table: Table, k: nat, pre: string, wild: string)
    requires Sorted(table) && k <= |table| && (k == 0 || Less(table[k - 1].key, pre))
    ensures HitsTo(table, k, pre, wild) == []
  {
    forall i | 0 <= i < k
      ensures !(pre <= table[i].key)
    {
      if i < k - 1 {
        LessTransitive(table[i].key, table[k - 1].key, pre);
      }
      if pre <= table[i].key {
        PrefixNotAfter(pre, table[i].key);
      }
    }
    NoHits(table, 0, k, pre, wild);
  }

  lemma {:induction false} NoHitsAfter(table: Table, k: nat, pre: string, wild: string)
    requires Sorted(table) && k <= |table|
    requires k < |table| ==> !Less(table[k].key, pre) && !(pre <= table[k].key)
    ensures HitsTo(table, k, pre, wild) == Hits(table, pre, wild)
  {
    forall i | k <= i < |table|
      ensures !(pre <= table[i].key)
    {
      if k < i && pre <= table[i].key {
        PrefixBetween(pre, table[k].key, table[i].key);
      }
    }
    NoHits(table, k, |table|, pre, wild);
  }

  lemma {:induction false} StaysAfter(table: Table, target: string, k: nat)
    requires Sorted(table) && Seek(table, target) <= k < |table|
    ensures !Less(table[k].key, target)
  {
    var start := Seek(table, target);
    SeekSplits(table, target);
    if start < k && Less(table[k].key, target) {
      LessTransitive(table[start].key, table[k].key, target);
    }
  }

  /** Nothing that the prefix hides can match: no '?' and no NUL before the first star. */
  predicate Plain(wild: string) {
    '?' !in Prefix(wild) && '\0' !in Prefix(wild)
  }

  lemma CStrKeepsPrefix(pre: string, s: string)
    requires pre <= s && '\0' !in pre
    ensures pre <= CStr(s)
  {
    CStrIsCString(s);
    assert forall i :: 0 <= i < |pre| ==> s[i] == pre[i] != '\0';
  }

  lemma {:induction false} MatchKeepsPrefix(pre: string, wild: string, str: string, i: nat)
    requires pre <= wild && '*' !in pre && '?' !in pre && i <= |pre| && i <= |str| && MatchesFrom(wild, str, i, i)
    ensures |pre| <= |str| && forall j :: i <= j < |pre| ==> str[j] == pre[j]
    decreases |pre| - i
  {
    if i < |pre| {
      assert wild[i] == pre[i] && pre[i] in pre;
      MatchKeepsPrefix(pre, wild, str, i + 1);
    }
  }

  lemma PlainHit(e: Entry, wild: string)
    requires Plain(wild)
    ensures Hit(e, Prefix(wild), wild) == Hit(e, "", wild)
  {
    if Matches(CStr(wild), CStr(e.key)) {
      PrefixIsStarFree(wild);
      CStrKeepsPrefix(Prefix(wild), wild);
      MatchKeepsPrefix(Prefix(wild), CStr(wild), CStr(e.key), 0);
      CStrIsCString(e.key);
    }
  }

  lemma {:induction false} PlainScanIsQuery(table: Table, k: nat, wild: string)
    requires Plain(wild) && k <= |table|
    ensures HitsTo(table, k, Prefix(wild), wild) == HitsTo(table, k, "", wild)
  {
    if k > 0 {
      PlainScanIsQuery(table, k - 1, wild);
      PlainHit(table[k - 1], wild);
    }
  }

  /** A key of the language: 'x' for each '?', nothing for a star. */
  function Sample(wild: string): (key: string)
    ensures Suits(wild, key)
  {
    if wild == "" then ""
    else if wild[0] == '*' then Sample(wild[1..])
    else [if wild[0] == '?' then 'x' else wild[0]] + Sample(wild[1..])
  }

  lemma {:induction false} SampleHasNoQuestion(pre: string, wild: string)
    requires pre <= wild && '*' !in pre && pre <= Sample(wild)
    ensures '?' !in pre
  {
    if pre != "" {
      assert wild[0] == pre[0];
      assert Sample(wild)[1..] == Sample(wild[1..]);
      SampleHasNoQuestion(pre[1..], wild[1..]);
      assert pre == [pre[0]] + pre[1..];
    }
  }

  lemma {:induction false} SampleHasNoNul(wild: string)
    requires '\0' !in wild
    ensures '\0' !in Sample(wild)
  {
    if wild != "" {
      SampleHasNoNul(wild[1..]);
    }
  }

  lemma WholeCStr(s: string)
    requires '\0' !in s
    ensures CStr(s) == s
  {
    CStrIsCString(s);
  }

  /** For every other pattern there is a store of one key where the scan misses it. */
  lemma OtherScanMisses(wild: string) returns (table: Table)
    requires !Plain(wild)
    ensures Sorted(table) && Hits(table, "", wild) == table && Hits(table, Prefix(wild), wild) == [] && table != []
  {
    var key := Sample(CStr(wild));
    CStrIsCString(wild);
    MatchesIsSuits(CStr(wild), key);
    SampleHasNoNul(CStr(wild));
    WholeCStr(key);
    table := [Entry(key, "")];
    assert HitsTo(table, 0, "", wild) == HitsTo(table, 0, Prefix(wild), wild) == [];
    var pre := Prefix(wild);
    PrefixIsStarFree(wild);
    if pre <= key {
      assert forall i :: 0 <= i < |pre| ==> key[i] == pre[i];
      CStrKeepsPrefix(pre, wild);
      SampleHasNoQuestion(pre, CStr(wild));
    }
  }

  /** The scan from the prefix is the simple query on every store exactly when the prefix is plain. */
  lemma ScanIsQueryExactlyWhenPlain(wild: string)
    ensures Plain(wild) <==> forall table :: Sorted(table) ==> Hits(table, Prefix(wild), wild) == Hits(table, "", wild)
  {
    if Plain(wild) {
      forall table | Sorted(table)
        ensures Hits(table, Prefix(wild), wild) == Hits(table, "", wild)
      {
        PlainScanIsQuery(table, |table|, wild);
      }
    } else {
      var table := OtherScanMisses(wild);
    }
  }

  // ---------------------------------------------------------------------------------------------
  // Forward scans
  // ---------------------------------------------------------------------------------------------

  /** Whether the pattern is refused because it starts with a star. */
  predicate Refused(wild: string) {
    wild != "" && wild[0] == '*'
  }

  /** The entries between `skip` and `skip + limit` among the hits, in the order of the store. */
  function Selection(table: Table, wild: string, skip: int, limit: int): seq<Entry> {
    Window(Hits(table, Prefix(wild), wild), skip, limit)
  }

  /** Adds the rows of hit number `i` when it lies in the window. */
  method Report<V>(e: Entry, i: int, skip: int, limit: int, load: string -> Option<V>, ret0: bool,
                   results0: seq<Row<V>>, ghost matchedResults: seq<Row<V>>, ghost hits: Table)
    returns (ret: bool, results: seq<Row<V>>)
    requires i == |hits|
    requires ret0 == AllDecode(Window(hits, skip, limit), load)
    requires results0 == matchedResults + Rows(Window(hits, skip, limit), load)
    ensures ret == AllDecode(Window(hits + [e], skip, limit), load)
    ensures results == matchedResults + Rows(Window(hits + [e], skip, limit), load)
  {
    ret, results := ret0, results0;
    WindowGrows(hits, e, skip, limit);
    RowsGrow(Window(hits, skip, limit), e, load);
    Associative(matchedResults, Rows(Window(hits, skip, limit), load), RowsOf(e, load));
    var lowerbound, upperbound := skip - 1, skip + limit;
    if i > lowerbound && (i < upperbound || limit == -1) {
      match load(e.value)
      case Some(x) =>
        results := results + [Found(e.key, x)];
      case None =>
        results := results + [Error(e.value)];
        ret := false;
        results := results + [KeyOnly(e.key)];
        assert results == results0 + RowsOf(e, load);
    } else {
      assert Window(hits, skip, limit) + [] == Window(hits, skip, limit);
    }
  }

  lemma Associative<T>(a: seq<T>, b: seq<T>, c: seq<T>)
    ensures (a + b) + c == a + (b + c)
  {
  }

  method GetKeys<V>(table: Table, wild: string, matchedResults: seq<Row<V>>, skip: int, limit: int,
                    load: string -> Option<V>)
    returns (ret: bool, results: seq<Row<V>>)
    requires Sorted(table)
    ensures wild != "" && wild[0] == '*' ==> !ret && results == matchedResults
    ensures !Refused(wild) ==> ret == AllDecode(Selection(table, wild, skip, limit), load)
    ensures !Refused(wild) ==> results == matchedResults + Rows(Selection(table, wild, skip, limit), load)
  {
    if Refused(wild) {
      return false, matchedResults;
    }
    var start := Seek(table, Prefix(wild));
    ghost var stop;
    NoHitsAtStart(table, Prefix(wild), wild);
    ret, results, stop := WalkForward(table, start, wild, matchedResults, skip, limit, load);
    WalkIsComplete(table, stop, wild, skip, limit);
  }

  /** The walk has come to the end of the store or of the keys with the prefix, or past the window. */
  predicate Stops(table: Table, stop: nat, wild: string, skip: int, limit: int)
    requires stop <= |table|
  {
    || stop == |table|
    || !(Prefix(wild) <= table[stop].key)
    || (limit != -1 && skip + limit < |HitsTo(table, stop, Prefix(wild), wild)|)
  }

  /** What a walk has collected: the number of its last hit, the results and the flag belong to these hits. */
  ghost predicate Walked<V>(hits: Table, skip: int, limit: int, load: string -> Option<V>, matchedResults: seq<Row<V>>,
                            ret: bool, results: seq<Row<V>>, i: int, full: bool)
  {
    && i == |hits| - 1
    && ret == AllDecode(Window(hits, skip, limit), load)
    && results == matchedResults + Rows(Window(hits, skip, limit), load)
    && (full ==> limit != -1 && skip + limit < |hits|)
  }

  lemma NothingWalked<V>(skip: int, limit: int, load: string -> Option<V>, matchedResults: seq<Row<V>>)
    ensures Walked([], skip, limit, load, matchedResults, true, matchedResults, -1, false)
  {
    assert Window<Entry>([], skip, limit) == [];
  }

  /** One key of a walk; `full` tells that the hit past the window has been seen. */
  method Visit<V>(e: Entry, wild: string, i: int, skip: int, limit: int, load: string -> Option<V>,
                  ret0: bool, results0: seq<Row<V>>, ghost matchedResults: seq<Row<V>>, ghost hits: Table)
    returns (ret: bool, results: seq<Row<V>>, next: int, full: bool, ghost after: Table)
    requires Prefix(wild) <= e.key && Walked(hits, skip, limit, load, matchedResults, ret0, results0, i, false)
    ensures after == if Hit(e, Prefix(wild), wild) then hits + [e] else hits
    ensures Walked(after, skip, limit, load, matchedResults, ret, results, next, full)
  {
    ret, results, next, full, after := ret0, results0, i, false, hits;
    var matched := Wildcmp(CStr(wild), CStr(e.key));
    if matched {
      next := i + 1;
      ret, results := Report(e, next, skip, limit, load, ret0, results0, matchedResults, hits);
      after := hits + [e];
      full := next == skip + limit && limit != -1;
    }
  }

  /** One round of the forward loop. */
  method VisitNext<V>(table: Table, k: nat, wild: string, i: int, skip: int, limit: int, load: string -> Option<V>,
                      ret0: bool, results0: seq<Row<V>>, ghost matchedResults: seq<Row<V>>, ghost hits: Table)
    returns (ret: bool, results: seq<Row<V>>, next: int, full: bool, ghost after: Table)
    requires k < |table| && Prefix(wild) <= table[k].key && hits == HitsTo(table, k, Prefix(wild), wild)
    requires Walked(hits, skip, limit, load, matchedResults, ret0, results0, i, false)
    ensures after == HitsTo(table, k + 1, Prefix(wild), wild)
    ensures Walked(after, skip, limit, load, matchedResults, ret, results, next, full)
  {
    ret, results, next, full, after := Visit(table[k], wild, i, skip, limit, load, ret0, results0, matchedResults,
      hits);
    HitsGoOn(table, k, Prefix(wild), wild, hits, after);
  }

  /** The forward loop. */
  method WalkForward<V>(table: Table, start: nat, wild: string, matchedResults: seq<Row<V>>, skip: int, limit: int,
                        load: string -> Option<V>)
    returns (ret: bool, results: seq<Row<V>>, ghost stop: nat)
    requires start <= |table| && HitsTo(table, start, Prefix(wild), wild) == []
    ensures start <= stop <= |table| && Stops(table, stop, wild, skip, limit)
    ensures var selection := Window(HitsTo(table, stop, Prefix(wild), wild), skip, limit);
      ret == AllDecode(selection, load) && results == matchedResults + Rows(selection, load)
  {
    ret, results := true, matchedResults;
    var i, full := -1, false;
    var k := start;
    ghost var hits: Table := HitsTo(table, start, Prefix(wild), wild);
    NothingWalked(skip, limit, load, matchedResults);
    while k < |table| && Prefix(wild) <= table[k].key && !full
      invariant start <= k <= |table| && hits == HitsTo(table, k, Prefix(wild), wild)
      invariant Walked(hits, skip, limit, load, matchedResults, ret, results, i, full)
    {
      ret, results, i, full, hits := VisitNext(table, k, wild, i, skip, limit, load, ret, results, matchedResults,
        hits);
      k := k + 1;
    }
    stop := k;
  }

  lemma {:induction false} HitsGoOn(table: Table, k: nat, pre: string, wild: string, hits: Table, after: Table)
    requires k < |table| && hits == HitsTo(table, k, pre, wild)
    requires after == if Hit(table[k], pre, wild) then hits + [table[k]] else hits
    ensures after == HitsTo(table, k + 1, pre, wild)
  {
    HitsGrow(table, k, pre, wild);
  }

  lemma {:induction false} WalkIsComplete(table: Table, stop: nat, wild: string, skip: int, limit: int)
    requires Sorted(table) && Seek(table, Prefix(wild)) <= stop <= |table| && Stops(table, stop, wild, skip, limit)
    ensures Window(HitsTo(table, stop, Prefix(wild), wild), skip, limit) == Selection(table, wild, skip, limit)
  {
    if limit != -1 && skip + limit < |HitsTo(table, stop, Prefix(wild), wild)| {
      WindowIsFull(table, stop, Prefix(wild), wild, skip, limit);
    } else {
      if stop < |table| {
        StaysAfter(table, Prefix(wild), stop);
      }
      NoHitsAfter(table, stop, Prefix(wild), wild);
    }
  }

  /** Once the hit with number `skip + limit` has been seen, the rest of the store adds nothing. */
  lemma {:induction false} WindowIsFull(table: Table, k: nat, pre: string, wild: string, skip: int, limit: int)
    requires k <= |table| && limit != -1 && skip + limit < |HitsTo(table, k, pre, wild)|
    ensures Window(Hits(table, pre, wild), skip, limit) == Window(HitsTo(table, k, pre, wild), skip, limit)
  {
    var more := HitsContinue(table, k, |table|, pre, wild);
    WindowFull(HitsTo(table, k, pre, wild), more, skip, limit);
  }

  lemma {:induction false} HitsContinue(table: Table, k: nat, hi: nat, pre: string, wild: string) returns (more: Table)
    requires k <= hi <= |table|
    ensures HitsTo(table, hi, pre, wild) == HitsTo(table, k, pre, wild) + more
    decreases hi
  {
    more := [];
    if k < hi {
      more := HitsContinue(table, k, hi - 1, pre, wild);
      HitsGrow(table, hi - 1, pre, wild);
      if Hit(table[hi - 1], pre, wild) {
        more := more + [table[hi - 1]];
      }
    }
  }

  method GetCount(table: Table, wild: string, skip: int, limit: int) returns (ret: bool, out: int)
    requires Sorted(table)
    ensures ret == !Refused(wild)
    ensures out == if Refused(wild) then 0 else |Selection(table, wild, skip, limit)|
  {
    out := 0;
    if Refused(wild) {
      return false, out;
    }
    ret := true;
    var start := Seek(table, Prefix(wild));
    ghost var stop;
    NoHitsAtStart(table, Prefix(wild), wild);
    out, stop := CountForward(table, start, wild, skip, limit);
    WalkIsComplete(table, stop, wild, skip, limit);
  }

  method CountForward(table: Table, start: nat, wild: string, skip: int, limit: int) returns (out: int, ghost stop: nat)
    requires start <= |table| && HitsTo(table, start, Prefix(wild), wild) == []
    ensures start <= stop <= |table| && Stops(table, stop, wild, skip, limit)
    ensures out == |Window(HitsTo(table, stop, Prefix(wild), wild), skip, limit)|
  {
    out := 0;
    var prefix := Prefix(wild);
    var i := -1;
    var lowerbound, upperbound := skip - 1, skip + limit;
    var k := start;
    ghost var hits: Table := [];
    while k < |table| && prefix <= table[k].key
      invariant start <= k <= |table|
      invariant hits == HitsTo(table, k, prefix, wild) && i == |hits| - 1
      invariant out == |Window(hits, skip, limit)|
    {
      HitsGrow(table, k, prefix, wild);
      var e := table[k];
      k := k + 1;
      var matched := Wildcmp(CStr(wild), CStr(e.key));
      if matched {
        i := i + 1;
        WindowGrows(hits, e, skip, limit);
        hits := hits + [e];
        if i > lowerbound && (i < upperbound || limit == -1) {
          out := out + 1;
        }
        if i == upperbound && limit != -1 {
          return out, k;
        }
      }
    }
    stop := k;
  }

  // ---------------------------------------------------------------------------------------------
  // The scan from the end
  // ---------------------------------------------------------------------------------------------

  /** The iterator can be placed on the last key with the prefix: the bumped prefix is the next one and some
      key is not before it. */
  predicate Reachable(table: Table, wild: string)
    requires Prefix(wild) != ""
  {
    var pre := Prefix(wild);
    pre[|pre| - 1] < '\U{FF}' && Seek(table, Bumped(pre)) < |table|
  }

  /** Where the loop starts: at the bumped prefix, or nowhere when no key is at or after it. */
  function EndOfPrefix(table: Table, wild: string): (k: nat)
    requires Prefix(wild) != ""
    ensures k <= |table|
  {
    var k := Seek(table, Bumped(Prefix(wild)));
    if k == |table| then 0 else k
  }

  function ReversedSelection(table: Table, wild: string, skip: int, limit: int): seq<Entry> {
    Window(Reversed(Hits(table, Prefix(wild), wild)), skip, limit)
  }

  /** One more than the position of the iterator is `k`; 0 is an iterator that is no longer valid, which is also
      what stepping back from past the end gives. */
  method GetKeysReversed<V>(table: Table, wild: string, matchedResults: seq<Row<V>>, skip: int, limit: int,
                            load: string -> Option<V>)
    returns (ret: bool, results: seq<Row<V>>)
    requires Sorted(table) && wild != ""
    ensures wild != "" && wild[0] == '*' ==> !ret && results == matchedResults
    ensures !Refused(wild) && !Reachable(table, wild) ==> ret && results == matchedResults
    ensures !Refused(wild) && Reachable(table, wild) ==>
      ret == AllDecode(ReversedSelection(table, wild, skip, limit), load)
    ensures !Refused(wild) && Reachable(table, wild) ==>
              results == matchedResults + Rows(ReversedSelection(table, wild, skip, limit), load)
  {
    ret, results := true, matchedResults;
    if Refused(wild) {
      return false, results;
    }
    var k := Seek(table, Bumped(Prefix(wild)));
    if k == |table| {
      k := 0;
    }
    assert k == EndOfPrefix(table, wild);
    LastWithPrefix(table, wild);
    ret, results := WalkBack(table, k, wild, matchedResults, skip, limit, load);
  }

  /** The backward loop: the hits before `start`, the last one first. */
  method WalkBack<V>(table: Table, start: nat, wild: string, matchedResults: seq<Row<V>>, skip: int, limit: int,
                     load: string -> Option<V>)
    returns (ret: bool, results: seq<Row<V>>)
    requires Sorted(table) && Prefix(wild) != "" && start <= Seek(table, Bumped(Prefix(wild)))
    ensures var selection := Window(Reversed(HitsTo(table, start, Prefix(wild), wild)), skip, limit);
      ret == AllDecode(selection, load) && results == matchedResults + Rows(selection, load)
  {
    ret, results := true, matchedResults;
    var prefix := Prefix(wild);
    var i, full := -1, false;
    var k := start;
    ghost var hits: Table := [];
    NothingWalked(skip, limit, load, matchedResults);
    assert HitsTo(table, start, prefix, wild) == HitsTo(table, k, prefix, wild) + [];
    while k > 0 && prefix <= table[k - 1].key && !full
      invariant 0 <= k <= start
      invariant HitsTo(table, start, prefix, wild) == HitsTo(table, k, prefix, wild) + hits
      invariant Walked(Reversed(hits), skip, limit, load, matchedResults, ret, results, i, full)
    {
      k := k - 1;
      ret, results, i, full, hits := VisitLast(table, k, wild, i, skip, limit, load, ret, results, matchedResults,
        hits);
    }
    if full {
      ReversedIsFull(HitsTo(table, k, prefix, wild), hits, skip, limit);
    } else {
      NoHitsFromHere(table, k, wild);
      assert [] + hits == hits;
    }
  }

  /** One round of the backward loop. */
  method VisitLast<V>(table: Table, k: nat, wild: string, i: int, skip: int, limit: int, load: string -> Option<V>,
                      ret0: bool, results0: seq<Row<V>>, ghost matchedResults: seq<Row<V>>, ghost hits: Table)
    returns (ret: bool, results: seq<Row<V>>, next: int, full: bool, ghost more: Table)
    requires k < |table| && Prefix(wild) <= table[k].key
    requires Walked(Reversed(hits), skip, limit, load, matchedResults, ret0, results0, i, false)
    ensures HitsTo(table, k + 1, Prefix(wild), wild) + hits == HitsTo(table, k, Prefix(wild), wild) + more
    ensures Walked(Reversed(more), skip, limit, load, matchedResults, ret, results, next, full)
  {
    var e := table[k];
    ghost var after: Table;
    HitsShrink(table, k, Prefix(wild), wild, hits);
    ReversedFirst(e, hits);
    ret, results, next, full, after :=
      Visit(e, wild, i, skip, limit, load, ret0, results0, matchedResults, Reversed(hits));
    more := if Hit(e, Prefix(wild), wild) then [e] + hits else hits;
  }

  lemma {:induction false} ReversedFirst<T>(x: T, s: seq<T>)
    ensures Reversed([x] + s) == Reversed(s) + [x]
  {
    assert ([x] + s)[1..] == s;
  }

  lemma {:induction false} ReversedTogether<T>(s: seq<T>, t: seq<T>)
    ensures Reversed(s + t) == Reversed(t) + Reversed(s) && |Reversed(t)| == |t|
    decreases |s| + |t|
  {
    if s != [] {
      assert (s + t)[1..] == s[1..] + t;
      ReversedTogether(s[1..], t);
    } else {
      assert s + t == t;
      if t != [] {
        ReversedTogether(s, t[1..]);
      }
    }
  }

  lemma {:induction false} ReversedIsFull<T>(rest: seq<T>, seen: seq<T>, skip: int, limit: int)
    requires limit != -1 && skip + limit < |Reversed(seen)|
    ensures Window(Reversed(rest + seen), skip, limit) == Window(Reversed(seen), skip, limit)
  {
    ReversedTogether(rest, seen);
    WindowFull(Reversed(seen), Reversed(rest), skip, limit);
  }

  /** All hits come before the starting position when it can be reached, and none otherwise. */
  lemma {:induction false} LastWithPrefix(table: Table, wild: string)
    requires Sorted(table) && Prefix(wild) != ""
    ensures HitsTo(table, EndOfPrefix(table, wild), Prefix(wild), wild)
            == if Reachable(table, wild) then Hits(table, Prefix(wild), wild) else []
  {
    var pre := Prefix(wild);
    var start := Seek(table, Bumped(pre));
    SeekSplits(table, Bumped(pre));
    if pre[|pre| - 1] < '\U{FF}' {
      forall i | start <= i < |table|
        ensures !(pre <= table[i].key)
      {
        StaysAfter(table, Bumped(pre), i);
        BumpedBounds(pre, table[i].key);
      }
      NoHits(table, start, |table|, pre, wild);
    } else {
      forall i | 0 <= i < start
        ensures !(pre <= table[i].key)
      {
        if pre <= table[i].key {
          BumpedWraps(pre, table[i].key);
        }
      }
      NoHits(table, 0, start, pre, wild);
    }
  }

  /** Before a key without the prefix that the backward scan meets, no key has it. */
  lemma {:induction false} NoHitsFromHere(table: Table, k: nat, wild: string)
    requires Sorted(table) && Prefix(wild) != "" && k <= Seek(table, Bumped(Prefix(wild)))
    requires k == 0 || !(Prefix(wild) <= table[k - 1].key)
    ensures HitsTo(table, k, Prefix(wild), wild) == []
  {
    var pre := Prefix(wild);
    if k > 0 {
      SeekSplits(table, Bumped(pre));
      if pre[|pre| - 1] < '\U{FF}' {
        BumpedBounds(pre, table[k - 1].key);
        NoHitsBefore(table, k, pre, wild);
      } else {
        forall i | 0 <= i < k
          ensures !(pre <= table[i].key)
        {
          if pre <= table[i].key {
            BumpedWraps(pre, table[i].key);
          }
        }
        NoHits(table, 0, k, pre, wild);
      }
    }
  }

  /** The keys before the starting position are all that match exactly when the position can be reached or
      nothing matches. */
  lemma ReversedScanIsQueryExactlyWhenReachable(table: Table, wild: string)
    requires Sorted(table) && Prefix(wild) != ""
    ensures HitsTo(table, EndOfPrefix(table, wild), Prefix(wild), wild) == Hits(table, Prefix(wild), wild)
            <==> Reachable(table, wild) || Hits(table, Prefix(wild), wild) == []
  {
    LastWithPrefix(table, wild);
  }

  /** For every plain pattern with a prefix there is a store of one key that matches and is not reached. */
  lemma ReversedScanMisses(wild: string) returns (table: Table)
    requires Plain(wild) && Prefix(wild) != ""
    ensures Sorted(table) && table != [] && Hits(table, Prefix(wild), wild) == table && !Reachable(table, wild)
  {
    var pre := Prefix(wild);
    var key := Sample(CStr(wild));
    CStrIsCString(wild);
    MatchesIsSuits(CStr(wild), key);
    SampleHasNoNul(CStr(wild));
    WholeCStr(key);
    table := [Entry(key, "")];
    PlainHit(table[0], wild);
    assert HitsTo(table, 0, pre, wild) == [];
    if pre[|pre| - 1] < '\U{FF}' {
      BumpedBounds(pre, key);
      assert Seek(table[1..], Bumped(pre)) == 0;
    }
  }
}
