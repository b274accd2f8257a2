/** What a scan reports, told without the scan: which keys match, which of them are in the window, and their rows. */
module ScanMeaning {
  import opened Wrappers
  import opened Wildcards
  import opened KeyScan

  /** The part of the pattern before its first star. */
  predicate IsFixedPart(pre: string, wild: string) {
    pre <= wild && '*' !in pre && (pre == wild || wild[|pre|] == '*')
  }

  /** The part of a string before its first NUL. */
  predicate IsCString(c: string, s: string) {
    c <= s && '\0' !in c && (c == s || s[|c|] == '\0')
  }

  /** The key starts with the fixed part, and is made of one piece for each character of the pattern. */
  ghost predicate KeyMatches(key: string, wild: string) {
    exists pre, w, k ::
      IsFixedPart(pre, wild) && IsCString(w, wild) && IsCString(k, key) && pre <= key && InLanguage(w, k)
  }

  lemma LongerHolds(a: string, b: string, s: string, c: char)
    requires a <= s && b <= s
    ensures |a| < |b| && s[|a|] == c ==> c in b
  {
    if |a| < |b| {
      assert b[|a|] == s[|a|];
    }
  }

  /** The part of a string before the first `c` is one part. */
  lemma PartIsUnique(a: string, b: string, s: string, c: char)
    requires a <= s && c !in a && (a == s || s[|a|] == c)
    requires b <= s && c !in b && (b == s || s[|b|] == c)
    ensures a == b
  {
    LongerHolds(a, b, s, c);
    LongerHolds(b, a, s, c);
    assert a == s[..|a|] && b == s[..|b|];
  }

  lemma FixedPartIsPrefix(pre: string, wild: string)
    ensures IsFixedPart(pre, wild) <==> pre == Prefix(wild)
  {
    PrefixIsStarFree(wild);
    StarIsThere(wild, 0);
    if IsFixedPart(pre, wild) {
      PartIsUnique(pre, Prefix(wild), wild, '*');
    }
  }

  lemma {:induction false} StarIsThere(wild: string, i: nat)
    requires i <= |wild|
    ensures Star(wild, i) < |wild| ==> wild[Star(wild, i)] == '*'
    decreases |wild| - i
  {
    if i < |wild| && wild[i] != '*' {
      StarIsThere(wild, i + 1);
    }
  }

  lemma CStringIsCStr(c: string, s: string)
    ensures IsCString(c, s) <==> c == CStr(s)
  {
    CStrIsCString(s);
    if IsCString(c, s) {
      PartIsUnique(c, CStr(s), s, '\0');
    }
  }

  /** The scan's test is the meaning of the pattern. */
  lemma HitIsMatch(e: Entry, wild: string)
    ensures Hit(e, Prefix(wild), wild) <==> KeyMatches(e.key, wild)
  {
    FixedPartIsPrefix(Prefix(wild), wild);
    CStringIsCStr(CStr(wild), wild);
    CStringIsCStr(CStr(e.key), e.key);
    MatchesIsLanguage(CStr(wild), CStr(e.key));
    if KeyMatches(e.key, wild) {
      var pre, w, k :|
        IsFixedPart(pre, wild) && IsCString(w, wild) && IsCString(k, e.key) && pre <= e.key && InLanguage(w, k);
      FixedPartIsPrefix(pre, wild);
      CStringIsCStr(w, wild);
      CStringIsCStr(k, e.key);
    }
  }

  // ---------------------------------------------------------------------------------------------
  // The matching keys
  // ---------------------------------------------------------------------------------------------

  /** The positions of the matching keys among the first `n`, in order. */
  ghost predicate AreMatches(all: seq<nat>, table: Table, n: nat, wild: string)
    requires n <= |table|
  {
    && (forall j :: 0 <= j < |all| ==> all[j] < n && KeyMatches(table[all[j]].key, wild))
    && (forall i, j :: 0 <= i < j < |all| ==> all[i] < all[j])
    && (forall i :: 0 <= i < n && KeyMatches(table[i].key, wild) ==> i in all)
  }

  function EntriesAt(table: Table, at: seq<nat>): (entries: Table)
    requires forall j :: 0 <= j < |at| ==> at[j] < |table|
    ensures |entries| == |at| && forall j :: 0 <= j < |at| ==> entries[j] == table[at[j]]
  {
    seq(|at|, j requires 0 <= j < |at| => table[at[j]])
  }

  lemma {:induction false} HitsAreMatches(table: Table, n: nat, wild: string, hits: Table) returns (all: seq<nat>)
    requires n <= |table| && hits == HitsTo(table, n, Prefix(wild), wild)
    ensures AreMatches(all, table, n, wild) && hits == EntriesAt(table, all)
    decreases n
  {
    all := [];
    if n > 0 {
      var before := HitsTo(table, n - 1, Prefix(wild), wild);
      all := HitsAreMatches(table, n - 1, wild, before);
      HitIsMatch(table[n - 1], wild);
      HitsGrow(table, n - 1, Prefix(wild), wild);
      if KeyMatches(table[n - 1].key, wild) {
        OneMoreMatch(all, table, n - 1, wild);
        all := all + [n - 1];
      } else {
        NoMoreMatch(all, table, n - 1, wild);
      }
    }
  }

  lemma NoMoreMatch(all: seq<nat>, table: Table, n: nat, wild: string)
    requires n < |table| && AreMatches(all, table, n, wild) && !KeyMatches(table[n].key, wild)
    ensures AreMatches(all, table, n + 1, wild)
  {
  }

  lemma OneMoreMatch(all: seq<nat>, table: Table, n: nat, wild: string)
    requires n < |table| && AreMatches(all, table, n, wild) && KeyMatches(table[n].key, wild)
    ensures AreMatches(all + [n], table, n + 1, wild)
    ensures EntriesAt(table, all + [n]) == EntriesAt(table, all) + [table[n]]
  {
    var more := all + [n];
    assert more[|all|] == n;
    forall i | 0 <= i < n + 1 && KeyMatches(table[i].key, wild)
      ensures i in more
    {
      if i < n {
        assert i in all;
      }
    }
  }

  /** The items number `skip` to `skip + limit`, counted from 0; a limit of -1 is no limit. */
  ghost predicate AreChosen(chosen: seq<nat>, all: seq<nat>, skip: int, limit: int) {
    exists lo: nat, hi: nat :: IsCut(chosen, all, lo, hi) &&
                               forall j {:trigger all[j]} :: 0 <= j < |all| ==>
                                 (lo <= j < hi <==> skip <= j && (limit == -1 || j < skip + limit))
  }

  predicate IsCut(chosen: seq<nat>, all: seq<nat>, lo: nat, hi: nat) {
    lo <= hi <= |all| && chosen == all[lo..hi]
  }

  /** A slice is empty or cut at the two ends of the window. */
  lemma SliceIsChosen(all: seq<nat>, skip: int, limit: int)
    ensures AreChosen(Slice(all, skip, limit), all, skip, limit)
  {
    var lo, hi := Clamped(skip, |all|), if limit == -1 then |all| else Clamped(skip + limit, |all|);
    if lo > hi {
      hi := lo;
    }
    assert IsCut(Slice(all, skip, limit), all, lo, hi);
  }

  lemma SliceOfEntries(table: Table, all: seq<nat>, skip: int, limit: int)
    requires forall j :: 0 <= j < |all| ==> all[j] < |table|
    ensures forall j :: 0 <= j < |Slice(all, skip, limit)| ==> Slice(all, skip, limit)[j] < |table|
    ensures Slice(EntriesAt(table, all), skip, limit) == EntriesAt(table, Slice(all, skip, limit))
  {
  }

  // ---------------------------------------------------------------------------------------------
  // Their rows
  // ---------------------------------------------------------------------------------------------

  /** One row with key and decoded value for each entry; two rows for one whose value cannot be decoded: the value as
      an error, and the key. */
  ghost predicate RowsAre<V>(rows: seq<Row<V>>, entries: Table, load: string -> Option<V>) {
    if entries == [] then rows == []
    else
      var e := entries[0];
      match load(e.value)
      case Some(v) => rows != [] && rows[0] == Found(e.key, v) && RowsAre(rows[1..], entries[1..], load)
      case None =>
        |rows| >= 2 && rows[0] == Error(e.value) && rows[1] == KeyOnly(e.key) && RowsAre(rows[2..], entries[1..], load)
  }

  lemma {:induction false} RowsFirst<V>(e: Entry, more: Table, load: string -> Option<V>)
    ensures Rows([e] + more, load) == RowsOf(e, load) + Rows(more, load)
    decreases |more|
  {
    var all := [e] + more;
    if more == [] {
      assert all == [] + [e];
      RowsGrow([], e, load);
    } else {
      var n := |more| - 1;
      assert all == ([e] + more[..n]) + [more[n]] && more == more[..n] + [more[n]];
      RowsFirst(e, more[..n], load);
      RowsGrow([e] + more[..n], more[n], load);
      RowsGrow(more[..n], more[n], load);
      Associative(RowsOf(e, load), Rows(more[..n], load), RowsOf(more[n], load));
    }
  }

  lemma {:induction false} RowsMean<V>(entries: Table, load: string -> Option<V>)
    ensures RowsAre(Rows(entries, load), entries, load)
    decreases |entries|
  {
    if entries != [] {
      var e, more := entries[0], entries[1..];
      RowsMean(more, load);
      assert entries == [e] + more;
      RowsFirst(e, more, load);
      AfterFirst(RowsOf(e, load), Rows(more, load));
    }
  }

  lemma AfterFirst<T>(a: seq<T>, b: seq<T>)
    ensures (a + b)[|a|..] == b && forall i :: 0 <= i < |a| ==> (a + b)[i] == a[i]
  {
  }

  lemma {:induction false} DecodeMeans<V>(entries: Table, load: string -> Option<V>)
    ensures AllDecode(entries, load) <==> forall j :: 0 <= j < |entries| ==> load(entries[j].value).Some?
  {
    if entries != [] {
      var n := |entries| - 1;
      DecodeMeans(entries[..n], load);
      assert forall j :: 0 <= j < n ==> entries[..n][j] == entries[j];
    }
  }

  /** What is reported for the chosen matches. */
  ghost predicate Reported<V>(ret: bool, rows: seq<Row<V>>, table: Table, chosen: seq<nat>,
                              load: string -> Option<V>) {
    && (forall j :: 0 <= j < |chosen| ==> chosen[j] < |table|)
    && RowsAre(rows, EntriesAt(table, chosen), load)
    && (ret <==> forall j :: 0 <= j < |chosen| ==> load(table[chosen[j]].value).Some?)
  }

  /** The rows are those of the chosen ones among all matches. */
  ghost predicate Answers<V>(ret: bool, rows: seq<Row<V>>, table: Table, wild: string, all: seq<nat>,
                             listed: seq<nat>, chosen: seq<nat>, skip: int, limit: int, load: string -> Option<V>) {
    AreMatches(all, table, |table|, wild) && AreChosen(chosen, listed, skip, limit) &&
    Reported(ret, rows, table, chosen, load)
  }

  lemma ChosenRows<V>(table: Table, all: seq<nat>, chosen: seq<nat>, skip: int, limit: int, load: string -> Option<V>)
    requires forall j :: 0 <= j < |all| ==> all[j] < |table|
    requires chosen == Slice(all, skip, limit)
    ensures var entries := Window(EntriesAt(table, all), skip, limit);
      Reported(AllDecode(entries, load), Rows(entries, load), table, chosen, load)
  {
    WindowIsSlice(EntriesAt(table, all), skip, limit);
    SliceOfEntries(table, all, skip, limit);
    var entries := EntriesAt(table, chosen);
    RowsMean(entries, load);
    DecodeMeans(entries, load);
  }

  /** A scan whose pattern does not start with a star reports the rows of the matching keys number `skip` to
      `skip + limit`, in the order of the store, and whether all their values could be decoded. */
  method Query<V>(table: Table, wild: string, skip: int, limit: int, load: string -> Option<V>)
    returns (ret: bool, rows: seq<Row<V>>)
    requires Sorted(table) && (wild == "" || wild[0] != '*')
    ensures exists all, chosen :: Answers(ret, rows, table, wild, all, all, chosen, skip, limit, load)
  {
    ret, rows := GetKeys(table, wild, [], skip, limit, load);
    ghost var all := HitsAreMatches(table, |table|, wild, Hits(table, Prefix(wild), wild));
    ghost var chosen := Slice(all, skip, limit);
    SliceIsChosen(all, skip, limit);
    ChosenRows(table, all, chosen, skip, limit, load);
    ghost var entries := Window(EntriesAt(table, all), skip, limit);
    assert [] + Rows(entries, load) == Rows(entries, load);
    assert Answers(ret, rows, table, wild, all, all, chosen, skip, limit, load);
  }

  lemma ChosenCount(table: Table, all: seq<nat>, chosen: seq<nat>, skip: int, limit: int)
    requires forall j :: 0 <= j < |all| ==> all[j] < |table|
    requires chosen == Slice(all, skip, limit)
    ensures |Window(EntriesAt(table, all), skip, limit)| == |chosen|
  {
    WindowIsSlice(EntriesAt(table, all), skip, limit);
    SliceOfEntries(table, all, skip, limit);
  }

  /** As many as there are chosen ones among all matches. */
  ghost predicate Counts(out: int, table: Table, wild: string, all: seq<nat>, chosen: seq<nat>, skip: int, limit: int) {
    AreMatches(all, table, |table|, wild) && AreChosen(chosen, all, skip, limit) && out == |chosen|
  }

  /** Counting gives the number of the rows' matches. */
  method Count(table: Table, wild: string, skip: int, limit: int) returns (out: int)
    requires Sorted(table) && (wild == "" || wild[0] != '*')
    ensures exists all, chosen :: Counts(out, table, wild, all, chosen, skip, limit)
  {
    var ret;
    ret, out := GetCount(table, wild, skip, limit);
    ghost var all := HitsAreMatches(table, |table|, wild, Hits(table, Prefix(wild), wild));
    ghost var chosen := Slice(all, skip, limit);
    SliceIsChosen(all, skip, limit);
    ChosenCount(table, all, chosen, skip, limit);
    assert Counts(out, table, wild, all, chosen, skip, limit);
  }

  // ---------------------------------------------------------------------------------------------
  // From the end
  // ---------------------------------------------------------------------------------------------

  /** Some key sorts after all keys with the fixed part, and the last byte of that part can be increased. */
  ghost predicate EndIsThere(table: Table, pre: string) {
    pre != "" && pre[|pre| - 1] < '\U{FF}' &&
    exists i :: 0 <= i < |table| && !Less(table[i].key, pre) && !(pre <= table[i].key)
  }

  lemma AfterThePrefix(pre: string, key: string)
    requires pre != "" && pre[|pre| - 1] < '\U{FF}'
    ensures !Less(key, Bumped(pre)) <==> !Less(key, pre) && !(pre <= key)
  {
    BumpedBounds(pre, key);
    BumpedBounds(pre, pre);
    if Less(key, pre) {
      LessTransitive(key, pre, Bumped(pre));
    }
  }

  lemma EndIsReachable(table: Table, wild: string)
    requires Prefix(wild) != ""
    ensures Reachable(table, wild) <==> EndIsThere(table, Prefix(wild))
  {
    var pre := Prefix(wild);
    if pre[|pre| - 1] < '\U{FF}' {
      SeekSplits(table, Bumped(pre));
      forall i | 0 <= i < |table|
        ensures !Less(table[i].key, Bumped(pre)) <==> !Less(table[i].key, pre) && !(pre <= table[i].key)
      {
        AfterThePrefix(pre, table[i].key);
      }
    }
  }

  function Backwards<T>(s: seq<T>): (r: seq<T>)
    ensures |r| == |s| && forall j :: 0 <= j < |s| ==> r[j] == s[|s| - 1 - j]
  {
    seq(|s|, j requires 0 <= j < |s| => s[|s| - 1 - j])
  }

  lemma {:induction false} ReversedIsBackwards<T>(s: seq<T>)
    ensures Reversed(s) == Backwards(s)
    decreases |s|
  {
    if s != [] {
      ReversedIsBackwards(s[1..]);
      BackwardsFirst(s, s[1..]);
    }
  }

  lemma BackwardsFirst<T>(s: seq<T>, rest: seq<T>)
    requires s != [] && rest == s[1..]
    ensures Backwards(s) == Backwards(rest) + [s[0]]
  {
    var r := Backwards(rest) + [s[0]];
    forall j | 0 <= j < |s|
      ensures Backwards(s)[j] == r[j]
    {
      if j < |rest| {
        assert rest[|rest| - 1 - j] == s[|s| - 1 - j];
      }
    }
  }

  lemma BackwardsEntries(table: Table, all: seq<nat>)
    requires forall j :: 0 <= j < |all| ==> all[j] < |table|
    ensures forall j :: 0 <= j < |all| ==> Backwards(all)[j] < |table|
    ensures Reversed(EntriesAt(table, all)) == EntriesAt(table, Backwards(all))
  {
    ReversedIsBackwards(EntriesAt(table, all));
  }

  ghost predicate EndIsFound(table: Table, wild: string) {
    exists pre :: IsFixedPart(pre, wild) && EndIsThere(table, pre)
  }

  lemma FoundIsReachable(table: Table, wild: string)
    requires Prefix(wild) != ""
    ensures EndIsFound(table, wild) <==> Reachable(table, wild)
  {
    EndIsReachable(table, wild);
    FixedPartIsPrefix(Prefix(wild), wild);
    if EndIsFound(table, wild) {
      var pre :| IsFixedPart(pre, wild) && EndIsThere(table, pre);
      FixedPartIsPrefix(pre, wild);
    }
  }

  lemma ReversedAnswers<V>(ret: bool, rows: seq<Row<V>>, table: Table, wild: string, skip: int, limit: int,
                           load: string -> Option<V>)
    requires ret == AllDecode(ReversedSelection(table, wild, skip, limit), load)
    requires rows == Rows(ReversedSelection(table, wild, skip, limit), load)
    ensures exists all, chosen :: Answers(ret, rows, table, wild, all, Backwards(all), chosen, skip, limit, load)
  {
    var all := HitsAreMatches(table, |table|, wild, Hits(table, Prefix(wild), wild));
    BackwardsEntries(table, all);
    var chosen := Slice(Backwards(all), skip, limit);
    SliceIsChosen(Backwards(all), skip, limit);
    ChosenRows(table, Backwards(all), chosen, skip, limit, load);
    assert Answers(ret, rows, table, wild, all, Backwards(all), chosen, skip, limit, load);
  }

  /** The reversed scan reports the same from the last match on, or nothing when it cannot find the end. */
  method QueryReversed<V>(table: Table, wild: string, skip: int, limit: int, load: string -> Option<V>)
    returns (ret: bool, rows: seq<Row<V>>)
    requires Sorted(table) && wild != "" && wild[0] != '*'
    ensures EndIsFound(table, wild) ==>
      exists all, chosen :: Answers(ret, rows, table, wild, all, Backwards(all), chosen, skip, limit, load)
    ensures !EndIsFound(table, wild) ==> ret && rows == []
  {
    ret, rows := GetKeysReversed(table, wild, [], skip, limit, load);
    FoundIsReachable(table, wild);
    if Reachable(table, wild) {
      ghost var entries := ReversedSelection(table, wild, skip, limit);
      assert [] + Rows(entries, load) == Rows(entries, load);
      ReversedAnswers(ret, rows, table, wild, skip, limit, load);
    }
  }
}
