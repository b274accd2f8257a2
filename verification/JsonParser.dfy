/** The parser that works in place: a cursor moves over a buffer, closing quotes are overwritten, and strings are
    unescaped where they stand. */
module JsonParser {
  import opened Wrappers
  import opened JsonText
  import opened JsonGrammar

  /** A parsed value points into the buffer. */
  datatype Rvalue =
    | NullV
    | FalseV
    | TrueV
    | NumberV(start: nat, end: nat)
    | StringV(start: nat, end: nat)
    | ListV(items: seq<Rvalue>)
    | ObjectV(fields: seq<KeyedValue>)
    | ErrorV

  datatype KeyedValue = KeyedValue(keyStart: nat, keyEnd: nat, value: Rvalue)

  const YES: char := '\U{1}'
  const NO: char := '\0'

  // ---------------------------------------------------------------------------------------------
  // What the buffer shows
  // ---------------------------------------------------------------------------------------------

  /** The part `lo..hi` of the buffer holds what a parsed value points to. The character before a string tells
      whether it still has to be unescaped. */
  ghost predicate Shows(b: string, r: Rvalue, lo: nat, hi: nat, raw: Raw)
    decreases r
  {
    && lo <= hi <= |b|
    && match (r, raw)
       case (NullV, RNull) => true
       case (FalseV, RFalse) => true
       case (TrueV, RTrue) => true
       case (NumberV(start, end), RNumber(text)) => lo <= start <= end <= hi && b[start..end] == text
       case (StringV(start, end), RString(text)) => lo < start <= end < hi && ShowsText(b, start, end, text)
       case (ListV(items), RList(raws)) => exists cuts :: ShowsItems(b, items, cuts, lo, hi, raws)
       case (ObjectV(fields), RObject(raws)) => exists cuts :: ShowsFields(b, fields, cuts, lo, hi, raws)
       case _ => false
  }

  ghost predicate ShowsItems(b: string, items: seq<Rvalue>, cuts: seq<nat>, lo: nat, hi: nat, raws: seq<Raw>)
    decreases items
  {
    && |items| == |raws| && Cuts(cuts, |items|, lo, hi)
    && forall i :: 0 <= i < |items| ==> Shows(b, items[i], cuts[i], cuts[i + 1], raws[i])
  }

  ghost predicate ShowsFields(b: string, fields: seq<KeyedValue>, cuts: seq<nat>, lo: nat, hi: nat, raws: seq<RawField>)
    decreases fields
  {
    && |fields| == |raws| && Cuts(cuts, |fields|, lo, hi)
    && forall i :: 0 <= i < |fields| ==> ShowsField(b, fields[i], cuts[i], cuts[i + 1], raws[i])
  }

  ghost predicate ShowsField(b: string, field: KeyedValue, lo: nat, hi: nat, raw: RawField)
    decreases field
  {
    && lo <= field.keyStart <= field.keyEnd <= hi <= |b| && b[field.keyStart..field.keyEnd] == raw.key
    && Shows(b, field.value, field.keyEnd, hi, raw.value)
  }

  ghost predicate ShowsText(b: string, start: nat, end: nat, text: string)
    requires 0 < start <= end <= |b|
  {
    b[start..end] == text && WellEscaped(text) && (b[start - 1] == NO ==> '\\' !in text)
  }

  /** Limits of `n` parts one after the other. */
  ghost predicate Cuts(cuts: seq<nat>, n: nat, lo: nat, hi: nat) {
    |cuts| == n + 1 && forall i, j :: 0 <= i <= j <= n ==> lo <= cuts[i] <= cuts[j] <= hi
  }

  ghost predicate Same(b: string, c: string, lo: nat, hi: nat) {
    |c| == |b| && forall k :: lo <= k < hi && k < |b| ==> c[k] == b[k]
  }

  /** What a part of the buffer shows depends on that part alone. */
  lemma {:induction false} Stays(b: string, c: string, r: Rvalue, lo: nat, hi: nat, raw: Raw)
    requires Shows(b, r, lo, hi, raw) && Same(b, c, lo, hi)
    ensures Shows(c, r, lo, hi, raw)
    decreases r
  {
    match r
    case NumberV(start, end) => assert c[start..end] == b[start..end];
    case StringV(start, end) => assert c[start..end] == b[start..end];
    case ListV(items) =>
      var cuts :| ShowsItems(b, items, cuts, lo, hi, raw.items);
      ItemsStay(b, c, items, cuts, lo, hi, raw.items);
    case ObjectV(fields) =>
      var cuts :| ShowsFields(b, fields, cuts, lo, hi, raw.fields);
      FieldsStay(b, c, fields, cuts, lo, hi, raw.fields);
    case _ =>
  }

  lemma {:induction false} ItemsStay(b: string, c: string, items: seq<Rvalue>, cuts: seq<nat>, lo: nat, hi: nat,
                                     raws: seq<Raw>)
    requires ShowsItems(b, items, cuts, lo, hi, raws) && Same(b, c, lo, hi)
    ensures ShowsItems(c, items, cuts, lo, hi, raws)
    decreases items
  {
    forall i | 0 <= i < |items|
      ensures Shows(c, items[i], cuts[i], cuts[i + 1], raws[i])
    {
      Stays(b, c, items[i], cuts[i], cuts[i + 1], raws[i]);
    }
  }

  lemma {:induction false} FieldsStay(b: string, c: string, fields: seq<KeyedValue>, cuts: seq<nat>, lo: nat, hi: nat,
                                      raws: seq<RawField>)
    requires ShowsFields(b, fields, cuts, lo, hi, raws) && Same(b, c, lo, hi)
    ensures ShowsFields(c, fields, cuts, lo, hi, raws)
    decreases fields
  {
    forall i | 0 <= i < |fields|
      ensures ShowsField(c, fields[i], cuts[i], cuts[i + 1], raws[i])
    {
      FieldStays(b, c, fields[i], cuts[i], cuts[i + 1], raws[i]);
    }
  }

  lemma {:induction false} FieldStays(b: string, c: string, field: KeyedValue, lo: nat, hi: nat, raw: RawField)
    requires ShowsField(b, field, lo, hi, raw) && Same(b, c, lo, hi)
    ensures ShowsField(c, field, lo, hi, raw)
    decreases field
  {
    assert c[field.keyStart..field.keyEnd] == b[field.keyStart..field.keyEnd];
    Stays(b, c, field.value, field.keyEnd, hi, raw.value);
  }

  /** The same holds in a larger part. */
  lemma {:induction false} Widens(b: string, r: Rvalue, lo: nat, hi: nat, lower: nat, higher: nat, raw: Raw)
    requires Shows(b, r, lo, hi, raw) && lower <= lo && hi <= higher <= |b|
    ensures Shows(b, r, lower, higher, raw)
  {
    match r
    case ListV(items) =>
      var cuts :| ShowsItems(b, items, cuts, lo, hi, raw.items);
      assert ShowsItems(b, items, cuts, lower, higher, raw.items);
    case ObjectV(fields) =>
      var cuts :| ShowsFields(b, fields, cuts, lo, hi, raw.fields);
      assert ShowsFields(b, fields, cuts, lower, higher, raw.fields);
    case _ =>
  }

  // ---------------------------------------------------------------------------------------------
  // Unescaping in place
  // ---------------------------------------------------------------------------------------------

  lemma {:induction false} NothingToUnescape(s: string)
    requires '\\' !in s
    ensures WellEscaped(s) && Unescape(s) == s
  {
    if s != "" {
      NothingToUnescape(s[1..]);
    }
  }

  method WriteCode(data: array<char>, tail: nat, code: nat) returns (nextTail: nat)
    requires code < 0x10000 && tail + |Utf8(code)| <= data.Length
    modifies data
    ensures nextTail == tail + |Utf8(code)| && data[tail..nextTail] == Utf8(code)
    ensures forall k :: 0 <= k < data.Length && !(tail <= k < nextTail) ==> data[k] == old(data[k])
  {
    nextTail := tail;
    if code >= 0x800 {
      data[nextTail] := (0xE0 + code / 4096) as char;
      data[nextTail + 1] := (0x80 + code / 64 % 64) as char;
      data[nextTail + 2] := (0x80 + code % 64) as char;
      nextTail := nextTail + 3;
    } else if code >= 0x80 {
      data[nextTail] := (0xC0 + code / 64) as char;
      data[nextTail + 1] := (0x80 + code % 64) as char;
      nextTail := nextTail + 2;
    } else {
      data[nextTail] := code as char;
      nextTail := nextTail + 1;
    }
  }

  /** Copies the bytes of one character or escape sequence down to `tail`. */
  method CopyUnit(data: array<char>, head: nat, end: nat, tail: nat) returns (nextHead: nat, nextTail: nat)
    requires tail <= head < end <= data.Length && UnitLength(data[head..end]) > 0
    modifies data
    ensures nextHead == head + UnitLength(old(data[head..end])) &&
      nextTail == tail + |UnescapeUnit(old(data[head..end]))|
    ensures nextTail <= nextHead <= end && data[tail..nextTail] == UnescapeUnit(old(data[head..end]))
    ensures forall k :: 0 <= k < data.Length && !(tail <= k < nextTail) ==> data[k] == old(data[k])
  {
    ghost var s := data[head..end];
    assert forall k :: 0 <= k < |s| ==> s[k] == data[head + k];
    nextHead := head;
    if data[head] == '\\' {
      nextHead := nextHead + 1;
      var c := data[nextHead];
      if c == 'u' {
        var code := Code(data[nextHead + 1], data[nextHead + 2], data[nextHead + 3], data[nextHead + 4]);
        nextTail := WriteCode(data, tail, code);
        nextHead := nextHead + 4;
      } else {
        data[tail] := PlainEscape(c);
        nextTail := tail + 1;
      }
    } else {
      data[tail] := data[nextHead];
      nextTail := tail + 1;
    }
    nextHead := nextHead + 1;
  }

  method MoveUnit(data: array<char>, start: nat, head: nat, end: nat, tail: nat, ghost written: string,
                  ghost rest: string)
    returns (nextHead: nat, nextTail: nat)
    requires start <= tail <= head < end <= data.Length && UnitLength(rest) > 0
    requires data[head..end] == rest && data[start..tail] == written
    modifies data
    ensures start <= nextTail <= nextHead <= end && head < nextHead
    ensures data[nextHead..end] == rest[UnitLength(rest)..] && data[start..nextTail] == written + UnescapeUnit(rest)
    ensures forall k :: 0 <= k < data.Length && !(start <= k < end) ==> data[k] == old(data[k])
  {
    ghost var before, length, unit := data[..], UnitLength(rest), UnescapeUnit(rest);
    nextHead, nextTail := CopyUnit(data, head, end, tail);
    RestStays(before, data[..], head, end, length, rest);
    WrittenGrows(before, data[..], start, tail, nextTail, written, unit);
  }

  lemma RestStays(a: string, b: string, head: nat, end: nat, length: nat, rest: string)
    requires head + length <= end <= |a| == |b| && a[head..end] == rest
    requires forall k :: head + length <= k < end ==> b[k] == a[k]
    ensures b[head + length..end] == rest[length..]
  {
  }

  lemma WrittenGrows(a: string, b: string, start: nat, tail: nat, nextTail: nat, written: string, unit: string)
    requires start <= tail <= nextTail <= |a| == |b| && a[start..tail] == written && b[tail..nextTail] == unit
    requires forall k :: start <= k < tail ==> b[k] == a[k]
    ensures b[start..nextTail] == written + unit
  {
    assert b[start..tail] == a[start..tail];
  }

  /** The loop of the unescaping: `tail` never overtakes `head`. */
  method CopyUnits(data: array<char>, start: nat, end: nat) returns (tail: nat)
    requires start <= end <= data.Length && WellEscaped(data[start..end])
    modifies data
    ensures start <= tail <= end && data[start..tail] == Unescape(old(data[start..end]))
    ensures forall k :: 0 <= k < data.Length && !(start <= k < end) ==> data[k] == old(data[k])
  {
    ghost var rest := data[start..end];
    ghost var written := "";
    var head := start;
    tail := start;
    while head != end
      invariant start <= tail <= head <= end
      invariant data[head..end] == rest && WellEscaped(rest) && data[start..tail] == written
      invariant written + Unescape(rest) == Unescape(old(data[start..end]))
      invariant forall k :: 0 <= k < data.Length && !(start <= k < end) ==> data[k] == old(data[k])
      decreases end - head
    {
      head, tail := MoveUnit(data, start, head, end, tail, written, rest);
      Regroup2(written, UnescapeUnit(rest), Unescape(rest[UnitLength(rest)..]));
      written, rest := written + UnescapeUnit(rest), rest[UnitLength(rest)..];
    }
  }

  lemma Regroup2(a: string, b: string, c: string)
    ensures (a + b) + c == a + (b + c)
  {
  }

  /** The string between `start` and `end`; afterwards it is unescaped and ends at the new end. */
  method UnescapeInPlace(data: array<char>, start: nat, end: nat) returns (newEnd: nat)
    requires 0 < start <= end < data.Length && ShowsText(data[..], start, end, data[start..end])
    modifies data
    ensures start <= newEnd <= end && data[start..newEnd] == Unescape(old(data[start..end]))
    ensures data[start - 1] == NO
    ensures forall k :: 0 <= k < data.Length && !(start - 1 <= k <= end) ==> data[k] == old(data[k])
  {
    if data[start - 1] == NO {
      NothingToUnescape(data[start..end]);
      return end;
    }
    newEnd := CopyUnits(data, start, end);
    ghost var text := data[start..newEnd];
    data[newEnd] := NO;
    data[start - 1] := NO;
    assert data[start..newEnd] == text;
  }

  // ---------------------------------------------------------------------------------------------
  // The cursor
  // ---------------------------------------------------------------------------------------------

  /** `p` with a prefix of length `n` that has been read before. */
  function Longer(p: Option<nat>, n: nat): Option<nat> {
    if p.Some? then Some(n + p.value) else None
  }

  lemma {:induction false} ScanGoesOn(whole: Option<nat>, s: string, n: nat, next: string, m: nat)
    requires whole == Longer(ScanString(s), n)
    requires UnitLength(s) > 0 && s[0] != '"' && s[0] != NO && next == s[UnitLength(s)..] && m == n + UnitLength(s)
    ensures whole == Longer(ScanString(next), m)
  {
  }

  lemma {:induction false} ScanNumberStep(s: string, state: NumberState, next: NumberState)
    requires s != "" && IsNumberChar(s[0]) && !state.Invalid? && next == NextState(state, s[0])
    ensures ScanNumber(s, state) == Longer(ScanNumber(s[1..], next), 1)
  {
  }

  lemma {:induction false} NumberGoesOn(whole: Option<nat>, s: string, state: NumberState, next: NumberState, n: nat)
    requires s != "" && IsNumberChar(s[0]) && !state.Invalid? && next == NextState(state, s[0])
    requires whole == Longer(ScanNumber(s, state), n)
    ensures whole == Longer(ScanNumber(s[1..], next), n + 1)
  {
    ScanNumberStep(s, state, next);
  }

  /** A run of digits leaves these states as they are. */
  lemma {:induction false} DigitsGoOn(whole: Option<nat>, s: string, state: NumberState, n: nat, k: nat)
    requires k <= |s| && AllDigits(s[..k]) && (k > 0 ==>
      state.Digits? || state.DigitsAfterPoints? || state.DigitsAfterE? || state.Invalid?)
    requires whole == Longer(ScanNumber(s, state), n)
    ensures whole == Longer(ScanNumber(s[k..], state), n + k)
    decreases k
  {
    if k == 0 {
      assert s[0..] == s;
    } else {
      assert IsDigit(s[..k][0]) && s[1..][k - 1..] == s[k..] && s[1..][..k - 1] == s[..k][1..];
      if state.Invalid? {
        assert ScanNumber(s[1..], state) == None;
      } else {
        NumberGoesOn(whole, s, state, state, n);
      }
      DigitsGoOn(whole, s[1..], state, n + 1, k - 1);
    }
  }

  lemma {:induction false} AppendItem(b: string, c: string, items: seq<Rvalue>, cuts: seq<nat>, lo: nat, mid: nat,
                                      raws: seq<Raw>,
                   v: Rvalue, hi: nat, end: nat, raw: Raw)
    requires ShowsItems(b, items, cuts, lo, mid, raws) && Same(b, c, 0, mid) && mid <= hi <= end <= |c| &&
      Shows(c, v, mid, hi, raw)
    ensures ShowsItems(c, items + [v], cuts + [end], lo, end, raws + [raw])
  {
    ItemsStay(b, c, items, cuts, lo, mid, raws);
    Widens(c, v, mid, hi, cuts[|items|], end, raw);
    forall i | 0 <= i < |items + [v]|
      ensures Shows(c, (items + [v])[i], (cuts + [end])[i], (cuts + [end])[i + 1], (raws + [raw])[i])
    {
      if i < |items| {
        assert Shows(c, items[i], cuts[i], cuts[i + 1], raws[i]);
      }
    }
  }

  function Prepend<T>(first: seq<T>, p: Option<Parsed<seq<T>>>): Option<Parsed<seq<T>>> {
    if p.Some? then Some(Parsed(first + p.value.value, p.value.rest)) else None
  }

  lemma PrependNothing<T>(p: Option<Parsed<seq<T>>>)
    ensures Prepend([], p) == p
  {
    if p.Some? {
      assert [] + p.value.value == p.value.value;
    }
  }

  /** After an item the list ends, goes on after a comma, or is in error. */
  lemma {:induction false} ItemParsed(raws: seq<Raw>, rest: string)
    requires raws != [] && ParseValue(rest).Some? && raws[|raws| - 1] == ParseValue(rest).value.value
    ensures var t := SkipSpace(ParseValue(rest).value.rest);
      Prepend(raws[..|raws| - 1], ParseItems(rest)) ==
        if Starts(t, ']') then Some(Parsed(raws, t[1..]))
        else if Starts(t, ',') then Prepend(raws, ParseItems(SkipSpace(t[1..])))
        else None
  {
    MoreItems(raws[..|raws| - 1], raws[|raws| - 1], SkipSpace(ParseValue(rest).value.rest));
    assert raws == raws[..|raws| - 1] + [raws[|raws| - 1]];
  }

  lemma {:induction false} MoreItems(raws: seq<Raw>, first: Raw, t: string)
    ensures Prepend(raws, ParseMoreItems(first, t)) ==
      if Starts(t, ']') then Some(Parsed(raws + [first], t[1..]))
      else if Starts(t, ',') then Prepend(raws + [first], ParseItems(SkipSpace(t[1..])))
      else None
  {
    if Starts(t, ',') && ParseItems(SkipSpace(t[1..])).Some? {
      var more := ParseItems(SkipSpace(t[1..])).value.value;
      assert raws + ([first] + more) == (raws + [first]) + more;
    }
  }

  lemma {:induction false} AppendField(b: string, c: string, fields: seq<KeyedValue>, cuts: seq<nat>, lo: nat,
                                       mid: nat, raws: seq<RawField>,
                    field: KeyedValue, hi: nat, end: nat, raw: RawField)
    requires ShowsFields(b, fields, cuts, lo, mid, raws) && Same(b, c, 0, mid)
    requires mid <= hi <= end <= |c| && ShowsField(c, field, mid, hi, raw)
    ensures ShowsFields(c, fields + [field], cuts + [end], lo, end, raws + [raw])
  {
    FieldsStay(b, c, fields, cuts, lo, mid, raws);
    Widens(c, field.value, field.keyEnd, hi, field.keyEnd, end, raw.value);
    assert ShowsField(c, field, cuts[|fields|], end, raw);
    forall i | 0 <= i < |fields + [field]|
      ensures ShowsField(c, (fields + [field])[i], (cuts + [end])[i], (cuts + [end])[i + 1], (raws + [raw])[i])
    {
      if i < |fields| {
        assert ShowsField(c, fields[i], cuts[i], cuts[i + 1], raws[i]);
      }
    }
  }

  lemma {:induction false} FieldShows(b: string, c: string, lo: nat, keyStart: nat, keyEnd: nat, v: Rvalue,
                                      valueStart: nat, hi: nat, raw: Raw)
    requires lo <= keyStart <= keyEnd <= valueStart <= |b| && Same(b, c, 0, valueStart) &&
      Shows(c, v, valueStart, hi, raw)
    ensures ShowsField(c, KeyedValue(keyStart, keyEnd, v), lo, hi, RawField(b[keyStart..keyEnd], raw))
  {
    assert c[keyStart..keyEnd] == b[keyStart..keyEnd];
    Widens(c, v, valueStart, hi, keyEnd, hi, raw);
  }

  lemma {:induction false} FieldParsed(raws: seq<RawField>, rest: string)
    requires raws != [] && ParseField(rest).Some? && raws[|raws| - 1] == ParseField(rest).value.value
    ensures var t := SkipSpace(ParseField(rest).value.rest);
      Prepend(raws[..|raws| - 1], ParseFields(rest)) ==
        if Starts(t, '}') then Some(Parsed(raws, t[1..]))
        else if Starts(t, ',') then Prepend(raws, ParseFields(SkipSpace(t[1..])))
        else None
  {
    MoreFields(raws[..|raws| - 1], raws[|raws| - 1], SkipSpace(ParseField(rest).value.rest));
    assert raws == raws[..|raws| - 1] + [raws[|raws| - 1]];
  }

  lemma {:induction false} MoreFields(raws: seq<RawField>, first: RawField, t: string)
    ensures Prepend(raws, ParseMoreFields(first, t)) ==
      if Starts(t, '}') then Some(Parsed(raws + [first], t[1..]))
      else if Starts(t, ',') then Prepend(raws + [first], ParseFields(SkipSpace(t[1..])))
      else None
  {
    if Starts(t, ',') && ParseFields(SkipSpace(t[1..])).Some? {
      var more := ParseFields(SkipSpace(t[1..])).value.value;
      assert raws + ([first] + more) == (raws + [first]) + more;
    }
  }

  lemma RunGoesOn(whole: Option<nat>, s: string, state: NumberState, next: NumberState, n: nat, k: nat)
    requires s != "" && IsNumberChar(s[0]) && !state.Invalid? && next == NextState(state, s[0])
    requires k <= |s[1..]| && AllDigits(s[1..][..k]) && (k > 0 ==> '1' <= s[0] <= '9')
    requires whole == Longer(ScanNumber(s, state), n)
    ensures whole == Longer(ScanNumber(s[k + 1..], next), n + 1 + k)
  {
    NumberGoesOn(whole, s, state, next, n);
    DigitsGoOn(whole, s[1..], next, n + 1, k);
    assert s[1..][k..] == s[k + 1..];
  }

  datatype Outcome = More | Done | Failed

  class Parser {
    const buffer: array<char>
    var data: nat

    /** The text ends with a NUL, and the cursor has not passed it. */
    ghost predicate Valid()
      reads this, buffer
    {
      data < buffer.Length && buffer[buffer.Length - 1] == NO
    }

    ghost function Rest(): string
      reads this, buffer
      requires Valid()
    {
      buffer[data..]
    }

    /** The cursor has gone on from `start`, and nothing outside the part it passed has changed. */
    ghost predicate Ahead(before: string, start: nat)
      reads this, buffer
    {
      && Valid() && start <= data && |before| == buffer.Length
      && (forall k :: 0 <= k < start ==> buffer[k] == before[k])
      && (forall k :: data <= k < buffer.Length ==> buffer[k] == before[k])
    }

    constructor (buffer: array<char>)
      requires buffer.Length > 0 && buffer[buffer.Length - 1] == NO
      ensures Valid() && this.buffer == buffer && data == 0
    {
      this.buffer := buffer;
      data := 0;
    }

    method Consume(c: char) returns (ok: bool)
      requires Valid() && c != NO
      modifies this
      ensures Valid() && ok == Starts(old(Rest()), c)
      ensures data == old(data) + if ok then 1 else 0
      ensures Rest() == if ok then old(Rest())[1..] else old(Rest())
    {
      if buffer[data] != c {
        return false;
      }
      data := data + 1;
      return true;
    }

    method WsSkip()
      requires Valid()
      modifies this
      ensures Valid() && old(data) <= data && Rest() == SkipSpace(old(Rest()))
    {
      while IsSpace(buffer[data])
        invariant Valid() && old(data) <= data && SkipSpace(Rest()) == SkipSpace(old(Rest()))
        decreases buffer.Length - data
      {
        assert Rest()[1..] == buffer[data + 1..];
        data := data + 1;
      }
    }

    /** Passes an escape sequence. */
    method SkipEscape() returns (ok: bool)
      requires Valid() && buffer[data] == '\\'
      modifies this
      ensures Valid() && old(data) <= data && ok == (UnitLength(old(Rest())) > 0)
      ensures ok ==> data == old(data) + UnitLength(old(Rest()))
    {
      ghost var s := Rest();
      assert s[0] == '\\' && forall k :: 0 <= k < |s| ==> s[k] == buffer[old(data) + k];
      data := data + 1;
      if buffer[data] == 'u' {
        if !(IsHex(buffer[data + 1]) && IsHex(buffer[data + 2]) && IsHex(buffer[data + 3]) && IsHex(buffer[data + 4])) {
          return false;
        }
        data := data + 5;
        return true;
      } else if IsPlainEscape(buffer[data]) {
        data := data + 1;
        return true;
      }
      return false;
    }

    /** Passes one character or escape sequence. */
    method SkipUnit(ghost start: nat) returns (ok: bool, escaped: bool)
      requires Valid() && start <= data && buffer[data] != '"' && buffer[data] != NO
      modifies this
      ensures Valid() && old(data) <= data && ok == (UnitLength(old(Rest())) > 0)
      ensures ok ==> data == old(data) + UnitLength(old(Rest())) && Rest() == old(Rest())[UnitLength(old(Rest()))..]
      ensures ok ==> ('\\' in buffer[start..data] <==> escaped || '\\' in buffer[start..old(data)])
    {
      ghost var last := data;
      if buffer[data] == '\\' {
        ok := SkipEscape();
        escaped := true;
        assert ok ==> buffer[last] in buffer[start..data];
      } else {
        data := data + 1;
        ok, escaped := true, false;
        assert buffer[start..data] == buffer[start..last] + [buffer[last]];
      }
    }

    /** The same, with what the scan as a whole comes to. */
    method ScanUnit(ghost start: nat, ghost whole: Option<nat>) returns (ok: bool, escaped: bool)
      requires Valid() && start <= data && buffer[data] != '"' && buffer[data] != NO
      requires whole == Longer(ScanString(Rest()), data - start)
      modifies this
      ensures Valid() && old(data) <= data
      ensures if ok then old(data) < data && whole == Longer(ScanString(Rest()), data - start) else whole == None
      ensures ok ==> ('\\' in buffer[start..data] <==> escaped || '\\' in buffer[start..old(data)])
    {
      ghost var rest, n := Rest(), data - start;
      ok, escaped := SkipUnit(start);
      if ok {
        ScanGoesOn(whole, rest, n, Rest(), data - start);
      }
    }

    /** The loop of the string scanner, up to the closing quote. */
    method ScanToQuote() returns (ok: bool, hasEscaping: bool)
      requires Valid()
      modifies this
      ensures Valid() && old(data) <= data
      ensures ok == ScanString(old(Rest())).Some?
      ensures ok ==> data == old(data) + ScanString(old(Rest())).value && buffer[data] == '"'
      ensures ok ==> (hasEscaping <==> '\\' in buffer[old(data)..data])
    {
      hasEscaping := false;
      ghost var start, whole := data, ScanString(Rest());
      while buffer[data] != '"'
        invariant Valid() && start <= data
        invariant whole == Longer(ScanString(Rest()), data - start)
        invariant hasEscaping <==> '\\' in buffer[start..data]
        decreases buffer.Length - data
      {
        if buffer[data] == NO {
          return false, hasEscaping;
        }
        var escaped;
        ok, escaped := ScanUnit(start, whole);
        if !ok {
          return false, hasEscaping;
        }
        hasEscaping := hasEscaping || escaped;
      }
      ok := true;
    }

    /** What every `decode_*` returns: an error, or a value that the passed part of the buffer shows. */
    ghost predicate Returns(before: string, start: nat, r: Rvalue, p: Option<Parsed<Raw>>)
      reads this, buffer
    {
      && Valid() && start <= data
      && match p
         case None => r.ErrorV?
         case Some(q) =>
           !r.ErrorV? && Ahead(before, start) && Rest() == q.rest && Shows(buffer[..], r, start, data, q.value)
    }

    lemma SealedShows(a: string, b: string, start: nat, end: nat, text: string)
      requires 0 < start <= end < |a| == |b| && a[start..end] == text && WellEscaped(text)
      requires forall k :: start <= k < end ==> b[k] == a[k]
      requires b[start - 1] == NO ==> '\\' !in text
      ensures Shows(b, StringV(start, end), start - 1, end + 1, RString(text))
    {
      assert b[start..end] == a[start..end];
    }

    /** Overwrites the quotes: the first one with the mark for escaping, the second one with the end. */
    method Seal(start: nat, hasEscaping: bool, ghost text: string, ghost rest: string)
      requires Valid() && 0 < start <= data && buffer[data] == '"'
      requires buffer[start..data] == text && buffer[data + 1..] == rest
      requires WellEscaped(text) && (hasEscaping <==> '\\' in text)
      modifies this, buffer
      ensures Returns(old(buffer[..]), start - 1, StringV(start, old(data)), Some(Parsed(RString(text), rest)))
    {
      ghost var before := buffer[..];
      buffer[data] := NO;
      buffer[start - 1] := if hasEscaping then YES else NO;
      SealedShows(before, buffer[..], start, data, text);
      data := data + 1;
    }

    lemma StringIsParsed(s: string, n: nat)
      requires Starts(s, '"') && ScanString(s[1..]) == Some(n)
      ensures ParseString(s) == Some(Parsed(s[1..][..n], s[1..][n + 1..]))
    {
    }

    lemma PartsOfRest(bytes: string, start: nat, s: string, n: nat)
      requires 0 < start && start + n < |bytes| && s == bytes[start - 1..]
      ensures bytes[start..start + n] == s[1..][..n] && bytes[start + n + 1..] == s[1..][n + 1..]
    {
    }

    method DecodeString() returns (r: Rvalue)
      requires Valid()
      modifies this, buffer
      ensures r.ErrorV? || r.StringV?
      ensures Valid() && old(data) <= data && match ParseString(old(Rest()))
              case None => r.ErrorV?
              case Some(p) => Returns(old(buffer[..]), old(data), r, Some(Parsed(RString(p.value), p.rest)))
    {
      ghost var s := Rest();
      var ok := Consume('"');
      if !ok {
        return ErrorV;
      }
      var start := data;
      assert Rest() == s[1..];
      var hasEscaping;
      ok, hasEscaping := ScanToQuote();
      if !ok {
        return ErrorV;
      }
      StringIsParsed(s, data - start);
      r := EndString(start, hasEscaping, s, data - start);
    }

    /** The end of `decode_string`: the scanner stands on the closing quote. */
    method EndString(start: nat, hasEscaping: bool, ghost s: string, ghost n: nat) returns (r: Rvalue)
      requires Valid() && 0 < start <= data && buffer[data] == '"' && n == data - start
      requires s == buffer[start - 1..] && ScanString(s[1..]) == Some(n)
      requires hasEscaping <==> '\\' in buffer[start..data]
      modifies this, buffer
      ensures r.StringV? && Returns(old(buffer[..]), start - 1, r, Some(Parsed(RString(s[1..][..n]), s[1..][n + 1..])))
    {
      ScannedIsWellEscaped(s[1..]);
      PartsOfRest(buffer[..], start, s, n);
      r := StringV(start, data);
      Seal(start, hasEscaping, s[1..][..n], s[1..][n + 1..]);
    }

    /** Passes the rest of a run of digits. */
    method SkipDigits()
      requires Valid() && IsDigit(buffer[data])
      modifies this
      ensures Valid() && old(data) <= data && forall k :: old(data) <= k <= data ==> IsDigit(buffer[k])
    {
      while IsDigit(buffer[data + 1])
        invariant Valid() && old(data) <= data && forall k :: old(data) <= k <= data ==> IsDigit(buffer[k])
        decreases buffer.Length - data
      {
        data := data + 1;
      }
    }

    /** One round of the number scanner: a single character, or a run of digits that starts with 1 to 9. */
    method ScanRun(state: NumberState, ghost n: nat, ghost whole: Option<nat>) returns (next: NumberState, ghost m: nat)
      requires Valid() && !state.Invalid? && IsNumberChar(buffer[data])
      requires whole == Longer(ScanNumber(Rest(), state), n)
      modifies this
      ensures Valid() && old(data) < data && m == n + data - old(data)
      ensures whole == Longer(ScanNumber(Rest(), next), m)
    {
      var c := buffer[data];
      next := NextState(state, c);
      ghost var rest, k := Rest(), 0;
      if '1' <= c <= '9' {
        SkipDigits();
        k := data - old(data);
      }
      data := data + 1;
      m := n + 1 + k;
      assert AllDigits(rest[1..][..k]);
      RunGoesOn(whole, rest, state, next, n, k);
      assert rest[k + 1..] == Rest();
    }

    method ScanNumeral() returns (ok: bool)
      requires Valid()
      modifies this
      ensures Valid() && old(data) <= data && ok == ScanNumber(old(Rest()), Minus).Some?
      ensures ok ==> data == old(data) + ScanNumber(old(Rest()), Minus).value
    {
      var state := Minus;
      ghost var whole, n := ScanNumber(Rest(), Minus), 0;
      while !state.Invalid?
        invariant Valid() && old(data) <= data && n == data - old(data)
        invariant whole == Longer(ScanNumber(Rest(), state), n)
        decreases buffer.Length - data
      {
        if !IsNumberChar(buffer[data]) {
          return Accepts(state);
        }
        state, n := ScanRun(state, n, whole);
      }
      return false;
    }

    method DecodeNumber() returns (r: Rvalue)
      requires Valid()
      modifies this
      ensures Returns(old(buffer[..]), old(data), r, ParseNumber(old(Rest())))
    {
      var start := data;
      ghost var whole := Rest();
      var ok := ScanNumeral();
      if !ok {
        return ErrorV;
      }
      assert buffer[..][start..data] == whole[..data - start] && whole[data - start..] == Rest();
      r := NumberV(start, data);
    }

    /** After an item: the closing character, or a comma and the space after it. */
    method Separator(closing: char) returns (outcome: Outcome)
      requires Valid() && closing != NO && closing != ','
      modifies this
      ensures Valid() && old(data) <= data
      ensures outcome == if Starts(old(Rest()), closing) then Done else if Starts(old(Rest()), ',') then More
        else Failed
      ensures outcome.Done? ==> Rest() == old(Rest())[1..]
      ensures outcome.More? ==> Rest() == SkipSpace(old(Rest())[1..])
    {
      var ok := Consume(closing);
      if ok {
        return Done;
      }
      ok := Consume(',');
      if !ok {
        return Failed;
      }
      WsSkip();
      return More;
    }

    /** One item of a list with the space after it. */
    method DecodeItem(items: seq<Rvalue>, ghost cuts: seq<nat>, ghost lo: nat, ghost raws: seq<Raw>)
      returns (ok: bool, more: seq<Rvalue>, ghost moreCuts: seq<nat>, ghost moreRaws: seq<Raw>)
      requires Valid() && lo <= data && ShowsItems(buffer[..], items, cuts, lo, data, raws)
      modifies this, buffer
      ensures Valid() && ok == ParseValue(old(Rest())).Some? && old(data) <= data
      ensures ok ==> Ahead(old(buffer[..]), old(data)) && old(data) < data && var p := ParseValue(old(Rest())).value;
              moreRaws == raws + [p.value] && Rest() == SkipSpace(p.rest) &&
                ShowsItems(buffer[..], more, moreCuts, lo, data, moreRaws)
      decreases buffer.Length - data, 3
    {
      ghost var before, mid := buffer[..], data;
      var v := DecodeValue();
      if v.ErrorV? {
        return false, items, cuts, raws;
      }
      ghost var hi, raw := data, ParseValue(before[mid..]).value.value;
      WsSkip();
      AppendItem(before, buffer[..], items, cuts, lo, mid, raws, v, hi, data, raw);
      ok, more, moreCuts, moreRaws := true, items + [v], cuts + [data], raws + [raw];
    }

    /** One round of the loop: an item and what follows it. */
    method TakeItem(items: seq<Rvalue>, ghost cuts: seq<nat>, ghost lo: nat, ghost raws: seq<Raw>)
      returns (outcome: Outcome, more: seq<Rvalue>, ghost moreCuts: seq<nat>, ghost moreRaws: seq<Raw>)
      requires Valid() && lo <= data && ShowsItems(buffer[..], items, cuts, lo, data, raws)
      modifies this, buffer
      ensures Valid() && old(data) <= data
      ensures !outcome.Failed? ==>
        Ahead(old(buffer[..]), old(data)) && old(data) < data &&
        ShowsItems(buffer[..], more, moreCuts, lo, data, moreRaws)
      ensures Prepend(raws, ParseItems(old(Rest()))) == match outcome
              case More => Prepend(moreRaws, ParseItems(Rest()))
              case Done => Some(Parsed(moreRaws, Rest()))
              case Failed => None
      decreases buffer.Length - data, 5
    {
      ghost var rest := Rest();
      var ok;
      ok, more, moreCuts, moreRaws := DecodeItem(items, cuts, lo, raws);
      if !ok {
        outcome := Failed;
        return;
      }
      ItemParsed(moreRaws, rest);
      outcome := Separator(']');
    }

    /** The loop over the items, up to and with the closing character. */
    method DecodeItems() returns (ok: bool, items: seq<Rvalue>, ghost cuts: seq<nat>)
      requires Valid()
      modifies this, buffer
      ensures Valid() && old(data) <= data && ok == ParseItems(old(Rest())).Some?
      ensures ok ==> Ahead(old(buffer[..]), old(data)) && Rest() == ParseItems(old(Rest())).value.rest
      ensures ok ==> ShowsItems(buffer[..], items, cuts, old(data), data, ParseItems(old(Rest())).value.value)
      decreases buffer.Length - data, 6
    {
      ghost var before, start := buffer[..], data;
      ghost var raws: seq<Raw> := [];
      items, cuts := [], [start];
      ghost var whole := ParseItems(Rest());
      PrependNothing(whole);
      var outcome := More;
      while outcome.More?
        invariant Valid() && start <= data
        invariant !outcome.Failed? ==> Ahead(before, start) && ShowsItems(buffer[..], items, cuts, start, data, raws)
        invariant whole == match outcome
                  case More => Prepend(raws, ParseItems(Rest()))
                  case Done => Some(Parsed(raws, Rest()))
                  case Failed => None
        decreases outcome.More?, buffer.Length - data
      {
        outcome, items, cuts, raws := TakeItem(items, cuts, start, raws);
      }
      ok := outcome.Done?;
    }

    method DecodeList() returns (r: Rvalue)
      requires Valid() && buffer[data] == '['
      modifies this, buffer
      ensures Returns(old(buffer[..]), old(data), r, ParseList(SkipSpace(old(Rest())[1..])))
      decreases buffer.Length - data, 1
    {
      ghost var start := data;
      var ok := Consume('[');
      WsSkip();
      r := DecodeListRest(start);
    }

    /** What follows the opening character. */
    method DecodeListRest(ghost start: nat) returns (r: Rvalue)
      requires Valid() && start < data
      modifies this, buffer
      ensures Returns(old(buffer[..]), start, r, ParseList(old(Rest())))
      decreases buffer.Length - data, 7
    {
      var ok := Consume(']');
      if ok {
        assert ShowsItems(buffer[..], [], [start], start, data, []);
        return ListV([]);
      }
      ghost var text := Rest();
      var items;
      ghost var cuts;
      ok, items, cuts := DecodeItems();
      if !ok {
        return ErrorV;
      }
      assert ShowsItems(buffer[..], items, cuts, start, data, ParseItems(text).value.value);
      r := ListV(items);
    }

    /** A key that is still escaped, with its colon. */
    method DecodeKeyText() returns (ok: bool, t: Rvalue, ghost text: string)
      requires Valid()
      modifies this, buffer
      ensures Valid() && old(data) <= data
      ensures var s := ParseString(old(Rest())); ok == (s.Some? && Starts(SkipSpace(s.value.rest), ':'))
      ensures ok ==>
        text == ParseString(old(Rest())).value.value && Rest() == SkipSpace(ParseString(old(Rest())).value.rest)[1..]
      ensures ok ==> Ahead(old(buffer[..]), old(data))
      ensures ok ==> t.StringV? && old(data) < t.start <= t.end < data && ShowsText(buffer[..], t.start, t.end, text)
    {
      t := DecodeString();
      text := "";
      if t.ErrorV? {
        return false, t, text;
      }
      text := ParseString(old(Rest())).value.value;
      WsSkip();
      ok := Consume(':');
    }

    /** A key, unescaped, with its colon and the space after it. */
    method DecodeKey() returns (ok: bool, keyStart: nat, keyEnd: nat)
      requires Valid()
      modifies this, buffer
      ensures Valid() && old(data) <= data && ok == ParseKey(old(Rest())).Some?
      ensures ok ==> Ahead(old(buffer[..]), old(data)) && old(data) < data && Rest() == ParseKey(old(Rest())).value.rest
      ensures ok ==>
        old(data) <= keyStart <= keyEnd <= data && buffer[keyStart..keyEnd] == ParseKey(old(Rest())).value.value
    {
      keyStart, keyEnd := 0, 0;
      var t;
      ghost var text;
      ok, t, text := DecodeKeyText();
      if !ok {
        return false, keyStart, keyEnd;
      }
      keyStart, keyEnd := UnescapeKey(t.start, t.end, text);
      WsSkip();
    }

    method UnescapeKey(start: nat, end: nat, ghost text: string) returns (keyStart: nat, keyEnd: nat)
      requires Valid() && 0 < start <= end < data && ShowsText(buffer[..], start, end, text)
      modifies buffer
      ensures Valid() && Rest() == old(Rest()) && Ahead(old(buffer[..]), start - 1)
      ensures start == keyStart <= keyEnd <= end && buffer[keyStart..keyEnd] == Unescape(text)
    {
      assert buffer[..][start..end] == buffer[start..end];
      keyStart := start;
      keyEnd := UnescapeInPlace(buffer, start, end);
    }

    method DecodeKeyedValue() returns (ok: bool, field: KeyedValue)
      requires Valid()
      modifies this, buffer
      ensures Valid() && old(data) <= data && ok == ParseField(old(Rest())).Some?
      ensures ok ==>
        Ahead(old(buffer[..]), old(data)) && old(data) < data && Rest() == ParseField(old(Rest())).value.rest
      ensures ok ==> ShowsField(buffer[..], field, old(data), data, ParseField(old(Rest())).value.value)
      decreases buffer.Length - data, 3
    {
      var keyStart, keyEnd;
      ok, keyStart, keyEnd := DecodeKey();
      field := KeyedValue(0, 0, ErrorV);
      if !ok {
        return;
      }
      ghost var middle, valueStart := buffer[..], data;
      var v := DecodeValue();
      if v.ErrorV? {
        return false, field;
      }
      FieldShows(middle, buffer[..], old(data), keyStart, keyEnd, v, valueStart, data,
        ParseValue(middle[valueStart..]).value.value);
      field := KeyedValue(keyStart, keyEnd, v);
    }

    /** One field of an object with the space after it. */
    method DecodeField(fields: seq<KeyedValue>, ghost cuts: seq<nat>, ghost lo: nat, ghost raws: seq<RawField>)
      returns (ok: bool, more: seq<KeyedValue>, ghost moreCuts: seq<nat>, ghost moreRaws: seq<RawField>)
      requires Valid() && lo <= data && ShowsFields(buffer[..], fields, cuts, lo, data, raws)
      modifies this, buffer
      ensures Valid() && ok == ParseField(old(Rest())).Some? && old(data) <= data
      ensures ok ==> Ahead(old(buffer[..]), old(data)) && old(data) < data && var p := ParseField(old(Rest())).value;
              moreRaws == raws + [p.value] && Rest() == SkipSpace(p.rest) &&
                ShowsFields(buffer[..], more, moreCuts, lo, data, moreRaws)
      decreases buffer.Length - data, 4
    {
      ghost var before, mid := buffer[..], data;
      var field;
      ok, field := DecodeKeyedValue();
      if !ok {
        return false, fields, cuts, raws;
      }
      ghost var hi, raw := data, ParseField(before[mid..]).value.value;
      WsSkip();
      AppendField(before, buffer[..], fields, cuts, lo, mid, raws, field, hi, data, raw);
      ok, more, moreCuts, moreRaws := true, fields + [field], cuts + [data], raws + [raw];
    }

    /** One round of the loop: a field and what follows it. */
    method TakeField(fields: seq<KeyedValue>, ghost cuts: seq<nat>, ghost lo: nat, ghost raws: seq<RawField>)
      returns (outcome: Outcome, more: seq<KeyedValue>, ghost moreCuts: seq<nat>, ghost moreRaws: seq<RawField>)
      requires Valid() && lo <= data && ShowsFields(buffer[..], fields, cuts, lo, data, raws)
      modifies this, buffer
      ensures Valid() && old(data) <= data
      ensures !outcome.Failed? ==>
        Ahead(old(buffer[..]), old(data)) && old(data) < data &&
        ShowsFields(buffer[..], more, moreCuts, lo, data, moreRaws)
      ensures Prepend(raws, ParseFields(old(Rest()))) == match outcome
              case More => Prepend(moreRaws, ParseFields(Rest()))
              case Done => Some(Parsed(moreRaws, Rest()))
              case Failed => None
      decreases buffer.Length - data, 5
    {
      ghost var rest := Rest();
      var ok;
      ok, more, moreCuts, moreRaws := DecodeField(fields, cuts, lo, raws);
      if !ok {
        outcome := Failed;
        return;
      }
      FieldParsed(moreRaws, rest);
      outcome := Separator('}');
    }

    /** The loop over the fields, up to and with the closing character. */
    method DecodeFields() returns (ok: bool, fields: seq<KeyedValue>, ghost cuts: seq<nat>)
      requires Valid()
      modifies this, buffer
      ensures Valid() && old(data) <= data && ok == ParseFields(old(Rest())).Some?
      ensures ok ==> Ahead(old(buffer[..]), old(data)) && Rest() == ParseFields(old(Rest())).value.rest
      ensures ok ==> ShowsFields(buffer[..], fields, cuts, old(data), data, ParseFields(old(Rest())).value.value)
      decreases buffer.Length - data, 6
    {
      ghost var before, start := buffer[..], data;
      ghost var raws: seq<RawField> := [];
      fields, cuts := [], [start];
      ghost var whole := ParseFields(Rest());
      PrependNothing(whole);
      var outcome := More;
      while outcome.More?
        invariant Valid() && start <= data
        invariant !outcome.Failed? ==> Ahead(before, start) && ShowsFields(buffer[..], fields, cuts, start, data, raws)
        invariant whole == match outcome
                  case More => Prepend(raws, ParseFields(Rest()))
                  case Done => Some(Parsed(raws, Rest()))
                  case Failed => None
        decreases outcome.More?, buffer.Length - data
      {
        outcome, fields, cuts, raws := TakeField(fields, cuts, start, raws);
      }
      ok := outcome.Done?;
    }

    method DecodeObject() returns (r: Rvalue)
      requires Valid() && buffer[data] == '{'
      modifies this, buffer
      ensures Returns(old(buffer[..]), old(data), r, ParseObject(SkipSpace(old(Rest())[1..])))
      decreases buffer.Length - data, 1
    {
      ghost var start := data;
      var ok := Consume('{');
      WsSkip();
      r := DecodeObjectRest(start);
    }

    /** What follows the opening character. */
    method DecodeObjectRest(ghost start: nat) returns (r: Rvalue)
      requires Valid() && start < data
      modifies this, buffer
      ensures Returns(old(buffer[..]), start, r, ParseObject(old(Rest())))
      decreases buffer.Length - data, 7
    {
      var ok := Consume('}');
      if ok {
        assert ShowsFields(buffer[..], [], [start], start, data, []);
        return ObjectV([]);
      }
      ghost var text := Rest();
      var fields;
      ghost var cuts;
      ok, fields, cuts := DecodeFields();
      if !ok {
        return ErrorV;
      }
      assert ShowsFields(buffer[..], fields, cuts, start, data, ParseFields(text).value.value);
      r := ObjectV(fields);
    }

    method DecodeWord() returns (r: Rvalue)
      requires Valid() && (buffer[data] == 't' || buffer[data] == 'f' || buffer[data] == 'n')
      modifies this
      ensures Returns(old(buffer[..]), old(data), r, ParseWord(old(Rest())))
    {
      ghost var s := Rest();
      assert forall k :: 0 <= k < |s| ==> s[k] == buffer[data + k];
      if buffer[data] == 't' {
        if buffer[data + 1] == 'r' && buffer[data + 2] == 'u' && buffer[data + 3] == 'e' {
          data := data + 4;
          return TrueV;
        }
        return ErrorV;
      } else if buffer[data] == 'f' {
        if buffer[data + 1] == 'a' && buffer[data + 2] == 'l' && buffer[data + 3] == 's' && buffer[data + 4] == 'e' {
          data := data + 5;
          return FalseV;
        }
        return ErrorV;
      } else {
        if buffer[data + 1] == 'u' && buffer[data + 2] == 'l' && buffer[data + 3] == 'l' {
          data := data + 4;
          return NullV;
        }
        return ErrorV;
      }
    }

    method DecodeValue() returns (r: Rvalue)
      requires Valid()
      modifies this, buffer
      ensures Returns(old(buffer[..]), old(data), r, ParseValue(old(Rest())))
      decreases buffer.Length - data, 2
    {
      var c := buffer[data];
      if c == '[' {
        r := DecodeList();
      } else if c == '{' {
        r := DecodeObject();
      } else if c == '"' {
        r := DecodeString();
      } else if c == 't' || c == 'f' || c == 'n' {
        r := DecodeWord();
      } else {
        r := DecodeNumber();
      }
    }

    /** The whole text. */
    method Parse() returns (r: Rvalue)
      requires Valid() && data == 0
      modifies this, buffer
      ensures match JsonGrammar.Parse(old(buffer[..]))
              case None => r.ErrorV?
              case Some(raw) => Shows(buffer[..], r, 0, buffer.Length, raw)
    {
      assert Rest() == buffer[..];
      WsSkip();
      ghost var start := data;
      r := DecodeValue();
      if r.ErrorV? {
        return ErrorV;
      }
      ghost var hi := data;
      ghost var raw := JsonGrammar.ParseValue(SkipSpace(old(buffer[..]))).value.value;
      WsSkip();
      if buffer[data] != NO {
        return ErrorV;
      }
      Widens(buffer[..], r, start, hi, 0, buffer.Length, raw);
    }
  }
}
