/** Whole JSON texts, told without the parser: documents with their spaces, how they are written, and the values that
    they stand for. */
module JsonDocuments {
  import opened Wrappers
  import opened JsonText
  import opened JsonGrammar
  import opened JsonLiterals
  import JsonWriter

  // ---------------------------------------------------------------------------------------------
  // Documents
  // ---------------------------------------------------------------------------------------------

  /** Lists and objects show the spaces after the opening bracket, and their items and fields the spaces around. */
  datatype Doc =
    | DNull
    | DTrue
    | DFalse
    | DNumber(numeral: Numeral)
    | DString(units: seq<Unit>)
    | DEmptyList(space: string)
    | DList(space: string, items: Items)
    | DEmptyObject(space: string)
    | DObject(space: string, entries: Entries)

  /** An item and the space after it; then the end, or a comma, space and more items. */
  datatype Items =
    | OneItem(doc: Doc, after: string)
    | MoreItems(doc: Doc, after: string, before: string, more: Items)

  datatype Entry = Entry(key: seq<Unit>, afterKey: string, afterColon: string, doc: Doc)

  datatype Entries =
    | OneEntry(entry: Entry, after: string)
    | MoreEntries(entry: Entry, after: string, before: string, more: Entries)

  /** Blanks, tabs, carriage returns and line feeds. */
  predicate Blank(s: string) {
    forall c :: c in s ==> c in " \t\r\n"
  }

  predicate DocOk(d: Doc) {
    match d
    case DNumber(n) => NumeralOk(n)
    case DString(units) => UnitsOk(units)
    case DEmptyList(space) => Blank(space)
    case DList(space, items) => Blank(space) && ItemsOk(items)
    case DEmptyObject(space) => Blank(space)
    case DObject(space, entries) => Blank(space) && EntriesOk(entries)
    case _ => true
  }

  predicate ItemsOk(items: Items) {
    match items
    case OneItem(doc, after) => DocOk(doc) && Blank(after)
    case MoreItems(doc, after, before, more) => DocOk(doc) && Blank(after) && Blank(before) && ItemsOk(more)
  }

  predicate EntryOk(e: Entry) {
    UnitsOk(e.key) && Blank(e.afterKey) && Blank(e.afterColon) && DocOk(e.doc)
  }

  predicate EntriesOk(entries: Entries) {
    match entries
    case OneEntry(entry, after) => EntryOk(entry) && Blank(after)
    case MoreEntries(entry, after, before, more) => EntryOk(entry) && Blank(after) && Blank(before) && EntriesOk(more)
  }

  function StringText(units: seq<Unit>): string
    requires UnitsOk(units)
  {
    ['"'] + UnitsText(units) + ['"']
  }

  function TextOf(d: Doc): string
    requires DocOk(d)
    decreases d
  {
    match d
    case DNull => "null"
    case DTrue => "true"
    case DFalse => "false"
    case DNumber(n) => NumeralText(n)
    case DString(units) => StringText(units)
    case DEmptyList(space) => ['['] + space + [']']
    case DList(space, items) => ['['] + space + ItemsText(items)
    case DEmptyObject(space) => ['{'] + space + ['}']
    case DObject(space, entries) => ['{'] + space + EntriesText(entries)
  }

  /** With the closing bracket. */
  function ItemsText(items: Items): string
    requires ItemsOk(items)
    decreases items
  {
    match items
    case OneItem(doc, after) => TextOf(doc) + (after + [']'])
    case MoreItems(doc, after, before, more) => TextOf(doc) + (after + ([','] + (before + ItemsText(more))))
  }

  function EntryText(e: Entry): string
    requires EntryOk(e)
    decreases e
  {
    StringText(e.key) + (e.afterKey + ([':'] + (e.afterColon + TextOf(e.doc))))
  }

  function EntriesText(entries: Entries): string
    requires EntriesOk(entries)
    decreases entries
  {
    match entries
    case OneEntry(entry, after) => EntryText(entry) + (after + ['}'])
    case MoreEntries(entry, after, before, more) =>
      EntryText(entry) + (after + ([','] + (before + EntriesText(more))))
  }

  // ---------------------------------------------------------------------------------------------
  // Values
  // ---------------------------------------------------------------------------------------------

  /** The value that a document stands for. */
  ghost predicate Means(d: Doc, v: Value)
    decreases d
  {
    match d
    case DNull => v == Null
    case DTrue => v == Bool(true)
    case DFalse => v == Bool(false)
    case DNumber(n) => v == NumeralValue(n)
    case DString(units) => v.Text? && UnitsMean(units, v.s)
    case DEmptyList(_) => v == List([])
    case DList(_, items) => v.List? && ItemsMean(items, v.items)
    case DEmptyObject(_) => v == Object([])
    case DObject(_, entries) =>
      v.Object? && exists all :: EntriesMean(entries, all) && v.fields == FirstOfEachKey(all)
  }

  ghost predicate ItemsMean(items: Items, values: seq<Value>)
    decreases items
  {
    match items
    case OneItem(doc, _) => |values| == 1 && Means(doc, values[0])
    case MoreItems(doc, _, _, more) => values != [] && Means(doc, values[0]) && ItemsMean(more, values[1..])
  }

  ghost predicate EntryMeans(e: Entry, field: Field)
    decreases e
  {
    UnitsMean(e.key, field.key) && Means(e.doc, field.value)
  }

  ghost predicate EntriesMean(entries: Entries, all: seq<Field>)
    decreases entries
  {
    match entries
    case OneEntry(entry, _) => |all| == 1 && EntryMeans(entry, all[0])
    case MoreEntries(entry, _, _, more) => all != [] && EntryMeans(entry, all[0]) && EntriesMean(more, all[1..])
  }

  predicate Occurs(key: string, all: seq<Field>) {
    exists field :: field in all && field.key == key
  }

  /** The fields whose key no earlier field has. */
  function FirstOfEachKey(all: seq<Field>): seq<Field> {
    if all == [] then []
    else
      var n := |all| - 1;
      FirstOfEachKey(all[..n]) + if Occurs(all[n].key, all[..n]) then [] else [all[n]]
  }

  // ---------------------------------------------------------------------------------------------
  // The parser reads documents
  // ---------------------------------------------------------------------------------------------

  /** What the parser makes of a document. */
  function RawOfDoc(d: Doc): Raw
    requires DocOk(d)
    decreases d
  {
    match d
    case DNull => RNull
    case DTrue => RTrue
    case DFalse => RFalse
    case DNumber(n) => RNumber(NumeralText(n))
    case DString(units) => RString(UnitsText(units))
    case DEmptyList(_) => RList([])
    case DList(_, items) => RList(RawOfItems(items))
    case DEmptyObject(_) => RObject([])
    case DObject(_, entries) => RObject(RawOfEntries(entries))
  }

  function RawOfItems(items: Items): seq<Raw>
    requires ItemsOk(items)
    decreases items
  {
    match items
    case OneItem(doc, _) => [RawOfDoc(doc)]
    case MoreItems(doc, _, _, more) => [RawOfDoc(doc)] + RawOfItems(more)
  }

  function RawOfEntry(e: Entry): RawField
    requires EntryOk(e)
    decreases e
  {
    UnitsAreWellEscaped(e.key);
    RawField(Unescape(UnitsText(e.key)), RawOfDoc(e.doc))
  }

  function RawOfEntries(entries: Entries): seq<RawField>
    requires EntriesOk(entries)
    decreases entries
  {
    match entries
    case OneEntry(entry, _) => [RawOfEntry(entry)]
    case MoreEntries(entry, _, _, more) => [RawOfEntry(entry)] + RawOfEntries(more)
  }

  lemma {:induction false} BlankIsSkipped(space: string, s: string)
    requires Blank(space) && (s == "" || !IsSpace(s[0]))
    ensures SkipSpace(space + s) == s
    decreases |space|
  {
    if space == "" {
      assert space + s == s;
    } else {
      assert space[0] in space;
      assert (space + s)[1..] == space[1..] + s;
      BlankIsSkipped(space[1..], s);
    }
  }

  lemma {:induction false} SkippedIsBlank(s: string) returns (space: string)
    ensures Blank(space) && s == space + SkipSpace(s) && (SkipSpace(s) == "" || !IsSpace(SkipSpace(s)[0]))
    decreases |s|
  {
    space := "";
    if s != "" && IsSpace(s[0]) {
      var more := SkippedIsBlank(s[1..]);
      space := [s[0]] + more;
      BlankMore(s[0], more);
      assert s == [s[0]] + s[1..];
    }
  }

  lemma BlankMore(c: char, more: string)
    requires IsSpace(c) && Blank(more)
    ensures Blank([c] + more)
  {
    assert c in " \t\r\n";
  }

  // Forwards: the text of a document is parsed as the document.

  lemma Join(a: string, b: string, c: string)
    ensures a + b + c == a + (b + c)
  {
  }

  lemma {:induction false} StringIsParsed(units: seq<Unit>, rest: string)
    requires UnitsOk(units)
    ensures ParseString(StringText(units) + rest) == Some(Parsed(UnitsText(units), rest))
  {
    UnitsAreScanned(units, rest);
    ParseStringText(UnitsText(units) + (['"'] + rest), |UnitsText(units)|);
    QuotedText(['"'], UnitsText(units), rest);
  }

  lemma {:induction false} WordIsParsed(d: Doc, rest: string)
    requires d.DNull? || d.DTrue? || d.DFalse?
    ensures ParseValue(TextOf(d) + rest) == Some(Parsed(RawOfDoc(d), rest))
  {
    var s := TextOf(d) + rest;
    assert s[|TextOf(d)|..] == rest;
  }

  lemma NumeralStarts(n: Numeral)
    requires NumeralOk(n)
    ensures var s := NumeralText(n); s != "" && (IsDigit(s[0]) || s[0] == '-')
  {
    DecimalIsDigitString(n.whole);
    DigitsAreDigits(n.whole);
    assert IsDigit(DigitString(n.whole)[0]);
    assert !n.minus ==> NumeralText(n)[0] == DigitString(n.whole)[0];
  }

  lemma {:induction false} NumberIsParsed(n: Numeral, rest: string)
    requires NumeralOk(n) && Ends(rest)
    ensures ParseValue(NumeralText(n) + rest) == Some(Parsed(RNumber(NumeralText(n)), rest))
  {
    var text := NumeralText(n);
    NumeralStarts(n);
    NumeralIsScanned(n, rest);
    assert (text + rest)[..|text|] == text && (text + rest)[|text|..] == rest;
  }

  /** A document starts with no space and no closing bracket. */
  lemma DocStarts(d: Doc, rest: string)
    requires DocOk(d)
    ensures var s := TextOf(d) + rest; s != "" && !IsSpace(s[0]) && s[0] != ']' && s[0] != '}'
  {
    if d.DNumber? {
      NumeralStarts(d.numeral);
    }
  }

  lemma {:induction false} Closed(space: string, c: char, rest: string)
    requires Blank(space) && (c == ',' || c == ':' || c == ']' || c == '}')
    ensures SkipSpace(space + ([c] + rest)) == [c] + rest && ([c] + rest)[1..] == rest
    ensures Ends(space + ([c] + rest))
  {
    BlankIsSkipped(space, [c] + rest);
    if space != "" {
      assert space[0] in space;
    }
  }

  lemma {:induction false} EmptyIsParsed(c: char, space: string, rest: string)
    requires (c == '[' || c == '{') && Blank(space)
    ensures ParseValue([c] + space + [if c == '[' then ']' else '}'] + rest)
         == Some(Parsed(if c == '[' then RList([]) else RObject([]), rest))
  {
    var e := if c == '[' then ']' else '}';
    var s := [c] + space + [e] + rest;
    Closed(space, e, rest);
    assert s[1..] == space + ([e] + rest);
  }

  lemma {:induction false} DocIsParsed(d: Doc, rest: string)
    requires DocOk(d) && (d.DNumber? ==> Ends(rest))
    ensures ParseValue(TextOf(d) + rest) == Some(Parsed(RawOfDoc(d), rest))
    decreases d, 1
  {
    match d
    case DNumber(n) => NumberIsParsed(n, rest);
    case DString(units) => StringIsParsed(units, rest);
    case DEmptyList(space) => EmptyIsParsed('[', space, rest);
    case DList(space, items) => ListIsParsed(space, items, rest);
    case DEmptyObject(space) => EmptyIsParsed('{', space, rest);
    case DObject(space, entries) => ObjectIsParsed(space, entries, rest);
    case _ => WordIsParsed(d, rest);
  }

  lemma BodyText(open: string, space: string, body: string, rest: string)
    ensures open + space + body + rest == open + (space + (body + rest))
  {
  }

  lemma {:induction false} ListIsParsed(space: string, items: Items, rest: string)
    requires Blank(space) && ItemsOk(items)
    ensures ParseValue(['['] + space + ItemsText(items) + rest) == Some(Parsed(RList(RawOfItems(items)), rest))
    decreases items, 2
  {
    ItemsAreParsed(items, rest);
    BodyText(['['], space, ItemsText(items), rest);
    ListBody(space, ItemsText(items) + rest, ['['] + space + ItemsText(items) + rest, RawOfItems(items), rest);
  }

  lemma {:induction false} ListBody(space: string, body: string, s: string, raws: seq<Raw>, rest: string)
    requires Blank(space) && s == ['['] + (space + body) && ParseItems(body) == Some(Parsed(raws, rest))
    requires body != "" && !IsSpace(body[0]) && body[0] != ']'
    ensures ParseValue(s) == Some(Parsed(RList(raws), rest))
  {
    BlankIsSkipped(space, body);
    assert s[1..] == space + body;
  }

  lemma {:induction false} ObjectIsParsed(space: string, entries: Entries, rest: string)
    requires Blank(space) && EntriesOk(entries)
    ensures ParseValue(['{'] + space + EntriesText(entries) + rest)
         == Some(Parsed(RObject(RawOfEntries(entries)), rest))
    decreases entries, 2
  {
    EntriesAreParsed(entries, rest);
    BodyText(['{'], space, EntriesText(entries), rest);
    ObjectBody(space, EntriesText(entries) + rest, ['{'] + space + EntriesText(entries) + rest,
               RawOfEntries(entries), rest);
  }

  lemma {:induction false} ObjectBody(space: string, body: string, s: string, raws: seq<RawField>, rest: string)
    requires Blank(space) && s == ['{'] + (space + body) && ParseFields(body) == Some(Parsed(raws, rest))
    requires body != "" && body[0] == '"'
    ensures ParseValue(s) == Some(Parsed(RObject(raws), rest))
  {
    BlankIsSkipped(space, body);
    assert s[1..] == space + body;
  }

  lemma {:induction false} LastItemParsed(s: string, first: Raw, after: string, rest: string)
    requires Blank(after) && ParseValue(s) == Some(Parsed(first, after + ([']'] + rest)))
    ensures ParseItems(s) == Some(Parsed([first], rest))
  {
    Closed(after, ']', rest);
    LastItem(first, rest);
  }

  lemma {:induction false} NextItemParsed(s: string, first: Raw, after: string, before: string, next: string,
                                          raws: seq<Raw>, rest: string)
    requires Blank(after) && Blank(before) && ParseValue(s) == Some(Parsed(first, after + ([','] + (before + next))))
    requires next != "" && !IsSpace(next[0]) && ParseItems(next) == Some(Parsed(raws, rest))
    ensures ParseItems(s) == Some(Parsed([first] + raws, rest))
  {
    Closed(after, ',', before + next);
    BlankIsSkipped(before, next);
  }

  lemma {:induction false} ItemsAreParsed(items: Items, rest: string)
    requires ItemsOk(items)
    ensures var s := ItemsText(items) + rest;
      ParseItems(s) == Some(Parsed(RawOfItems(items), rest)) && s != "" && !IsSpace(s[0]) && s[0] != ']'
    decreases items, 1
  {
    match items
    case OneItem(doc, after) =>
      var tail := after + ([']'] + rest);
      Closed(after, ']', rest);
      DocIsParsed(doc, tail);
      DocStarts(doc, tail);
      LastItemText(TextOf(doc), after, [']'], rest);
      LastItemParsed(TextOf(doc) + tail, RawOfDoc(doc), after, rest);
    case MoreItems(doc, after, before, more) =>
      var next := ItemsText(more) + rest;
      var tail := after + ([','] + (before + next));
      ItemsAreParsed(more, rest);
      Closed(after, ',', before + next);
      DocIsParsed(doc, tail);
      DocStarts(doc, tail);
      NextItemText(TextOf(doc), after, [','], before, ItemsText(more), rest);
      NextItemParsed(TextOf(doc) + tail, RawOfDoc(doc), after, before, next, RawOfItems(more), rest);
  }

  lemma LastItemText(a: string, b: string, c: string, rest: string)
    ensures a + (b + c) + rest == a + (b + (c + rest))
  {
  }

  lemma NextItemText(a: string, b: string, c: string, d: string, e: string, rest: string)
    ensures a + (b + (c + (d + e))) + rest == a + (b + (c + (d + (e + rest))))
  {
  }

  lemma {:induction false} KeyIsParsed(e: Entry, value: string)
    requires EntryOk(e) && value != "" && !IsSpace(value[0])
    ensures ParseKey(StringText(e.key) + (e.afterKey + ([':'] + (e.afterColon + value))))
         == Some(Parsed(RawOfEntry(e).key, value))
  {
    var colon := [':'] + (e.afterColon + value);
    StringIsParsed(e.key, e.afterKey + colon);
    Closed(e.afterKey, ':', e.afterColon + value);
    BlankIsSkipped(e.afterColon, value);
    UnitsAreWellEscaped(e.key);
  }

  lemma {:induction false} EntryIsParsed(e: Entry, rest: string)
    requires EntryOk(e) && (e.doc.DNumber? ==> Ends(rest))
    ensures ParseField(EntryText(e) + rest) == Some(Parsed(RawOfEntry(e), rest))
    ensures EntryText(e) + rest != "" && (EntryText(e) + rest)[0] == '"'
    decreases e
  {
    DocIsParsed(e.doc, rest);
    DocStarts(e.doc, rest);
    KeyIsParsed(e, TextOf(e.doc) + rest);
    NextItemText(StringText(e.key), e.afterKey, [':'], e.afterColon, TextOf(e.doc), rest);
  }

  lemma {:induction false} LastEntryParsed(s: string, first: RawField, after: string, rest: string)
    requires Blank(after) && ParseField(s) == Some(Parsed(first, after + (['}'] + rest)))
    ensures ParseFields(s) == Some(Parsed([first], rest))
  {
    Closed(after, '}', rest);
    LastField(first, rest);
  }

  lemma {:induction false} NextEntryParsed(s: string, first: RawField, after: string, before: string, next: string,
                                           raws: seq<RawField>, rest: string)
    requires Blank(after) && Blank(before) && ParseField(s) == Some(Parsed(first, after + ([','] + (before + next))))
    requires next != "" && next[0] == '"' && ParseFields(next) == Some(Parsed(raws, rest))
    ensures ParseFields(s) == Some(Parsed([first] + raws, rest))
  {
    Closed(after, ',', before + next);
    BlankIsSkipped(before, next);
  }

  lemma {:induction false} EntriesAreParsed(entries: Entries, rest: string)
    requires EntriesOk(entries)
    ensures var s := EntriesText(entries) + rest;
      ParseFields(s) == Some(Parsed(RawOfEntries(entries), rest)) && s != "" && s[0] == '"'
    decreases entries, 1
  {
    match entries
    case OneEntry(entry, after) =>
      var tail := after + (['}'] + rest);
      Closed(after, '}', rest);
      EntryIsParsed(entry, tail);
      LastItemText(EntryText(entry), after, ['}'], rest);
      LastEntryParsed(EntryText(entry) + tail, RawOfEntry(entry), after, rest);
    case MoreEntries(entry, after, before, more) =>
      var next := EntriesText(more) + rest;
      var tail := after + ([','] + (before + next));
      EntriesAreParsed(more, rest);
      Closed(after, ',', before + next);
      EntryIsParsed(entry, tail);
      NextItemText(EntryText(entry), after, [','], before, EntriesText(more), rest);
      NextEntryParsed(EntryText(entry) + tail, RawOfEntry(entry), after, before, next, RawOfEntries(more), rest);
  }

  // Backwards: what is parsed is the text of a document.

  lemma {:induction false} StringIsDoc(s: string) returns (units: seq<Unit>)
    requires ParseString(s).Some?
    ensures var p := ParseString(s).value;
      UnitsOk(units) && p.value == UnitsText(units) && s == StringText(units) + p.rest
  {
    units := ScannedIsUnits(s[1..]);
    QuotesAround(s, ScanString(s[1..]).value);
  }

  lemma QuotesAround(s: string, n: nat)
    requires Starts(s, '"') && n + 1 < |s| && s[1..][n] == '"'
    ensures s == ['"'] + s[1..][..n] + ['"'] + s[1..][n + 1..]
  {
  }

  lemma {:induction false} WordIsDoc(s: string) returns (d: Doc)
    requires s != "" && (s[0] == 't' || s[0] == 'f' || s[0] == 'n') && ParseWord(s).Some?
    ensures DocOk(d) && RawOfDoc(d) == ParseWord(s).value.value && s == TextOf(d) + ParseWord(s).value.rest
  {
    d := if s[0] == 't' then DTrue else if s[0] == 'f' then DFalse else DNull;
    var k := |TextOf(d)|;
    assert s[..k] == TextOf(d) && s == s[..k] + s[k..];
  }

  /** Reading a character that must come next, after spaces. */
  lemma {:induction false} SpacesBefore(s: string, c: char) returns (space: string)
    requires Starts(SkipSpace(s), c)
    ensures Blank(space) && s == space + ([c] + SkipSpace(s)[1..])
  {
    space := SkippedIsBlank(s);
    assert SkipSpace(s) == [c] + SkipSpace(s)[1..];
  }

  lemma {:induction false} ParsedIsDoc(s: string) returns (d: Doc)
    requires ParseValue(s).Some?
    ensures DocOk(d) && RawOfDoc(d) == ParseValue(s).value.value && s == TextOf(d) + ParseValue(s).value.rest
    ensures d.DNumber? ==> Ends(ParseValue(s).value.rest)
    decreases |s|, 4
  {
    if s[0] == '[' {
      d := ParsedListIsDoc(s);
    } else if s[0] == '{' {
      d := ParsedObjectIsDoc(s);
    } else if s[0] == '"' {
      var units := StringIsDoc(s);
      d := DString(units);
    } else if s[0] == 't' || s[0] == 'f' || s[0] == 'n' {
      d := WordIsDoc(s);
    } else {
      var num := ScannedIsNumeral(s);
      d := DNumber(num);
      var n := ScanNumber(s, Minus).value;
      assert s == s[..n] + s[n..];
    }
  }

  lemma FirstAndRest(t: string, c: char)
    requires Starts(t, c)
    ensures t == [c] + t[1..]
  {
  }

  lemma BracketText(s: string, c: char, space: string, t: string, body: string, rest: string)
    requires s != "" && s[0] == c && s[1..] == space + t && t == body + rest
    ensures s == [c] + space + body + rest
  {
    assert s == [c] + s[1..];
  }

  lemma {:induction false} ParsedListIsDoc(s: string) returns (d: Doc)
    requires s != "" && s[0] == '[' && ParseValue(s).Some?
    ensures !d.DNumber? && DocOk(d) && RawOfDoc(d) == ParseValue(s).value.value
    ensures s == TextOf(d) + ParseValue(s).value.rest
    decreases |s|, 3
  {
    var space := SkippedIsBlank(s[1..]);
    var t := SkipSpace(s[1..]);
    if Starts(t, ']') {
      d := DEmptyList(space);
      FirstAndRest(t, ']');
      BracketText(s, '[', space, t, [']'], t[1..]);
    } else {
      var items := ParsedItemsAreDoc(t);
      d := DList(space, items);
      BracketText(s, '[', space, t, ItemsText(items), ParseItems(t).value.rest);
    }
  }

  lemma {:induction false} ParsedObjectIsDoc(s: string) returns (d: Doc)
    requires s != "" && s[0] == '{' && ParseValue(s).Some?
    ensures !d.DNumber? && DocOk(d) && RawOfDoc(d) == ParseValue(s).value.value
    ensures s == TextOf(d) + ParseValue(s).value.rest
    decreases |s|, 3
  {
    var space := SkippedIsBlank(s[1..]);
    var t := SkipSpace(s[1..]);
    if Starts(t, '}') {
      d := DEmptyObject(space);
      FirstAndRest(t, '}');
      BracketText(s, '{', space, t, ['}'], t[1..]);
    } else {
      var entries := ParsedEntriesAreDoc(t);
      d := DObject(space, entries);
      BracketText(s, '{', space, t, EntriesText(entries), ParseFields(t).value.rest);
    }
  }

  lemma {:induction false} ParsedItemsAreDoc(s: string) returns (items: Items)
    requires ParseItems(s).Some?
    ensures ItemsOk(items) && RawOfItems(items) == ParseItems(s).value.value
    ensures s == ItemsText(items) + ParseItems(s).value.rest
    decreases |s|, 5
  {
    var doc := ParsedIsDoc(s);
    var first := ParseValue(s).value;
    var t := SkipSpace(first.rest);
    if Starts(t, ']') {
      var after := SpacesBefore(first.rest, ']');
      items := OneItem(doc, after);
      LastItemText(TextOf(doc), after, [']'], t[1..]);
    } else {
      var after := SpacesBefore(first.rest, ',');
      var before := SkippedIsBlank(t[1..]);
      var next := SkipSpace(t[1..]);
      var more := ParsedItemsAreDoc(next);
      items := MoreItems(doc, after, before, more);
      NextItemText(TextOf(doc), after, [','], before, ItemsText(more), ParseItems(next).value.rest);
    }
  }

  lemma {:induction false} ParsedEntryIsDoc(s: string) returns (e: Entry)
    requires ParseField(s).Some?
    ensures EntryOk(e) && RawOfEntry(e) == ParseField(s).value.value && s == EntryText(e) + ParseField(s).value.rest
    decreases |s|, 4
  {
    var key := StringIsDoc(s);
    var t := ParseString(s).value.rest;
    var afterKey := SpacesBefore(t, ':');
    var afterColon := SkippedIsBlank(SkipSpace(t)[1..]);
    var value := SkipSpace(SkipSpace(t)[1..]);
    var doc := ParsedIsDoc(value);
    e := Entry(key, afterKey, afterColon, doc);
    NextItemText(StringText(key), afterKey, [':'], afterColon, TextOf(doc), ParseValue(value).value.rest);
  }

  lemma {:induction false} ParsedEntriesAreDoc(s: string) returns (entries: Entries)
    requires ParseFields(s).Some?
    ensures EntriesOk(entries) && RawOfEntries(entries) == ParseFields(s).value.value
    ensures s == EntriesText(entries) + ParseFields(s).value.rest
    decreases |s|, 5
  {
    var entry := ParsedEntryIsDoc(s);
    var first := ParseField(s).value;
    var t := SkipSpace(first.rest);
    if Starts(t, '}') {
      var after := SpacesBefore(first.rest, '}');
      entries := OneEntry(entry, after);
      LastItemText(EntryText(entry), after, ['}'], t[1..]);
    } else {
      var after := SpacesBefore(first.rest, ',');
      var before := SkippedIsBlank(t[1..]);
      var next := SkipSpace(t[1..]);
      var more := ParsedEntriesAreDoc(next);
      entries := MoreEntries(entry, after, before, more);
      NextItemText(EntryText(entry), after, [','], before, EntriesText(more), ParseFields(next).value.rest);
    }
  }

  // ---------------------------------------------------------------------------------------------
  // The value of a document
  // ---------------------------------------------------------------------------------------------

  lemma {:induction false} ValuesFirst(raw: Raw, more: seq<Raw>)
    ensures ValuesOf([raw] + more) == [ValueOf(raw)] + ValuesOf(more)
    decreases |more|
  {
    var all := [raw] + more;
    if more == [] {
      assert all == [raw] && all[..0] == [];
    } else {
      var n := |more| - 1;
      assert all[..|all| - 1] == [raw] + more[..n] && all[|all| - 1] == more[n];
      ValuesFirst(raw, more[..n]);
    }
  }

  function FieldOf(raw: RawField): Field {
    Field(raw.key, ValueOf(raw.value))
  }

  function PlainFields(raws: seq<RawField>): (all: seq<Field>)
    ensures |all| == |raws| && forall i :: 0 <= i < |raws| ==> all[i] == FieldOf(raws[i])
  {
    seq(|raws|, i requires 0 <= i < |raws| => FieldOf(raws[i]))
  }

  lemma HasKeyIsOccurs(fields: seq<Field>, key: string)
    ensures HasKey(fields, key) <==> Occurs(key, fields)
  {
    if field :| field in fields && field.key == key {
      var i :| 0 <= i < |fields| && fields[i] == field;
    }
  }

  lemma OccursInMore(fields: seq<Field>, last: Field, key: string)
    ensures Occurs(key, fields + [last]) <==> Occurs(key, fields) || last.key == key
  {
    var more := fields + [last];
    if field :| field in fields && field.key == key {
      assert field in more;
    }
    assert last in more;
  }

  /** Leaving out the later fields of a key leaves out no key. */
  lemma {:induction false} KeysStay(all: seq<Field>, key: string)
    ensures Occurs(key, FirstOfEachKey(all)) <==> Occurs(key, all)
  {
    if all != [] {
      var n := |all| - 1;
      KeysStay(all[..n], key);
      assert all == all[..n] + [all[n]];
      OccursInMore(all[..n], all[n], key);
      OccursInMore(FirstOfEachKey(all[..n]), all[n], key);
      assert FirstOfEachKey(all[..n]) + [] == FirstOfEachKey(all[..n]);
    }
  }

  lemma {:induction false} FieldsAreFirst(raws: seq<RawField>)
    ensures FieldsOf(raws) == FirstOfEachKey(PlainFields(raws))
  {
    if raws != [] {
      var n := |raws| - 1;
      var all := PlainFields(raws);
      FieldsAreFirst(raws[..n]);
      assert all[..n] == PlainFields(raws[..n]);
      KeysStay(all[..n], all[n].key);
      HasKeyIsOccurs(FirstOfEachKey(all[..n]), all[n].key);
      assert FirstOfEachKey(all[..n]) + [] == FirstOfEachKey(all[..n]);
    }
  }

  lemma {:induction false} DocMeans(d: Doc)
    requires DocOk(d)
    ensures Means(d, ValueOf(RawOfDoc(d)))
    decreases d, 1
  {
    match d
    case DNumber(n) => NumeralIsValue(n);
    case DString(units) => UnitsAreWellEscaped(units);
    case DList(_, items) => ItemsMeanValues(items);
    case DObject(_, entries) =>
      EntriesMeanFields(entries);
      FieldsAreFirst(RawOfEntries(entries));
    case _ =>
  }

  lemma {:induction false} ItemsMeanValues(items: Items)
    requires ItemsOk(items)
    ensures ItemsMean(items, ValuesOf(RawOfItems(items)))
    decreases items
  {
    match items
    case OneItem(doc, _) =>
      DocMeans(doc);
      ValuesFirst(RawOfDoc(doc), []);
      assert [RawOfDoc(doc)] + [] == [RawOfDoc(doc)];
    case MoreItems(doc, _, _, more) =>
      DocMeans(doc);
      ItemsMeanValues(more);
      ValuesFirst(RawOfDoc(doc), RawOfItems(more));
  }

  lemma {:induction false} EntryMeansField(e: Entry)
    requires EntryOk(e)
    ensures EntryMeans(e, FieldOf(RawOfEntry(e)))
    decreases e
  {
    UnitsAreWellEscaped(e.key);
    DocMeans(e.doc);
  }

  lemma {:induction false} EntriesMeanFields(entries: Entries)
    requires EntriesOk(entries)
    ensures EntriesMean(entries, PlainFields(RawOfEntries(entries)))
    decreases entries
  {
    match entries
    case OneEntry(entry, _) => EntryMeansField(entry);
    case MoreEntries(entry, _, _, more) =>
      EntryMeansField(entry);
      EntriesMeanFields(more);
      assert PlainFields(RawOfEntries(entries))[1..] == PlainFields(RawOfEntries(more));
  }

  // ---------------------------------------------------------------------------------------------
  // Loading
  // ---------------------------------------------------------------------------------------------

  /** The text up to its first NUL is this document between spaces. */
  predicate Spelled(text: string, before: string, d: Doc, after: string) {
    && Blank(before) && Blank(after) && DocOk(d)
    && var s := before + (TextOf(d) + after); s <= text && (s == text || text[|s|] == '\0')
  }

  lemma {:induction false} SpelledIsParsed(text: string, before: string, d: Doc, after: string)
    requires Spelled(text, before, d, after)
    ensures Parse(text + ['\0']) == Some(RawOfDoc(d))
  {
    var s := before + (TextOf(d) + after);
    var end := (text + ['\0'])[|s|..];
    assert text + ['\0'] == s + end && end != "" && end[0] == '\0';
    LastItemText(before, TextOf(d), after, end);
    BlankIsSkipped(after, end);
    assert Ends(after + end) by {
      if after != "" { assert after[0] in after; }
    }
    DocIsParsed(d, after + end);
    DocStarts(d, after + end);
    BlankIsSkipped(before, TextOf(d) + (after + end));
  }

  lemma {:induction false} ParsedIsSpelled(text: string) returns (before: string, d: Doc, after: string)
    requires Parse(text + ['\0']).Some?
    ensures Spelled(text, before, d, after)
  {
    var s := text + ['\0'];
    before := SkippedIsBlank(s);
    d := ParsedIsDoc(SkipSpace(s));
    var rest := ParseValue(SkipSpace(s)).value.rest;
    after := SkippedIsBlank(rest);
    var end := SkipSpace(rest);
    LastItemText(before, TextOf(d), after, end);
    LastOfSpelled(before, d, after);
    PrefixBeforeNul(text, before + (TextOf(d) + after), end);
  }

  lemma {:induction false} NumberCharsPass(s: string, state: NumberState)
    requires ScanNumber(s, state).Some?
    ensures forall i :: 0 <= i < ScanNumber(s, state).value ==> IsNumberChar(s[i])
    decreases |s|
  {
    if ScanNumber(s, state).value > 0 {
      ScanStep(s, state);
      NumberCharsPass(s[1..], NextState(state, s[0]));
    }
  }

  /** No document ends with a NUL. */
  lemma {:induction false} DocEnds(d: Doc)
    requires DocOk(d)
    ensures var s := TextOf(d); s != "" && s[|s| - 1] != '\0'
  {
    match d
    case DNumber(n) =>
      NumeralStarts(n);
      NumeralIsScanned(n, "");
      NumberCharsPass(NumeralText(n) + "", Minus);
      assert NumeralText(n) + "" == NumeralText(n);
    case DList(_, items) => ItemsEnd(items);
    case DObject(_, entries) => EntriesEnd(entries);
    case _ =>
  }

  lemma {:induction false} ItemsEnd(items: Items)
    requires ItemsOk(items)
    ensures var s := ItemsText(items); s != "" && s[|s| - 1] == ']'
    decreases items
  {
    if items.MoreItems? {
      ItemsEnd(items.more);
    }
  }

  lemma {:induction false} EntriesEnd(entries: Entries)
    requires EntriesOk(entries)
    ensures var s := EntriesText(entries); s != "" && s[|s| - 1] == '}'
    decreases entries
  {
    if entries.MoreEntries? {
      EntriesEnd(entries.more);
    }
  }

  lemma LastOfSpelled(before: string, d: Doc, after: string)
    requires DocOk(d) && Blank(after)
    ensures var a := before + (TextOf(d) + after); a != "" && a[|a| - 1] != '\0'
  {
    DocEnds(d);
    if after != "" {
      assert after[|after| - 1] in after;
    }
  }

  lemma PrefixBeforeNul(text: string, a: string, end: string)
    requires text + ['\0'] == a + end && (end == "" || end[0] == '\0') && a != "" && a[|a| - 1] != '\0'
    ensures a <= text && (a == text || text[|a|] == '\0')
  {
    var s := text + ['\0'];
    assert s[|text|] == '\0' && s[..|a|] == a && s[|a| - 1] == a[|a| - 1];
    assert |a| <= |text|;
    assert text[..|a|] == a;
  }

  /** Loading accepts exactly the texts of documents, and gives the value that the document stands for. */
  method LoadText(text: string) returns (v: Option<Value>)
    ensures v.Some? <==> exists before, d, after :: Spelled(text, before, d, after)
    ensures forall before, d, after :: Spelled(text, before, d, after) ==> v.Some? && Means(d, v.value)
  {
    v := JsonWriter.Load(text);
    if v.Some? {
      ghost var before, d, after := ParsedIsSpelled(text);
    }
    forall before, d, after | Spelled(text, before, d, after)
      ensures v.Some? && Means(d, v.value)
    {
      SpelledIsParsed(text, before, d, after);
      DocMeans(d);
    }
  }

  /** For example, a string of one code unit is loaded as the bytes that decode to its number. */
  method LoadCodeUnit(n: nat, upper: seq<bool>) returns (bytes: string)
    requires n < 0x10000 && |upper| == 4
    ensures FromUtf8(bytes) == Some(n)
  {
    var text := ['"', '\\', 'u'] + FourDigits(n, upper) + ['"'];
    var v := LoadText(text);
    var unit := CodeUnit(n, upper);
    ghost var d := DString([unit]);
    OneUnitText(unit);
    assert TextOf(d) == text && "" + (text + "") == text;
    assert Spelled(text, "", d, "");
    OneUnitMeans(unit, v.value.s);
    bytes := v.value.s;
  }

  lemma OneUnitText(u: Unit)
    requires UnitOk(u)
    ensures UnitsOk([u]) && UnitsText([u]) == UnitText(u)
  {
    OneMoreUnit(u, []);
    assert [u] + [] == [u] && UnitText(u) + "" == UnitText(u);
  }

  lemma {:induction false} OneUnitMeans(u: Unit, bytes: string)
    requires UnitsMean([u], bytes)
    ensures UnitMeans(u, bytes)
  {
    var k :| 0 < k <= |bytes| && UnitMeans(u, bytes[..k]) && UnitsMean([u][1..], bytes[k..]);
    assert bytes[..k] == bytes;
  }
}
