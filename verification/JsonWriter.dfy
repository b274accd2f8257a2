/** Printing and loading of whole values. */
module JsonWriter {
  import opened Wrappers
  import opened JsonText
  import opened JsonGrammar
  import opened JsonParser

  // ---------------------------------------------------------------------------------------------
  // Printing by appending
  // ---------------------------------------------------------------------------------------------

  lemma {:induction false} EscapeGrows(s: string, c: char)
    ensures Escape(s + [c]) == Escape(s) + EscapeOne(c)
  {
    if s == "" {
      assert (s + [c])[1..] == "";
    } else {
      assert (s + [c])[1..] == s[1..] + [c];
      EscapeGrows(s[1..], c);
    }
  }

  method EscapeTo(str: string, out: string) returns (ret: string)
    ensures ret == out + Escape(str)
  {
    ret := out;
    for i := 0 to |str|
      invariant ret == out + Escape(str[..i])
    {
      assert str[..i + 1] == str[..i] + [str[i]];
      EscapeGrows(str[..i], str[i]);
      ret := ret + EscapeOne(str[i]);
    }
    assert str[..|str|] == str;
  }

  method DumpString(str: string, out: string) returns (ret: string)
    ensures ret == out + Quoted(str)
  {
    ret := EscapeTo(str, out + ['"']);
    ret := ret + ['"'];
  }

  lemma {:induction false} DumpItemsGrow(items: seq<Value>, x: Value)
    requires Printable(x) && forall i :: 0 <= i < |items| ==> Printable(items[i])
    ensures DumpItems(items + [x]) == DumpItems(items) + (if items == [] then [] else [',']) + Dump(x)
  {
    if items == [] {
      assert items + [x] == [x];
    } else {
      assert (items + [x])[1..] == items[1..] + [x];
      DumpItemsGrow(items[1..], x);
      if |items| == 1 {
        assert items[1..] == [];
        assert DumpItems(items + [x]) == Dump(items[0]) + [','] + Dump(x);
      } else {
        Appended(Dump(items[0]) + [','], DumpItems(items[1..]), [','], Dump(x));
      }
    }
  }

  lemma {:induction false} DumpFieldsGrow(fields: seq<Field>, x: Field)
    requires Printable(x.value) && forall i :: 0 <= i < |fields| ==> Printable(fields[i].value)
    ensures DumpFields(fields + [x]) == DumpFields(fields) + (if fields == [] then [] else [',']) + DumpField(x)
  {
    if fields == [] {
      assert fields + [x] == [x];
    } else {
      assert (fields + [x])[1..] == fields[1..] + [x];
      DumpFieldsGrow(fields[1..], x);
      if |fields| == 1 {
        assert fields[1..] == [];
        assert DumpFields(fields + [x]) == DumpField(fields[0]) + [','] + DumpField(x);
      } else {
        Appended(DumpField(fields[0]) + [','], DumpFields(fields[1..]), [','], DumpField(x));
      }
    }
  }

  method DumpInternal(v: Value, out: string) returns (ret: string)
    requires Printable(v)
    ensures ret == out + Dump(v)
    decreases v, 1
  {
    match v
    case Text(s) => ret := DumpString(s, out);
    case List(items) => ret := DumpList(items, out);
    case Object(fields) => ret := DumpObject(fields, out);
    case Null => ret := out + ['n', 'u', 'l', 'l'];
    case Bool(b) => ret := out + if b then ['t', 'r', 'u', 'e'] else ['f', 'a', 'l', 's', 'e'];
    case Integer(n) => ret := out + Decimal(n);
  }

  method DumpList(items: seq<Value>, out: string) returns (ret: string)
    requires Printable(List(items))
    ensures ret == out + Dump(List(items))
    decreases items, 1
  {
    ret := DumpItemsTo(items, out + ['[']);
    ret := ret + [']'];
  }

  method DumpItemsTo(items: seq<Value>, out: string) returns (ret: string)
    requires forall i :: 0 <= i < |items| ==> Printable(items[i])
    ensures ret == out + DumpItems(items)
    decreases items, 0
  {
    ret := out;
    var first := true;
    for i := 0 to |items|
      invariant first == (i == 0) && ret == out + DumpItems(items[..i])
    {
      assert items[..i + 1] == items[..i] + [items[i]];
      DumpItemsGrow(items[..i], items[i]);
      Appended(out, DumpItems(items[..i]), if i == 0 then [] else [','], Dump(items[i]));
      if !first {
        ret := ret + [','];
      }
      first := false;
      ret := DumpInternal(items[i], ret);
    }
    assert items[..|items|] == items;
  }

  method DumpFieldTo(field: Field, out: string) returns (ret: string)
    requires Printable(field.value)
    ensures ret == out + DumpField(field)
    decreases field
  {
    ret := DumpString(field.key, out);
    ret := ret + [':'];
    ret := DumpInternal(field.value, ret);
  }

  method DumpObject(fields: seq<Field>, out: string) returns (ret: string)
    requires Printable(Object(fields))
    ensures ret == out + Dump(Object(fields))
    decreases fields, 1
  {
    ret := DumpFieldsTo(fields, out + ['{']);
    ret := ret + ['}'];
  }

  method DumpFieldsTo(fields: seq<Field>, out: string) returns (ret: string)
    requires forall i :: 0 <= i < |fields| ==> Printable(fields[i].value)
    ensures ret == out + DumpFields(fields)
    decreases fields, 0
  {
    ret := out;
    var first := true;
    for i := 0 to |fields|
      invariant first == (i == 0) && ret == out + DumpFields(fields[..i])
    {
      assert fields[..i + 1] == fields[..i] + [fields[i]];
      DumpFieldsGrow(fields[..i], fields[i]);
      Appended(out, DumpFields(fields[..i]), if i == 0 then [] else [','], DumpField(fields[i]));
      if !first {
        ret := ret + [','];
      }
      first := false;
      ret := DumpFieldTo(fields[i], ret);
    }
    assert fields[..|fields|] == fields;
  }

  lemma Appended(a: string, b: string, c: string, d: string)
    ensures a + (b + c + d) == a + b + c + d && a + b + [] == a + b
  {
  }

  // ---------------------------------------------------------------------------------------------
  // Copying a parsed value out of the buffer
  // ---------------------------------------------------------------------------------------------

  ghost predicate OnlyWithin(before: string, data: array<char>, lo: nat, hi: nat)
    reads data
  {
    |before| == data.Length && forall k :: 0 <= k < data.Length && !(lo <= k < hi) ==> data[k] == before[k]
  }

  method StringValue(data: array<char>, start: nat, end: nat, ghost lo: nat, ghost hi: nat, ghost text: string)
    returns (v: Value)
    requires Shows(data[..], StringV(start, end), lo, hi, RString(text))
    modifies data
    ensures v == ValueOf(RString(text)) && OnlyWithin(old(data[..]), data, lo, hi)
  {
    assert data[start..end] == text;
    var newEnd := UnescapeInPlace(data, start, end);
    v := Text(data[start..newEnd]);
  }

  /** The value of the writer; strings are unescaped in the buffer on the way. */
  method ToValue(data: array<char>, r: Rvalue, ghost lo: nat, ghost hi: nat, ghost raw: Raw) returns (v: Value)
    requires Shows(data[..], r, lo, hi, raw)
    modifies data
    ensures v == ValueOf(raw) && OnlyWithin(old(data[..]), data, lo, hi)
    decreases r, 1
  {
    match r
    case NullV => v := Null;
    case FalseV => v := Bool(false);
    case TrueV => v := Bool(true);
    case NumberV(start, end) =>
      assert data[start..end] == raw.text;
      v := NumberOf(data[start..end]);
    case StringV(start, end) =>
      v := StringValue(data, start, end, lo, hi, raw.text);
    case ListV(items) =>
      ghost var cuts :| ShowsItems(data[..], items, cuts, lo, hi, raw.items);
      var values := ToValues(data, items, cuts, lo, hi, raw.items);
      v := List(values);
    case ObjectV(fields) =>
      ghost var cuts :| ShowsFields(data[..], fields, cuts, lo, hi, raw.fields);
      var values := ToFields(data, fields, cuts, lo, hi, raw.fields);
      v := Object(values);
  }

  /** After one part has been read, the others still show what they did. */
  lemma {:induction false} OtherItemsStay(b: string, c: string, items: seq<Rvalue>, cuts: seq<nat>, lo: nat, hi: nat,
                                          raws: seq<Raw>, i: nat)
    requires |items| == |raws| && Cuts(cuts, |items|, lo, hi) && i < |items| && |b| == |c|
    requires forall j :: i <= j < |items| ==> Shows(b, items[j], cuts[j], cuts[j + 1], raws[j])
    requires forall k :: 0 <= k < |b| && !(cuts[i] <= k < cuts[i + 1]) ==> c[k] == b[k]
    ensures forall j :: i + 1 <= j < |items| ==> Shows(c, items[j], cuts[j], cuts[j + 1], raws[j])
  {
    forall j | i + 1 <= j < |items|
      ensures Shows(c, items[j], cuts[j], cuts[j + 1], raws[j])
    {
      assert cuts[i + 1] <= cuts[j];
      Stays(b, c, items[j], cuts[j], cuts[j + 1], raws[j]);
    }
  }

  lemma {:induction false} OtherFieldsStay(b: string, c: string, fields: seq<KeyedValue>, cuts: seq<nat>, lo: nat,
                                           hi: nat, raws: seq<RawField>, i: nat)
    requires |fields| == |raws| && Cuts(cuts, |fields|, lo, hi) && i < |fields| && |b| == |c|
    requires forall j :: i <= j < |fields| ==> ShowsField(b, fields[j], cuts[j], cuts[j + 1], raws[j])
    requires forall k :: 0 <= k < |b| && !(cuts[i] <= k < cuts[i + 1]) ==> c[k] == b[k]
    ensures forall j :: i + 1 <= j < |fields| ==> ShowsField(c, fields[j], cuts[j], cuts[j + 1], raws[j])
  {
    forall j | i + 1 <= j < |fields|
      ensures ShowsField(c, fields[j], cuts[j], cuts[j + 1], raws[j])
    {
      assert cuts[i + 1] <= cuts[j];
      FieldStays(b, c, fields[j], cuts[j], cuts[j + 1], raws[j]);
    }
  }

  method ToValues(data: array<char>, items: seq<Rvalue>, ghost cuts: seq<nat>, ghost lo: nat, ghost hi: nat,
                  ghost raws: seq<Raw>)
    returns (values: seq<Value>)
    requires ShowsItems(data[..], items, cuts, lo, hi, raws)
    modifies data
    ensures values == ValuesOf(raws) && OnlyWithin(old(data[..]), data, lo, hi)
    decreases items, 0
  {
    values := [];
    for i := 0 to |items|
      invariant values == ValuesOf(raws[..i]) && OnlyWithin(old(data[..]), data, lo, hi)
      invariant forall j :: i <= j < |items| ==> Shows(data[..], items[j], cuts[j], cuts[j + 1], raws[j])
    {
      ghost var before := data[..];
      var v := ToValue(data, items[i], cuts[i], cuts[i + 1], raws[i]);
      OtherItemsStay(before, data[..], items, cuts, lo, hi, raws, i);
      assert raws[..i + 1][..i] == raws[..i];
      values := values + [v];
    }
    assert raws[..|items|] == raws;
  }

  method ToField(data: array<char>, field: KeyedValue, ghost lo: nat, ghost hi: nat, ghost raw: RawField)
    returns (f: Field)
    requires ShowsField(data[..], field, lo, hi, raw)
    modifies data
    ensures f == Field(raw.key, ValueOf(raw.value)) && OnlyWithin(old(data[..]), data, lo, hi)
    decreases field
  {
    var key := data[field.keyStart..field.keyEnd];
    assert key == raw.key;
    var v := ToValue(data, field.value, field.keyEnd, hi, raw.value);
    f := Field(key, v);
  }

  /** `emplace`: a key that is there already keeps its value. */
  method ToFields(data: array<char>, fields: seq<KeyedValue>, ghost cuts: seq<nat>, ghost lo: nat, ghost hi: nat,
                  ghost raws: seq<RawField>)
    returns (values: seq<Field>)
    requires ShowsFields(data[..], fields, cuts, lo, hi, raws)
    modifies data
    ensures values == FieldsOf(raws) && OnlyWithin(old(data[..]), data, lo, hi)
    decreases fields, 0
  {
    values := [];
    for i := 0 to |fields|
      invariant values == FieldsOf(raws[..i]) && OnlyWithin(old(data[..]), data, lo, hi)
      invariant forall j :: i <= j < |fields| ==> ShowsField(data[..], fields[j], cuts[j], cuts[j + 1], raws[j])
    {
      ghost var before := data[..];
      var f := ToField(data, fields[i], cuts[i], cuts[i + 1], raws[i]);
      OtherFieldsStay(before, data[..], fields, cuts, lo, hi, raws, i);
      assert raws[..i + 1][..i] == raws[..i];
      values := Emplace(values, f);
    }
    assert raws[..|fields|] == raws;
  }

  // ---------------------------------------------------------------------------------------------
  // Loading
  // ---------------------------------------------------------------------------------------------

  method CopyText(text: string) returns (data: array<char>)
    ensures fresh(data) && data[..] == text + [NO]
  {
    data := new char[|text| + 1](_ => NO);
    for i := 0 to |text|
      invariant data[|text|] == NO && forall k :: 0 <= k < i ==> data[k] == text[k]
    {
      data[i] := text[i];
    }
  }

  /** Parses a copy of the text and copies the value out of it. */
  method Load(text: string) returns (v: Option<Value>)
    ensures v == match JsonGrammar.Parse(text + [NO])
                 case None => None
                 case Some(raw) => Some(ValueOf(raw))
  {
    var data := CopyText(text);
    var parser := new Parser(data);
    var r := parser.Parse();
    ghost var raw := JsonGrammar.Parse(text + [NO]);
    if r.ErrorV? {
      return None;
    }
    var value := ToValue(data, r, 0, data.Length, raw.value);
    v := Some(value);
  }

  /** Printing a value and loading the text gives the value back. */
  method Reload(v: Value) returns (w: Option<Value>)
    requires Printable(v)
    ensures w == Some(v)
  {
    var text := DumpInternal(v, "");
    assert text == Dump(v);
    w := Load(text);
    RoundTrip(v, [NO]);
  }
}
