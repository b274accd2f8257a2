/** The messages of the replication links: a length in native byte order, then the bytes. */
module RelayMessages {
  import opened Wrappers
  import opened Wildcards
  import opened JsonText
  import opened JsonGrammar

  /** `sizeof(size_t)`. */
  const OFFSET: nat := 8

  function Power256(k: nat): nat { if k == 0 then 1 else 256 * Power256(k - 1) }

  /** The `k` low bytes of a number, lowest first. */
  function SizeBytes(n: nat, k: nat): (s: string)
    ensures |s| == k
  {
    if k == 0 then "" else [(n % 256) as char] + SizeBytes(n / 256, k - 1)
  }

  function SizeOf(s: string): nat {
    if s == "" then 0 else s[0] as nat + 256 * SizeOf(s[1..])
  }

  lemma {:induction false} SizeRoundTrip(n: nat, k: nat)
    requires n < Power256(k)
    ensures SizeOf(SizeBytes(n, k)) == n
  {
    if k > 0 {
      assert n / 256 < Power256(k - 1);
      SizeRoundTrip(n / 256, k - 1);
      assert SizeBytes(n, k)[1..] == SizeBytes(n / 256, k - 1);
    }
  }

  /** The eight bytes of a size, the lowest first. */
  function LittleEndian(n: nat): (s: string)
    ensures |s| == 8
  {
    [(n % 256) as char, (n / 0x100 % 256) as char, (n / 0x1_0000 % 256) as char, (n / 0x100_0000 % 256) as char,
     (n / 0x1_0000_0000 % 256) as char, (n / 0x100_0000_0000 % 256) as char,
     (n / 0x1_0000_0000_0000 % 256) as char, (n / 0x100_0000_0000_0000 % 256) as char]
  }

  lemma {:induction false} NextByte(n: nat, k: nat, bytes: string)
    requires k > 0 && bytes == SizeBytes(n, k)
    ensures bytes[0] == (n % 256) as char && bytes[1..] == SizeBytes(n / 256, k - 1)
  {
  }

  lemma NextQuotients(n: nat)
    ensures n / 0x100 / 256 == n / 0x1_0000 && n / 0x1_0000 / 256 == n / 0x100_0000
    ensures n / 0x100_0000 / 256 == n / 0x1_0000_0000
  {
  }

  lemma {:induction false} FourBytes(n: nat, k: nat, bytes: string)
    requires k >= 4 && bytes == SizeBytes(n, k)
    ensures bytes[0] == (n % 256) as char && bytes[1] == (n / 0x100 % 256) as char
    ensures bytes[2] == (n / 0x1_0000 % 256) as char && bytes[3] == (n / 0x100_0000 % 256) as char
    ensures bytes[4..] == SizeBytes(n / 0x1_0000_0000, k - 4)
  {
    NextQuotients(n);
    NextByte(n, k, bytes);
    NextByte(n / 0x100, k - 1, bytes[1..]);
    NextByte(n / 0x1_0000, k - 2, bytes[1..][1..]);
    NextByte(n / 0x100_0000, k - 3, bytes[1..][1..][1..]);
    assert bytes[4..] == bytes[1..][1..][1..][1..];
  }

  lemma UpperQuotients(n: nat)
    ensures var m := n / 0x1_0000_0000;
      && m / 0x100 == n / 0x100_0000_0000 && m / 0x1_0000 == n / 0x1_0000_0000_0000
      && m / 0x100_0000 == n / 0x100_0000_0000_0000
  {
  }

  lemma {:induction false} SizeBytesAre(n: nat)
    ensures SizeBytes(n, 8) == LittleEndian(n)
  {
    var bytes := SizeBytes(n, 8);
    FourBytes(n, 8, bytes);
    FourBytes(n / 0x1_0000_0000, 4, bytes[4..]);
    UpperQuotients(n);
  }

  function Encoded(data: string): (m: string)
    ensures |m| == OFFSET + |data|
  {
    SizeBytes(|data|, OFFSET) + data
  }

  /** Whether a received message holds as many bytes as it says. */
  predicate IsMessage(m: string) {
    |m| >= OFFSET && OFFSET + SizeOf(m[..OFFSET]) <= |m|
  }

  function Decoded(m: string): string
    requires IsMessage(m)
  {
    m[OFFSET..OFFSET + SizeOf(m[..OFFSET])]
  }

  /** Decoding a message gives its bytes back, and encoding them again the same message. */
  lemma RelayRoundTrip(data: string)
    requires |data| < Power256(OFFSET)
    ensures IsMessage(Encoded(data)) && Decoded(Encoded(data)) == data
  {
    SizeRoundTrip(|data|, OFFSET);
    assert Encoded(data)[..OFFSET] == SizeBytes(|data|, OFFSET);
  }

  // ---------------------------------------------------------------------------------------------
  // Message buffers
  // ---------------------------------------------------------------------------------------------

  method MemCpy(target: array<char>, at: nat, source: string)
    requires at + |source| <= target.Length
    modifies target
    ensures target[at..at + |source|] == source
    ensures forall k :: 0 <= k < target.Length && !(at <= k < at + |source|) ==> target[k] == old(target[k])
  {
    for i := 0 to |source|
      invariant forall k :: 0 <= k < i ==> target[at + k] == source[k]
      invariant forall k :: 0 <= k < target.Length && !(at <= k < at + i) ==> target[k] == old(target[k])
    {
      target[at + i] := source[i];
    }
  }

  /** A message whose buffer is replaced whenever it is filled. */
  class RelayMsg {
    var sz: nat
    var buffer: array<char>

    ghost predicate Valid()
      reads this
    {
      buffer.Length == sz
    }

    ghost function Data(): string
      reads this, buffer
    {
      buffer[..]
    }

    constructor ()
      ensures Valid() && fresh(buffer) && Data() == ""
    {
      sz := 0;
      buffer := new char[0];
    }

    method Encode(msg: string)
      modifies this
      ensures Valid() && fresh(buffer) && Data() == Encoded(msg) == LittleEndian(|msg|) + msg
    {
      SizeBytesAre(|msg|);
      sz := OFFSET + |msg|;
      buffer := new char[sz];
      MemCpy(buffer, 0, SizeBytes(|msg|, OFFSET));
      ghost var head := buffer[..OFFSET];
      MemCpy(buffer, OFFSET, msg);
      assert buffer[..OFFSET] == head && buffer[..] == buffer[..OFFSET] + buffer[OFFSET..];
    }

    method Decode(m: string)
      requires IsMessage(m)
      modifies this
      ensures Valid() && fresh(buffer) && Data() == Decoded(m)
    {
      sz := SizeOf(m[..OFFSET]);
      buffer := new char[sz];
      MemCpy(buffer, 0, m[OFFSET..OFFSET + sz]);
      assert buffer[..] == buffer[0..sz];
    }
  }

  /** The forwarding of one message: unpack it and pack its bytes again. */
  method Forward(m: string) returns (out: string)
    requires IsMessage(m)
    ensures out == Encoded(Decoded(m))
  {
    var req := new RelayMsg();
    req.Decode(m);
    var send := new RelayMsg();
    send.Encode(req.buffer[..]);
    out := send.buffer[..];
  }

  // ---------------------------------------------------------------------------------------------
  // Requests
  // ---------------------------------------------------------------------------------------------

  datatype Op = Put(key: string, value: string) | Remove(key: string)

  const KEY: string := "key"
  const VALUE: string := "value"
  const ACTION: string := "action"
  const PUT: string := "put"
  const REMOVE: string := "remove"

  function ActionOf(op: Op): string { if op.Put? then "put" else "remove" }
  function PayloadOf(op: Op): string { if op.Put? then op.value else "" }

  /** The field that a key selects. */
  function Lookup(fields: seq<Field>, key: string): Option<Value> {
    if fields == [] then None
    else if fields[0].key == key then Some(fields[0].value)
    else Lookup(fields[1..], key)
  }

  /** The object that a request is sent as, with its three fields in the order in which the hash table lists them. */
  predicate Carries(fields: seq<Field>, op: Op) {
    multiset(fields) ==
    multiset{Field("key", Text(op.key)), Field("value", Text(PayloadOf(op))), Field("action", Text(ActionOf(op)))}
  }

  datatype Outcome = Ignored | Applied(op: Op) | Threw

  function TextField(fields: seq<Field>, key: string): Option<string> {
    match Lookup(fields, key)
    case Some(Text(s)) => Some(s)
    case _ => None
  }

  /** What saving does with a loaded value: a missing or wrong field throws. */
  function OutcomeOf(v: Value): Outcome {
    match v
    case Object(fields) =>
      (match (TextField(fields, KEY), TextField(fields, VALUE), TextField(fields, ACTION))
       case (Some(key), Some(value), Some(action)) =>
         if action == PUT then Applied(Put(key, value))
         else if action == REMOVE then Applied(Remove(key))
         else Ignored
       case _ => Threw)
    case _ => Threw
  }

  /** What saving does with the bytes of a message: invalid JSON is ignored. */
  function SaveOf(data: string): Outcome {
    match Parse(CStr(data) + ['\0'])
    case None => Ignored
    case Some(raw) => OutcomeOf(ValueOf(raw))
  }

  function RequestText(fields: seq<Field>): string
    requires Printable(Object(fields))
  {
    Dump(Object(fields)) + ['\0']
  }

  lemma {:induction false} EscapeHasNoNul(s: string)
    ensures '\0' !in Escape(s)
  {
    if s != "" {
      EscapeHasNoNul(s[1..]);
      assert '\0' !in EscapeOne(s[0]);
    }
  }

  lemma {:induction false} DigitsHaveNoNul(n: nat)
    ensures '\0' !in DigitString(n)
  {
    if n >= 10 {
      DigitsHaveNoNul(n / 10);
    }
  }

  /** Printed text holds no NUL, so it survives as a C string. */
  lemma {:induction false} DumpHasNoNul(v: Value)
    requires Printable(v)
    ensures '\0' !in Dump(v)
    decreases v
  {
    match v
    case Integer(n) => DigitsHaveNoNul(if n < 0 then -n else n);
    case Text(s) => EscapeHasNoNul(s);
    case List(items) => ItemsHaveNoNul(items);
    case Object(fields) => FieldsHaveNoNul(fields);
    case _ =>
  }

  lemma {:induction false} ItemsHaveNoNul(items: seq<Value>)
    requires forall i :: 0 <= i < |items| ==> Printable(items[i])
    ensures '\0' !in DumpItems(items)
    decreases items
  {
    if items != [] {
      DumpHasNoNul(items[0]);
      ItemsHaveNoNul(items[1..]);
    }
  }

  lemma {:induction false} FieldsHaveNoNul(fields: seq<Field>)
    requires forall i :: 0 <= i < |fields| ==> Printable(fields[i].value)
    ensures '\0' !in DumpFields(fields)
    decreases fields
  {
    if fields != [] {
      DumpHasNoNul(fields[0].value);
      EscapeHasNoNul(fields[0].key);
      FieldsHaveNoNul(fields[1..]);
    }
  }

  lemma CStrOfText(s: string)
    requires '\0' !in s
    ensures CStr(s + ['\0']) == s
  {
    CStrIsCString(s + ['\0']);
    assert (s + ['\0'])[|s|] == '\0';
  }

  predicate DistinctKeys(fields: seq<Field>) {
    forall i, j :: 0 <= i < j < |fields| ==> fields[i].key != fields[j].key
  }

  lemma {:induction false} LookupFinds(fields: seq<Field>, i: nat)
    requires i < |fields| && DistinctKeys(fields)
    ensures Lookup(fields, fields[i].key) == Some(fields[i].value)
  {
    if i > 0 {
      LookupFinds(fields[1..], i - 1);
    }
  }

  lemma {:induction false} LookupIsThere(fields: seq<Field>, key: string) returns (i: nat)
    requires Lookup(fields, key).Some?
    ensures i < |fields| && fields[i].key == key && Lookup(fields, key) == Some(fields[i].value)
  {
    if fields[0].key == key {
      i := 0;
    } else {
      i := LookupIsThere(fields[1..], key);
      i := i + 1;
    }
  }

  ghost predicate HasText(fields: seq<Field>, key: string, text: string) {
    Field(key, Text(text)) in fields
  }

  lemma TextIsFound(fields: seq<Field>, key: string, text: string)
    requires DistinctKeys(fields)
    ensures HasText(fields, key, text) <==> TextField(fields, key) == Some(text)
  {
    if HasText(fields, key, text) {
      var i :| 0 <= i < |fields| && fields[i] == Field(key, Text(text));
      LookupFinds(fields, i);
    }
    if TextField(fields, key) == Some(text) {
      var i := LookupIsThere(fields, key);
      assert fields[i] == Field(key, Text(text));
    }
  }

  lemma KeyNames()
    ensures KEY == "key" && VALUE == "value" && ACTION == "action" && PUT == "put" && REMOVE == "remove"
    ensures |KEY| == 3 && |VALUE| == 5 && |ACTION| == 6 && |PUT| == 3 && |REMOVE| == 6
  {
  }

  lemma RequestFields(fields: seq<Field>, op: Op)
    requires Carries(fields, op)
    ensures Printable(Object(fields)) && HasText(fields, KEY, op.key)
    ensures HasText(fields, VALUE, PayloadOf(op)) && HasText(fields, ACTION, ActionOf(op))
  {
    KeyNames();
    var f, g, h := Field(KEY, Text(op.key)), Field(VALUE, Text(PayloadOf(op))), Field(ACTION, Text(ActionOf(op)));
    assert f.key != g.key && g.key != h.key && f.key != h.key;
    ThreeFields(fields, f, g, h);
  }

  lemma ThreeFields(fields: seq<Field>, f: Field, g: Field, h: Field)
    requires multiset(fields) == multiset{f, g, h} && f.value.Text? && g.value.Text? && h.value.Text?
    requires f.key != g.key && g.key != h.key && f.key != h.key
    ensures f in fields && g in fields && h in fields && DistinctKeys(fields)
    ensures forall i :: 0 <= i < |fields| ==> fields[i].value.Text?
  {
    assert f in multiset(fields) && g in multiset(fields) && h in multiset(fields);
    assert |fields| == |multiset(fields)| == 3;
    var i :| 0 <= i < 3 && fields[i] == f;
    var j :| 0 <= j < 3 && fields[j] == g;
    var k :| 0 <= k < 3 && fields[k] == h;
    forall n | 0 <= n < |fields|
      ensures fields[n].value.Text?
    {
      assert n == i || n == j || n == k;
    }
  }

  lemma PrintedIsSaved(v: Value)
    requires Printable(v)
    ensures SaveOf(Dump(v) + ['\0']) == OutcomeOf(v)
  {
    DumpHasNoNul(v);
    CStrOfText(Dump(v));
    RoundTrip(v, ['\0']);
  }

  /** Saving a printed value with a text for each of the three names gives the operation that the action names, or
      nothing for any other action. */
  lemma TextsAreSaved(fields: seq<Field>, key: string, value: string, action: string)
    requires Printable(Object(fields)) && HasText(fields, "key", key) && HasText(fields, "value", value)
    requires HasText(fields, "action", action)
    ensures SaveOf(Dump(Object(fields)) + ['\0']) ==
      if action == "put" then Applied(Put(key, value)) else if action == "remove" then Applied(Remove(key)) else Ignored
  {
    KeyNames();
    PrintedIsSaved(Object(fields));
    TextIsFound(fields, KEY, key);
    TextIsFound(fields, VALUE, value);
    TextIsFound(fields, ACTION, action);
  }

  /** Saving any other printed value throws: one that is no object, or has no text for one of the names. */
  lemma OthersThrow(v: Value, name: string)
    requires Printable(v) && (name == "key" || name == "value" || name == "action")
    requires v.Object? ==> forall text :: !HasText(v.fields, name, text)
    ensures SaveOf(Dump(v) + ['\0']) == Threw
  {
    KeyNames();
    PrintedIsSaved(v);
    if v.Object? {
      NoTextThere(v.fields, name);
    }
  }

  lemma NoTextThere(fields: seq<Field>, name: string)
    requires DistinctKeys(fields) && forall text :: !HasText(fields, name, text)
    ensures TextField(fields, name) == None
  {
    if TextField(fields, name).Some? {
      TextIsFound(fields, name, TextField(fields, name).value);
    }
  }

  /** What the reader saves is the operation that the writer sent, for all keys and values. */
  lemma RequestIsSaved(fields: seq<Field>, op: Op)
    requires Carries(fields, op)
    ensures Printable(Object(fields)) && SaveOf(RequestText(fields)) == Applied(op)
  {
    KeyNames();
    RequestFields(fields, op);
    TextsAreSaved(fields, op.key, PayloadOf(op), ActionOf(op));
  }
}
