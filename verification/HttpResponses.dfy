/** Responses as they are written down, and what the client makes of them however their bytes arrive. */
module HttpResponses {
  import opened Wrappers
  import opened HttpClient

  // ---------------------------------------------------------------------------------------------
  // How a response is written
  // ---------------------------------------------------------------------------------------------

  predicate OneLine(line: string) {
    line != "" && forall i :: 0 <= i < |line| - 1 ==> !(line[i] == '\r' && line[i + 1] == '\n')
  }

  predicate Blanks(s: string) {
    forall i :: 0 <= i < |s| ==> s[i] in [' ', '\t', '\n', '\U{0B}', '\U{0C}', '\r']
  }

  predicate Bare(s: string) {
    s != "" ==> !Blanks(s[..1]) && !Blanks(s[|s| - 1..])
  }

  /** The first line has a version and a status, or fewer than two words. */
  datatype First = Status(lead: string, version: string, gap: string, code: string, more: string)
                 | Short(lead: string, word: string, trail: string)

  predicate Spaces(s: string) {
    forall i :: 0 <= i < |s| ==> s[i] == ' '
  }

  function FirstText(first: First): string {
    match first
    case Status(lead, version, gap, code, more) => lead + (version + (gap + (code + more)))
    case Short(lead, word, trail) => lead + (word + trail)
  }

  predicate IsFirst(first: First) {
    && OneLine(FirstText(first))
    && Spaces(first.lead)
    && match first
       case Status(lead, version, gap, code, more) =>
         && version != "" && ' ' !in version && gap != "" && Spaces(gap)
         && code != "" && ' ' !in code && (more == "" || more[0] == ' ')
       case Short(lead, word, trail) => ' ' !in word && Spaces(trail)
  }

  /** A header line: the length, the transfer encoding, or anything else. */
  datatype Field = Length(before: string, value: string, after: string)
                 | Encoding(before: string, value: string, after: string)
                 | Other(line: string)

  function FieldText(f: Field): string {
    match f
    case Length(before, value, after) => "Content-Length" + ([':'] + (before + (value + after)))
    case Encoding(before, value, after) => "Transfer-Encoding" + ([':'] + (before + (value + after)))
    case Other(line) => line
  }

  predicate IsField(f: Field) {
    && OneLine(FieldText(f))
    && match f
       case Other(line) =>
         forall i :: 0 <= i < |line| && line[i] == ':' && ':' !in line[..i] ==>
                       line[..i] != "Content-Length" && line[..i] != "Transfer-Encoding"
       case _ => Blanks(f.before) && Blanks(f.after) && Bare(f.value) && (f.value == "" ==> f.after == "")
  }

  function Lines(fields: seq<Field>): seq<string> {
    if fields == [] then [] else [FieldText(fields[0])] + Lines(fields[1..])
  }

  /** Each line with its CR LF, and an empty line at the end. */
  function LinesText(lines: seq<string>): string {
    if lines == [] then ['\r', '\n'] else lines[0] + (['\r', '\n'] + LinesText(lines[1..]))
  }

  function HeadText(first: First, fields: seq<Field>): string {
    LinesText([FirstText(first)] + Lines(fields))
  }

  predicate AreFields(fields: seq<Field>) {
    forall i :: 0 <= i < |fields| ==> IsField(fields[i])
  }

  predicate IsHead(first: First, fields: seq<Field>) {
    IsFirst(first) && AreFields(fields)
  }

  // ---------------------------------------------------------------------------------------------
  // What it says
  // ---------------------------------------------------------------------------------------------

  function StatusSaid(numbers: Numbers, first: First): Option<int> {
    match first
    case Status(_, _, _, code, _) => numbers.stoi(code)
    case Short(_, _, _) => Some(0)
  }

  predicate Understood(numbers: Numbers, f: Field) {
    match f
    case Length(_, value, _) => numbers.stoul(value).Some?
    case Encoding(_, value, _) => value == "chunked"
    case Other(_) => true
  }

  /** The length that the last such line gives. */
  function LengthSaid(numbers: Numbers, fields: seq<Field>): Option<nat>
    decreases |fields|
  {
    if fields == [] then None
    else
      var later := LengthSaid(numbers, fields[1..]);
      if later == None && fields[0].Length? then numbers.stoul(fields[0].value) else later
  }

  predicate ChunkedSaid(fields: seq<Field>) {
    exists i :: 0 <= i < |fields| && fields[i].Encoding?
  }

  // ---------------------------------------------------------------------------------------------
  // One line
  // ---------------------------------------------------------------------------------------------

  lemma BlankIsSpace(c: char)
    ensures IsSpace(c) <==> c in [' ', '\t', '\n', '\U{0B}', '\U{0C}', '\r']
  {
    var codes := [' ', '\t', '\n', '\U{0B}', '\U{0C}', '\r'];
    assert codes[1] as int == 9 && codes[2] as int == 10 && codes[3] as int == 11 && codes[4] as int == 12;
    if '\t' <= c <= '\r' {
      assert c as int == 9 || c as int == 10 || c as int == 11 || c as int == 12 || c as int == 13;
      assert c == codes[c as int - 8];
    }
  }

  lemma BareEnds(s: string)
    ensures Bare(s) && s != "" ==> !IsSpace(s[0]) && !IsSpace(s[|s| - 1])
  {
    if s != "" {
      BlankIsSpace(s[0]);
      BlankIsSpace(s[|s| - 1]);
      assert s[|s| - 1..] == [s[|s| - 1]];
    }
  }

  lemma {:induction false} LeftIsTrimmed(blanks: string, rest: string)
    requires Blanks(blanks) && (rest != "" ==> !IsSpace(rest[0]))
    ensures TrimLeft(blanks + rest) == rest
    decreases |blanks|
  {
    if blanks == "" {
      assert blanks + rest == rest;
    } else {
      BlankIsSpace(blanks[0]);
      assert (blanks + rest)[1..] == blanks[1..] + rest;
      LeftIsTrimmed(blanks[1..], rest);
    }
  }

  lemma {:induction false} RightIsTrimmed(rest: string, blanks: string)
    requires Blanks(blanks) && (rest != "" ==> !IsSpace(rest[|rest| - 1]))
    ensures TrimRight(rest + blanks) == rest
    decreases |blanks|
  {
    if blanks == "" {
      assert rest + blanks == rest;
    } else {
      var n := |blanks| - 1;
      BlankIsSpace(blanks[n]);
      assert (rest + blanks)[..|rest| + n] == rest + blanks[..n];
      RightIsTrimmed(rest, blanks[..n]);
    }
  }

  lemma ValueIsTrimmed(before: string, value: string, after: string)
    requires Blanks(before) && Blanks(after) && Bare(value) && (value == "" ==> after == "")
    ensures TrimRight(TrimLeft(before + (value + after))) == value
  {
    BareEnds(value);
    LeftIsTrimmed(before, value + after);
    RightIsTrimmed(value, after);
  }

  lemma NameAndValue(name: string, value: string)
    requires ':' !in name
    ensures var line := name + ([':'] + value);
      Find(line, ':', 0) == |name| < |line| && line[..|name|] == name && line[|name| + 1..] == value
  {
    NameEnds(name, value, 0);
  }

  lemma NamesHaveNoColon()
    ensures ':' !in "Content-Length" && ':' !in "Transfer-Encoding" && "Content-Length" != "Transfer-Encoding"
  {
    assert |"Content-Length"| == 14 && |"Transfer-Encoding"| == 17;
  }

  lemma LengthIsRead(numbers: Numbers, f: Field)
    requires f.Length? && IsField(f)
    ensures HeaderLine(numbers, FieldText(f)) == match numbers.stoul(f.value)
                                                 case Some(k) => HttpClient.Length(k)
                                                 case None => Throws
  {
    NamesHaveNoColon();
    NameAndValue("Content-Length", f.before + (f.value + f.after));
    ValueIsTrimmed(f.before, f.value, f.after);
  }

  lemma EncodingIsRead(numbers: Numbers, f: Field)
    requires f.Encoding? && IsField(f)
    ensures HeaderLine(numbers, FieldText(f)) == if f.value == "chunked" then Chunked else Throws
  {
    NamesHaveNoColon();
    NameAndValue("Transfer-Encoding", f.before + (f.value + f.after));
    ValueIsTrimmed(f.before, f.value, f.after);
  }

  lemma OtherIsPassedOver(numbers: Numbers, f: Field)
    requires f.Other? && IsField(f)
    ensures HeaderLine(numbers, FieldText(f)) == Nothing
  {
    var n := Find(f.line, ':', 0);
    FindIsFirst(f.line, ':', 0);
    FindStops(f.line, ':', 0);
    if n < |f.line| {
      assert ':' !in f.line[..n];
    }
  }

  // ---------------------------------------------------------------------------------------------
  // The first line
  // ---------------------------------------------------------------------------------------------

  lemma {:induction false} SpacesArePassed(s: string, pos: nat, end: nat)
    requires pos <= end <= |s| && forall j :: pos <= j < end ==> s[j] == ' '
    ensures Parts(s, pos) == Parts(s, end)
    decreases end - pos
  {
    if pos < end {
      SpacesArePassed(s, pos + 1, end);
      assert Find(s, ' ', pos) == pos;
    }
  }

  lemma {:induction false} WordEnds(s: string, pos: nat, end: nat)
    requires pos <= end <= |s| && (forall j :: pos <= j < end ==> s[j] != ' ') && (end < |s| ==> s[end] == ' ')
    ensures Find(s, ' ', pos) == end
    decreases end - pos
  {
    if pos < end {
      WordEnds(s, pos + 1, end);
    }
  }

  /** A word from a position on is the next part. */
  lemma WordIsPart(s: string, pos: nat, end: nat)
    requires pos < end <= |s| && (forall j :: pos <= j < end ==> s[j] != ' ') && (end < |s| ==> s[end] == ' ')
    ensures Parts(s, pos) == [s[pos..end]] + Parts(s, end + 1)
  {
    WordEnds(s, pos, end);
  }

  lemma Ends(s: string)
    ensures Parts(s, |s|) == [] && Parts(s, |s| + 1) == []
  {
  }

  predicate SpacesAt(s: string, pos: nat, end: nat) {
    pos <= end <= |s| && forall j :: pos <= j < end ==> s[j] == ' '
  }

  predicate WordOn(s: string, pos: nat, end: nat, word: string) {
    pos <= end <= |s| && s[pos..end] == word && forall j :: pos <= j < end ==> s[j] != ' '
  }

  lemma PieceAt(a: string, b: string, c: string, s: string)
    requires s == a + (b + c)
    ensures Spaces(b) ==> SpacesAt(s, |a|, |a| + |b|)
    ensures ' ' !in b ==> WordOn(s, |a|, |a| + |b|, b)
    ensures s == (a + b) + c && (c != "" ==> s[|a| + |b|] == c[0])
  {
    assert s[|a|..|a| + |b|] == b;
    assert forall j :: |a| <= j < |a| + |b| ==> s[j] == b[j - |a|];
  }

  lemma WordAfterSpaces(s: string, pos: nat, a: nat, b: nat, word: string)
    requires SpacesAt(s, pos, a) && WordOn(s, a, b, word) && a < b && (b < |s| ==> s[b] == ' ')
    ensures Parts(s, pos) == [word] + Parts(s, b + 1)
  {
    SpacesArePassed(s, pos, a);
    WordIsPart(s, a, b);
  }

  lemma FewerSpaces(s: string, b: nat, c: nat)
    requires SpacesAt(s, b, c) && b < c
    ensures s[b] == ' ' && SpacesAt(s, b + 1, c)
  {
  }

  lemma TwoWords(s: string, a: nat, b: nat, c: nat, d: nat, version: string, code: string)
    requires SpacesAt(s, 0, a) && WordOn(s, a, b, version) && SpacesAt(s, b, c) && WordOn(s, c, d, code)
    requires a < b < c < d && (d < |s| ==> s[d] == ' ')
    ensures |Parts(s, 0)| >= 2 && Parts(s, 0)[1] == code
  {
    FewerSpaces(s, b, c);
    WordAfterSpaces(s, 0, a, b, version);
    WordAfterSpaces(s, b + 1, c, d, code);
    SecondOf(version, code, Parts(s, d + 1), Parts(s, 0));
  }

  lemma SecondOf(version: string, code: string, more: seq<string>, parts: seq<string>)
    requires parts == [version] + ([code] + more)
    ensures |parts| >= 2 && parts[1] == code
  {
  }

  lemma StatusWords(lead: string, version: string, gap: string, code: string, more: string, s: string)
    requires s == lead + (version + (gap + (code + more))) && Spaces(lead) && Spaces(gap)
    requires version != "" && ' ' !in version && gap != "" && code != "" && ' ' !in code
    requires more == "" || more[0] == ' '
    ensures |Parts(s, 0)| >= 2 && Parts(s, 0)[1] == code
  {
    var second, third := gap + (code + more), code + more;
    var a, b := lead + version, (lead + version) + gap;
    assert s == "" + (lead + (version + second));
    PieceAt("", lead, version + second, s);
    PieceAt(lead, version, second, s);
    PieceAt(a, gap, third, s);
    PieceAt(b, code, more, s);
    TwoWords(s, |lead|, |a|, |b|, |b| + |code|, version, code);
  }

  lemma StatusIsRead(numbers: Numbers, first: First)
    requires first.Status? && IsFirst(first)
    ensures StatusOf(numbers, Parts(FirstText(first), 0)) == match numbers.stoi(first.code)
                                                             case Some(n) => HttpClient.Status(n)
                                                             case None => Throws
  {
    var s := FirstText(first);
    StatusWords(first.lead, first.version, first.gap, first.code, first.more, s);
  }

  lemma AtMostOneWord(s: string, a: nat, b: nat, word: string)
    requires SpacesAt(s, 0, a) && WordOn(s, a, b, word) && SpacesAt(s, b, |s|)
    ensures |Parts(s, 0)| < 2
  {
    SpacesArePassed(s, 0, a);
    Ends(s);
    if a == b {
      SpacesArePassed(s, a, |s|);
    } else {
      WordIsPart(s, a, b);
      if b < |s| {
        SpacesArePassed(s, b + 1, |s|);
      }
    }
  }

  lemma OnlyWord(lead: string, word: string, trail: string, s: string)
    requires s == lead + (word + trail) && Spaces(lead) && ' ' !in word && Spaces(trail)
    ensures |Parts(s, 0)| < 2
  {
    var a := lead + word;
    assert s == "" + (lead + (word + trail)) && trail + "" == trail;
    PieceAt("", lead, word + trail, s);
    PieceAt(lead, word, trail, s);
    PieceAt(a, trail, "", s);
    AtMostOneWord(s, |lead|, |a|, word);
  }

  lemma ShortIsRead(numbers: Numbers, first: First)
    requires first.Short? && IsFirst(first)
    ensures StatusOf(numbers, Parts(FirstText(first), 0)) == Nothing
  {
    var s := FirstText(first);
    OnlyWord(first.lead, first.word, first.trail, s);
  }

  // ---------------------------------------------------------------------------------------------
  // The head
  // ---------------------------------------------------------------------------------------------

  lemma LaterPart(line: string)
    requires OneLine(line) && |line| > 1
    ensures OneLine(line[1..])
  {
    var t := line[1..];
    forall i | 0 <= i < |t| - 1
      ensures !(t[i] == '\r' && t[i + 1] == '\n')
    {
      assert t[i] == line[i + 1] && t[i + 1] == line[(i + 1) + 1];
    }
  }

  lemma {:induction false} CrlfEndsLine(line: string, rest: string)
    requires line == "" || OneLine(line)
    ensures FindCrlf(line + (['\r', '\n'] + rest)) == Some(|line|)
    decreases |line|
  {
    var s := line + (['\r', '\n'] + rest);
    if line != "" {
      var t := line[1..];
      assert s[1..] == t + (['\r', '\n'] + rest);
      assert s[0] == line[0] && (|line| == 1 ==> s[1] == '\r') && (|line| > 1 ==> s[1] == line[1]);
      if t != "" {
        LaterPart(line);
      }
      CrlfEndsLine(t, rest);
    }
  }

  lemma LineIsRead(numbers: Numbers, s: State, line: string, rest: string)
    requires !s.parsedHeaders && !s.finished && !s.failed && (line == "" || OneLine(line))
    requires s.responseData == line + (['\r', '\n'] + rest)
    ensures Drain(numbers, s) == Drain(numbers, Line(numbers, s.(responseData := rest), line))
  {
    CrlfEndsLine(line, rest);
    assert s.responseData[..|line|] == line && s.responseData[|line| + 2..] == rest;
  }

  /** One header line that is understood. */
  function Told(numbers: Numbers, s: State, f: Field, line: string): State {
    var t := s.(response := s.response.(headers := s.response.headers + [line]));
    match f
    case Length(_, value, _) => t.(contentLength := numbers.stoul(value))
    case Encoding(_, _, _) => t.(chunked := true)
    case Other(_) => t
  }

  lemma FieldIsObeyed(numbers: Numbers, s: State, f: Field, line: string)
    requires IsField(f) && line == FieldText(f)
    ensures var t := s.(response := s.response.(headers := s.response.headers + [line]));
      var u := Obey(t, HeaderLine(numbers, line));
      if Understood(numbers, f) then u == Told(numbers, s, f, line) else u.failed
  {
    match f
    case Length(_, _, _) => LengthIsRead(numbers, f);
    case Encoding(_, _, _) => EncodingIsRead(numbers, f);
    case Other(_) => OtherIsPassedOver(numbers, f);
  }

  lemma HeaderLineIsRead(numbers: Numbers, s: State, f: Field, line: string, rest: string)
    requires !s.parsedHeaders && !s.finished && !s.failed && !s.firstLine
    requires IsField(f) && line == FieldText(f) && OneLine(line) && s.responseData == line + (['\r', '\n'] + rest)
    ensures Understood(numbers, f) ==>
      Drain(numbers, s) == Drain(numbers, Told(numbers, s.(responseData := rest), f, line))
    ensures !Understood(numbers, f) ==> Drain(numbers, s).failed
  {
    LineIsRead(numbers, s, line, rest);
    FieldIsObeyed(numbers, s.(responseData := rest), f, line);
  }

  predicate AllUnderstood(numbers: Numbers, fields: seq<Field>) {
    forall i :: 0 <= i < |fields| ==> Understood(numbers, fields[i])
  }

  function ToldAll(numbers: Numbers, s: State, fields: seq<Field>): State
    decreases |fields|
  {
    if fields == [] then s else ToldAll(numbers, Told(numbers, s, fields[0], FieldText(fields[0])), fields[1..])
  }

  lemma FirstAndMore(numbers: Numbers, fields: seq<Field>)
    requires fields != []
    ensures AreFields(fields) ==> IsField(fields[0]) && AreFields(fields[1..])
    ensures AllUnderstood(numbers, fields) <==> Understood(numbers, fields[0]) && AllUnderstood(numbers, fields[1..])
  {
  }

  lemma HeadEnds(numbers: Numbers, s: State, rest: string)
    requires !s.parsedHeaders && !s.finished && !s.failed && s.responseData == ['\r', '\n'] + rest
    ensures Drain(numbers, s) == Drain(numbers, s.(responseData := rest, parsedHeaders := true))
  {
    assert s.responseData == "" + (['\r', '\n'] + rest);
    LineIsRead(numbers, s, "", rest);
  }

  lemma {:induction false} FieldsAreRead(numbers: Numbers, s: State, fields: seq<Field>, rest: string)
    requires !s.parsedHeaders && !s.finished && !s.failed && !s.firstLine && AreFields(fields)
    requires s.responseData == LinesText(Lines(fields)) + rest
    ensures AllUnderstood(numbers, fields) ==>
      Drain(numbers, s) ==
      Drain(numbers, ToldAll(numbers, s.(responseData := rest), fields).(parsedHeaders := true))
    ensures !AllUnderstood(numbers, fields) ==> Drain(numbers, s).failed
    decreases |fields|
  {
    if fields == [] {
      HeadEnds(numbers, s, rest);
    } else {
      var f, line, more := fields[0], FieldText(fields[0]), fields[1..];
      var after := LinesText(Lines(more)) + rest;
      FirstAndMore(numbers, fields);
      FirstLineText(line, Lines(more), rest);
      HeaderLineIsRead(numbers, s, f, line, after);
      if Understood(numbers, f) {
        var t := Told(numbers, s.(responseData := after), f, line);
        ToldStaysOpen(numbers, s.(responseData := after), f, line);
        FieldsAreRead(numbers, t, more, rest);
        ToldKeepsData(numbers, s, f, line, after, rest);
      }
    }
  }

  lemma ToldStaysOpen(numbers: Numbers, s: State, f: Field, line: string)
    ensures var t := Told(numbers, s, f, line);
      && t.parsedHeaders == s.parsedHeaders && t.finished == s.finished && t.failed == s.failed
      && t.firstLine == s.firstLine && t.responseData == s.responseData
  {
    match f
    case Length(_, _, _) =>
    case Encoding(_, _, _) =>
    case Other(_) =>
  }

  lemma FirstLineText(line: string, more: seq<string>, rest: string)
    ensures LinesText([line] + more) + rest == line + (['\r', '\n'] + (LinesText(more) + rest))
  {
    assert ([line] + more)[1..] == more;
  }

  lemma ToldKeepsData(numbers: Numbers, s: State, f: Field, line: string, after: string, rest: string)
    ensures Told(numbers, s.(responseData := after), f, line).(responseData := rest) ==
            Told(numbers, s.(responseData := rest), f, line)
  {
    var h := s.response.(headers := s.response.headers + [line]);
    match f
    case Length(_, value, _) =>
      assert Told(numbers, s.(responseData := after), f, line) ==
             s.(responseData := after, response := h, contentLength := numbers.stoul(value));
    case Encoding(_, _, _) =>
    case Other(_) =>
  }

  /** What lines say: headers, a length if they give one, and whether there are chunks. */
  function Said(s: State, lines: seq<string>, length: Option<nat>, chunked: bool): State {
    s.(response := s.response.(headers := s.response.headers + lines),
       contentLength := if length == None then s.contentLength else length, chunked := s.chunked || chunked)
  }

  lemma SaidFirst(numbers: Numbers, s: State, f: Field, line: string, lines: seq<string>, length: Option<nat>,
                  chunked: bool)
    requires Understood(numbers, f)
    ensures Said(Told(numbers, s, f, line), lines, length, chunked) ==
            Said(s, [line] + lines, if length == None && f.Length? then numbers.stoul(f.value) else length,
                 f.Encoding? || chunked)
  {
    assert (s.response.headers + [line]) + lines == s.response.headers + ([line] + lines);
  }

  /** All lines of the head that are understood, together. */
  lemma {:induction false} ToldTogether(numbers: Numbers, s: State, fields: seq<Field>)
    requires AllUnderstood(numbers, fields)
    ensures ToldAll(numbers, s, fields) == Said(s, Lines(fields), LengthSaid(numbers, fields), ChunkedSaid(fields))
    decreases |fields|
  {
    if fields == [] {
      assert s.response.headers + [] == s.response.headers;
    } else {
      var f, line, more := fields[0], FieldText(fields[0]), fields[1..];
      ToldTogether(numbers, Told(numbers, s, f, line), more);
      SaidFirst(numbers, s, f, line, Lines(more), LengthSaid(numbers, more), ChunkedSaid(more));
      ChunkedFromFirst(fields);
    }
  }

  lemma ChunkedFromFirst(fields: seq<Field>)
    requires fields != []
    ensures ChunkedSaid(fields) <==> fields[0].Encoding? || ChunkedSaid(fields[1..])
  {
  }

  /** The head says what is expected, and is understood. */
  predicate HeadUnderstood(numbers: Numbers, first: First, fields: seq<Field>) {
    StatusSaid(numbers, first).Some? && AllUnderstood(numbers, fields)
  }

  /** After the head, with what follows it. */
  function AfterHead(status: int, lines: seq<string>, length: Option<nat>, chunked: bool, rest: string): State {
    State(rest, Response(status, lines, ""), false, true, length, chunked, 0, false, false, false)
  }

  function HeadState(numbers: Numbers, first: First, fields: seq<Field>, rest: string): State
    requires HeadUnderstood(numbers, first, fields)
  {
    AfterHead(StatusSaid(numbers, first).value, Lines(fields), LengthSaid(numbers, fields), ChunkedSaid(fields), rest)
  }

  lemma FirstIsRead(numbers: Numbers, s: State, first: First, rest: string)
    requires s == Start().(responseData := FirstText(first) + (['\r', '\n'] + rest)) && IsFirst(first)
    ensures StatusSaid(numbers, first).Some? ==>
      Drain(numbers, s) == Drain(numbers, Start().(responseData := rest, firstLine := false,
        response := Response(StatusSaid(numbers, first).value, [], "")))
    ensures StatusSaid(numbers, first).None? ==> Drain(numbers, s).failed
  {
    LineIsRead(numbers, s, FirstText(first), rest);
    match first
    case Status(_, _, _, _, _) => StatusIsRead(numbers, first);
    case Short(_, _, _) => ShortIsRead(numbers, first);
  }

  lemma HeadIsRead(numbers: Numbers, s: State, first: First, fields: seq<Field>, rest: string)
    requires s == Start().(responseData := HeadText(first, fields) + rest) && IsHead(first, fields)
    ensures HeadUnderstood(numbers, first, fields) ==>
      Drain(numbers, s) == Drain(numbers, HeadState(numbers, first, fields, rest))
    ensures !HeadUnderstood(numbers, first, fields) ==> Drain(numbers, s).failed
  {
    var after := LinesText(Lines(fields)) + rest;
    FirstLineText(FirstText(first), Lines(fields), rest);
    FirstIsRead(numbers, s, first, after);
    if StatusSaid(numbers, first).Some? {
      var t := Start().(responseData := after, firstLine := false,
        response := Response(StatusSaid(numbers, first).value, [], ""));
      FieldsAreRead(numbers, t, fields, rest);
      if AllUnderstood(numbers, fields) {
        ToldTogether(numbers, t.(responseData := rest), fields);
        assert [] + Lines(fields) == Lines(fields);
      }
    }
  }

  // ---------------------------------------------------------------------------------------------
  // The whole response
  // ---------------------------------------------------------------------------------------------

  /** A body of exactly the length that has been announced is the same however it is split. */
  lemma {:induction false} ExactSplit(numbers: Numbers, s: State, pieces: seq<string>, r: State)
    requires !s.finished && !s.failed && pieces != [] && r == Feed(numbers, s, Joined(pieces))
    requires EndsByLength(r) && r.contentLength == Some(|r.response.body|)
    ensures SameResponse(FeedAll(numbers, s, pieces), r)
    decreases |pieces|
  {
    var a, rest := pieces[0], pieces[1..];
    var t := Feed(numbers, s, a);
    if rest == [] {
      assert a + "" == a;
    } else if t.finished || t.failed {
      FeedAllIsDone(numbers, t, rest);
      if EndsByLength(t) {
        NoSurplus(numbers, s, a, Joined(rest), r);
      } else {
        ClosedPieces(numbers, s, a, Joined(rest));
      }
    } else {
      OpenPieces(numbers, s, a, Joined(rest));
      ExactSplit(numbers, t, rest, r);
    }
  }

  lemma {:induction false} NoSurplus(numbers: Numbers, s: State, a: string, b: string, r: State)
    requires !s.finished && !s.failed && EndsByLength(Feed(numbers, s, a)) && r == Feed(numbers, s, a + b)
    requires EndsByLength(r) && r.contentLength == Some(|r.response.body|)
    ensures SameResponse(Feed(numbers, s, a), r)
  {
    var d := Drain(numbers, Append(s, a));
    LengthReachedEnds(numbers, s, a);
    SurplusIsTaken(numbers, s, a, b);
    AppendAppend(s, a, b);
    DrainTogether(numbers, Append(s, a), b);
    DrainStaysOpen(numbers, Append(s, a));
    DoneStays(numbers, d, b);
    assert b == "";
    assert a + b == a;
  }

  /** A head that is not understood makes the client throw, wherever the pieces end. */
  lemma BadHead(numbers: Numbers, first: First, fields: seq<Field>, rest: string, pieces: seq<string>)
    requires IsHead(first, fields) && !HeadUnderstood(numbers, first, fields)
    requires pieces != [] && Joined(pieces) == HeadText(first, fields) + rest
    ensures FeedAll(numbers, Start(), pieces).failed
  {
    var text := HeadText(first, fields) + rest;
    assert "" + text == text;
    HeadIsRead(numbers, Start().(responseData := text), first, fields, rest);
    AnySplit(numbers, Start(), pieces);
  }

  lemma SettledPlain(numbers: Numbers, text: string, status: int, lines: seq<string>, length: Option<nat>, body: string)
    requires Drain(numbers, Start().(responseData := text)) ==
             Drain(numbers, AfterHead(status, lines, length, false, body))
    ensures var r := Feed(numbers, Start(), text);
      && !r.failed && !r.chunked && r.contentLength == length && r.response == Response(status, lines, body)
      && (r.finished <==> length.Some? && |body| >= length.value)
  {
    var d := AfterHead(status, lines, length, false, body);
    assert Drain(numbers, d) == d;
    assert "" + text == text && "" + body == body;
  }

  /** A body that is not chunked arrives as it is, and completes the response exactly when it is as long as the
      head says. */
  lemma PlainBody(numbers: Numbers, first: First, fields: seq<Field>, body: string, pieces: seq<string>)
    requires IsHead(first, fields) && HeadUnderstood(numbers, first, fields) && !ChunkedSaid(fields)
    requires LengthSaid(numbers, fields).Some? ==> |body| <= LengthSaid(numbers, fields).value
    requires pieces != [] && Joined(pieces) == HeadText(first, fields) + body
    ensures var r := FeedAll(numbers, Start(), pieces);
      && !r.failed && r.response == Response(StatusSaid(numbers, first).value, Lines(fields), body)
      && (r.finished <==> LengthSaid(numbers, fields) == Some(|body|))
  {
    var text, length := Joined(pieces), LengthSaid(numbers, fields);
    HeadIsRead(numbers, Start().(responseData := text), first, fields, body);
    SettledPlain(numbers, text, StatusSaid(numbers, first).value, Lines(fields), length, body);
    PlainPieces(numbers, pieces, length, body, Feed(numbers, Start(), text));
  }

  lemma PlainPieces(numbers: Numbers, pieces: seq<string>, length: Option<nat>, body: string, r: State)
    requires pieces != [] && r == Feed(numbers, Start(), Joined(pieces))
    requires !r.failed && !r.chunked && r.contentLength == length && r.response.body == body
    requires (r.finished <==> length.Some? && |body| >= length.value) && (length.Some? ==> |body| <= length.value)
    ensures SameResponse(FeedAll(numbers, Start(), pieces), r)
  {
    LengthReachedEnds(numbers, Start(), Joined(pieces));
    if r.finished {
      ExactSplit(numbers, Start(), pieces, r);
    } else {
      AnySplit(numbers, Start(), pieces);
    }
  }

  /** A chunk with its size line, which may hold extensions that the conversion ignores. */
  predicate IsPiece(numbers: Numbers, c: Chunk) {
    OneLine(c.line) && numbers.stoulHex(c.line) == Some(|c.data|)
  }

  function PiecesText(chunks: seq<Chunk>): string {
    if chunks == [] then ""
    else chunks[0].line + ['\r', '\n'] + chunks[0].data + ['\r', '\n'] + PiecesText(chunks[1..])
  }

  lemma {:induction false} PiecesAreChunks(chunks: seq<Chunk>)
    ensures PiecesText(chunks) == ChunksText(chunks)
    decreases |chunks|
  {
    if chunks != [] {
      PiecesAreChunks(chunks[1..]);
    }
  }

  lemma PieceIsChunk(numbers: Numbers, c: Chunk)
    requires IsPiece(numbers, c)
    ensures IsChunk(numbers, c)
  {
    CrlfEndsLine(c.line, "");
    assert ['\r', '\n'] + "" == CRLF;
  }

  function DataOf(chunks: seq<Chunk>): string {
    if chunks == [] then "" else chunks[0].data + DataOf(chunks[1..])
  }

  lemma {:induction false} DataIsChunksData(chunks: seq<Chunk>)
    ensures DataOf(chunks) == ChunksData(chunks)
    decreases |chunks|
  {
    if chunks != [] {
      DataIsChunksData(chunks[1..]);
    }
  }

  /** A chunked body arrives as the data of its chunks; a length that the head gives as well does not matter. */
  lemma ChunkedBody(numbers: Numbers, first: First, fields: seq<Field>, chunks: seq<Chunk>, last: Chunk, rest: string,
                    pieces: seq<string>)
    requires IsHead(first, fields) && HeadUnderstood(numbers, first, fields) && ChunkedSaid(fields)
    requires forall i :: 0 <= i < |chunks| ==> IsPiece(numbers, chunks[i]) && chunks[i].data != ""
    requires IsPiece(numbers, last) && last.data == "" && pieces != []
    requires Joined(pieces) == HeadText(first, fields) + (PiecesText(chunks) + (last.line + ['\r', '\n'] + rest))
    ensures var r := FeedAll(numbers, Start(), pieces);
      && r.finished && !r.failed
      && r.response == Response(StatusSaid(numbers, first).value, Lines(fields), DataOf(chunks))
  {
    var head := HeadText(first, fields);
    assert "" + head == head && head + "" == head && CRLF == ['\r', '\n'];
    HeadIsRead(numbers, Start().(responseData := head), first, fields, "");
    var s := HeadState(numbers, first, fields, "");
    assert Drain(numbers, s) == s;
    PiecesAreChunks(chunks);
    DataIsChunksData(chunks);
    forall i | 0 <= i < |chunks|
      ensures IsChunk(numbers, chunks[i])
    {
      PieceIsChunk(numbers, chunks[i]);
    }
    PieceIsChunk(numbers, last);
    ChunkedResponse(numbers, head, chunks, last, rest, pieces);
    assert "" + DataOf(chunks) == DataOf(chunks);
  }

  // ---------------------------------------------------------------------------------------------
  // The loop over what the socket gives
  // ---------------------------------------------------------------------------------------------

  /** Receives pieces until the response is complete, the client throws, or the connection is closed. */
  method ReceiveAll(numbers: Numbers, pieces: seq<string>) returns (finished: bool, failed: bool, response: Response)
    ensures var r := FeedAll(numbers, Start(), pieces);
      finished == r.finished && failed == r.failed && response == r.response
  {
    var client := new Client(numbers);
    finished := false;
    var i := 0;
    assert pieces[0..] == pieces;
    while i < |pieces| && !finished && !client.failed
      invariant 0 <= i <= |pieces| && client.numbers == numbers
      invariant FeedAll(numbers, client.Now(finished), pieces[i..]) == FeedAll(numbers, Start(), pieces)
    {
      assert pieces[i..][0] == pieces[i] && pieces[i..][1..] == pieces[i + 1..];
      finished := client.Receive(pieces[i]);
      i := i + 1;
    }
    if finished || client.failed {
      FeedAllIsDone(numbers, client.Now(finished), pieces[i..]);
    }
    failed, response := client.failed, client.response;
  }

  /** A response with an announced length is received whole, however its bytes arrive. */
  method ReceivePlain(numbers: Numbers, ghost first: First, ghost fields: seq<Field>, ghost body: string,
                      pieces: seq<string>)
    returns (finished: bool, failed: bool, response: Response)
    requires IsHead(first, fields) && HeadUnderstood(numbers, first, fields) && !ChunkedSaid(fields)
    requires LengthSaid(numbers, fields).Some? ==> |body| <= LengthSaid(numbers, fields).value
    requires pieces != [] && Joined(pieces) == HeadText(first, fields) + body
    ensures !failed && (finished <==> LengthSaid(numbers, fields) == Some(|body|))
    ensures response == Response(StatusSaid(numbers, first).value, Lines(fields), body)
  {
    finished, failed, response := ReceiveAll(numbers, pieces);
    PlainBody(numbers, first, fields, body, pieces);
  }
}
