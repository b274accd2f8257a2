/** The response reader of the HTTP client: header lines, then a plain or chunked body (section 4.1 of RFC 7230),
    however the bytes arrive. */
module HttpClient {
  import opened Wrappers

  /** The conversions of the standard library, which throw on malformed or oversized numbers. */
  datatype Numbers = Numbers(stoi: string -> Option<int>, stoul: string -> Option<nat>, stoulHex: string -> Option<nat>)

  datatype Response = Response(status: int, headers: seq<string>, body: string)

  /** What `send` keeps while it reads. `finished` means that the response is complete, `failed` that an exception
      has been thrown. */
  datatype State = State(
    responseData: string, response: Response, firstLine: bool, parsedHeaders: bool,
    contentLength: Option<nat>, chunked: bool, expectedChunkSize: nat, removeCrlfAfterChunk: bool,
    finished: bool, failed: bool)

  function Start(): State {
    State("", Response(0, [], ""), true, false, None, false, 0, false, false, false)
  }

  // ---------------------------------------------------------------------------------------------
  // Lines
  // ---------------------------------------------------------------------------------------------

  const CRLF: string := ['\r', '\n']

  /** The position of the first CR LF. */
  function FindCrlf(s: string): (i: Option<nat>)
    ensures i.Some? ==> i.value + 2 <= |s| && s[i.value] == '\r' && s[i.value + 1] == '\n'
  {
    if |s| < 2 then None
    else if s[0] == '\r' && s[1] == '\n' then Some(0)
    else
      match FindCrlf(s[1..])
      case Some(i) => Some(i + 1)
      case None => None
  }

  predicate IsSpace(c: char) {
    c == ' ' || '\t' <= c <= '\r'
  }

  function TrimLeft(s: string): string {
    if s != "" && IsSpace(s[0]) then TrimLeft(s[1..]) else s
  }

  function TrimRight(s: string): string {
    if s != "" && IsSpace(s[|s| - 1]) then TrimRight(s[..|s| - 1]) else s
  }

  /** The position of the first such character from `i` on, or the length. */
  function Find(s: string, c: char, i: nat): (n: nat)
    requires i <= |s|
    ensures i <= n <= |s|
    decreases |s| - i
  {
    if i == |s| || s[i] == c then i else Find(s, c, i + 1)
  }

  lemma {:induction false} FindIsFirst(s: string, c: char, i: nat)
    requires i <= |s|
    ensures forall j :: i <= j < Find(s, c, i) ==> s[j] != c
    decreases |s| - i
  {
    if i < |s| && s[i] != c {
      FindIsFirst(s, c, i + 1);
    }
  }

  /** The non-empty parts between spaces, from a position on. */
  function Parts(s: string, pos: nat): seq<string>
    decreases |s| + 1 - pos
  {
    if pos > |s| then []
    else
      var end := Find(s, ' ', pos);
      WordAt(s, pos, end) + Parts(s, end + 1)
  }

  /** The characters of a string from a position on, without its spaces. */
  function WithoutSpaces(s: string, pos: nat): string
    decreases |s| - pos
  {
    if pos >= |s| then "" else (if s[pos] == ' ' then "" else [s[pos]]) + WithoutSpaces(s, pos + 1)
  }

  lemma {:induction false} NoSpacesIn(s: string, pos: nat, end: nat)
    requires pos <= end <= |s| && forall j :: pos <= j < end ==> s[j] != ' '
    ensures WithoutSpaces(s, pos) == s[pos..end] + WithoutSpaces(s, end)
    decreases end - pos
  {
    if pos < end {
      NoSpacesIn(s, pos + 1, end);
      FirstOfCut(s, pos, end, WithoutSpaces(s, end));
    }
  }

  lemma FirstOfCut(s: string, pos: nat, end: nat, rest: string)
    requires pos < end <= |s|
    ensures s[pos..end] + rest == [s[pos]] + (s[pos + 1..end] + rest)
  {
  }

  lemma {:induction false} SpaceOrEnd(s: string, end: nat)
    requires end <= |s| && (end < |s| ==> s[end] == ' ')
    ensures WithoutSpaces(s, end) == WithoutSpaces(s, end + 1)
  {
  }

  lemma {:induction false} FindStops(s: string, c: char, i: nat)
    requires i <= |s|
    ensures Find(s, c, i) < |s| ==> s[Find(s, c, i)] == c
    decreases |s| - i
  {
    if i < |s| && s[i] != c {
      FindStops(s, c, i + 1);
    }
  }

  /** The word that starts at a position, if there is one. */
  function WordAt(s: string, pos: nat, end: nat): seq<string>
    requires pos <= end <= |s|
  {
    if end == pos then [] else [s[pos..end]]
  }

  lemma {:induction false} WordIsFound(s: string, pos: nat, end: nat)
    requires pos <= |s| && end == Find(s, ' ', pos)
    ensures forall part :: part in WordAt(s, pos, end) ==> part != "" && ' ' !in part
    ensures WithoutSpaces(s, pos) == Joined(WordAt(s, pos, end)) + WithoutSpaces(s, end + 1)
  {
    FindIsFirst(s, ' ', pos);
    FindStops(s, ' ', pos);
    NoSpacesIn(s, pos, end);
    SpaceOrEnd(s, end);
    OneJoined(WordAt(s, pos, end), s[pos..end]);
  }

  lemma OneJoined(word: seq<string>, w: string)
    requires word == if w == "" then [] else [w]
    ensures Joined(word) == w
  {
    assert w + "" == w;
  }

  lemma {:induction false} PartsSplit(s: string, pos: nat, parts: seq<string>, word: seq<string>, rest: seq<string>)
    requires pos <= |s| && parts == Parts(s, pos)
    requires word == WordAt(s, pos, Find(s, ' ', pos)) && rest == Parts(s, Find(s, ' ', pos) + 1)
    ensures parts == word + rest
  {
  }

  lemma WordMoves(parts: seq<string>, word: seq<string>, rest: seq<string>, left: seq<string>)
    requires left == word + rest
    ensures parts + left == (parts + word) + rest && parts + [] == parts
  {
  }

  predicate AreWords(parts: seq<string>) {
    forall part :: part in parts ==> part != "" && ' ' !in part
  }

  lemma WordsTogether(word: seq<string>, rest: seq<string>)
    requires AreWords(word) && AreWords(rest)
    ensures AreWords(word + rest)
  {
  }

  /** The parts are words: none is empty or holds a space, and together they are all other characters. */
  lemma {:induction false} PartsAreWords(s: string, pos: nat, parts: seq<string>)
    requires pos <= |s| + 1 && parts == Parts(s, pos)
    ensures AreWords(parts) && Joined(parts) == WithoutSpaces(s, pos)
    decreases |s| + 1 - pos
  {
    if pos <= |s| {
      var end := Find(s, ' ', pos);
      var word, rest := WordAt(s, pos, end), Parts(s, end + 1);
      PartsSplit(s, pos, parts, word, rest);
      WordIsFound(s, pos, end);
      PartsAreWords(s, end + 1, rest);
      WordsTogether(word, rest);
      JoinedFirst(word, rest);
    }
  }

  lemma {:induction false} JoinedFirst(word: seq<string>, parts: seq<string>)
    requires |word| <= 1
    ensures Joined(word + parts) == Joined(word) + Joined(parts)
  {
    if word == [] {
      assert word + parts == parts;
    } else {
      assert (word + parts)[1..] == parts && word[1..] == [] && word[0] + "" == word[0];
    }
  }

  const CONTENT_LENGTH: string := "Content-Length"
  const TRANSFER_ENCODING: string := "Transfer-Encoding"
  const CHUNKED: string := "chunked"

  /** What a line of the header section says. */
  datatype Meaning = Nothing | Status(n: int) | Length(k: nat) | Chunked | Throws

  function StatusOf(numbers: Numbers, parts: seq<string>): Meaning {
    if |parts| < 2 then Nothing
    else
      match numbers.stoi(parts[1])
      case Some(n) => Status(n)
      case None => Throws
  }

  function HeaderLine(numbers: Numbers, line: string): Meaning {
    var pos := Find(line, ':', 0);
    if pos == |line| then Nothing
    else
      var name, value := line[..pos], TrimRight(TrimLeft(line[pos + 1..]));
      if name == CONTENT_LENGTH then
        match numbers.stoul(value)
        case Some(k) => Length(k)
        case None => Throws
      else if name == TRANSFER_ENCODING then
        if value == CHUNKED then Chunked else Throws
      else Nothing
  }

  function Obey(s: State, meaning: Meaning): State {
    match meaning
    case Nothing => s
    case Status(n) => s.(response := s.response.(status := n))
    case Length(k) => s.(contentLength := Some(k))
    case Chunked => s.(chunked := true)
    case Throws => s.(failed := true)
  }

  function Line(numbers: Numbers, s: State, line: string): State {
    if line == "" then s.(parsedHeaders := true)
    else if s.firstLine then Obey(s.(firstLine := false), StatusOf(numbers, Parts(line, 0)))
    else Obey(s.(response := s.response.(headers := s.response.headers + [line])), HeaderLine(numbers, line))
  }

  function SizeLine(numbers: Numbers, s: State, line: string): State {
    match numbers.stoulHex(line)
    case Some(n) => s.(expectedChunkSize := n, finished := n == 0)
    case None => s.(failed := true)
  }

  // ---------------------------------------------------------------------------------------------
  // The simple form: one step at a time
  // ---------------------------------------------------------------------------------------------

  /** One line, one byte of a chunk, or the end of a chunk; none when more input is needed. */
  function Step(numbers: Numbers, s: State): (t: Option<State>)
    ensures t.Some? ==> |t.value.responseData| < |s.responseData|
  {
    var data := s.responseData;
    if s.finished || s.failed then None
    else if !s.parsedHeaders then
      match FindCrlf(data)
      case None => None
      case Some(i) => Some(Line(numbers, s.(responseData := data[i + 2..]), data[..i]))
    else if !s.chunked then None
    else if s.expectedChunkSize > 0 then
      if data == "" then None else Some(TakeBytes(s, 1))
    else if s.removeCrlfAfterChunk then
      if |data| < 2 then None else Some(s.(removeCrlfAfterChunk := false, responseData := data[2..]))
    else
      match FindCrlf(data)
      case None => None
      case Some(i) => Some(SizeLine(numbers, s.(responseData := data[i + 2..]), data[..i]))
  }

  function TakeBytes(s: State, n: nat): State
    requires n <= |s.responseData| && n <= s.expectedChunkSize
  {
    s.(response := s.response.(body := s.response.body + s.responseData[..n]), responseData := s.responseData[n..],
       expectedChunkSize := s.expectedChunkSize - n,
       removeCrlfAfterChunk := s.removeCrlfAfterChunk || s.expectedChunkSize == n)
  }

  /** All steps that the received bytes allow. */
  function Drain(numbers: Numbers, s: State): State
    decreases |s.responseData|
  {
    match Step(numbers, s)
    case None => s
    case Some(t) => Drain(numbers, t)
  }

  /** A body that is not chunked takes all bytes, and ends when it is long enough. */
  function Settle(s: State): State {
    if s.parsedHeaders && !s.chunked && !s.failed then
      var body := s.response.body + s.responseData;
      s.(response := s.response.(body := body), responseData := "",
         finished := s.contentLength.Some? && |body| >= s.contentLength.value)
    else s
  }

  function Append(s: State, piece: string): State {
    s.(responseData := s.responseData + piece)
  }

  /** What one received piece does; nothing is received any more once the response is complete. */
  function Feed(numbers: Numbers, s: State, piece: string): State {
    if s.finished || s.failed then s else Settle(Drain(numbers, Append(s, piece)))
  }

  function FeedAll(numbers: Numbers, s: State, pieces: seq<string>): State
    decreases |pieces|
  {
    if pieces == [] then s else FeedAll(numbers, Feed(numbers, s, pieces[0]), pieces[1..])
  }

  function Joined(pieces: seq<string>): string {
    if pieces == [] then "" else pieces[0] + Joined(pieces[1..])
  }

  // ---------------------------------------------------------------------------------------------
  // Splitting the response
  // ---------------------------------------------------------------------------------------------

  lemma {:induction false} CrlfStays(s: string, more: string)
    requires FindCrlf(s).Some?
    ensures FindCrlf(s + more) == FindCrlf(s)
    decreases |s|
  {
    if !(s[0] == '\r' && s[1] == '\n') {
      CrlfStays(s[1..], more);
      assert (s + more)[1..] == s[1..] + more;
    }
  }

  lemma CutStays(data: string, more: string, n: nat)
    requires n <= |data|
    ensures (data + more)[n..] == data[n..] + more && (data + more)[..n] == data[..n]
  {
  }

  lemma ObeyStays(s: State, meaning: Meaning, more: string)
    ensures Obey(Append(s, more), meaning) == Append(Obey(s, meaning), more)
  {
    match meaning
    case Nothing =>
    case Status(n) =>
    case Length(k) =>
    case Chunked =>
    case Throws =>
  }

  /** A line means the same whatever has been received after it. */
  lemma LineStays(numbers: Numbers, s: State, line: string, more: string)
    ensures Line(numbers, Append(s, more), line) == Append(Line(numbers, s, line), more)
  {
    if s.firstLine {
      ObeyStays(s.(firstLine := false), StatusOf(numbers, Parts(line, 0)), more);
    } else {
      ObeyStays(s.(response := s.response.(headers := s.response.headers + [line])), HeaderLine(numbers, line), more);
    }
  }

  lemma HeaderStepStays(numbers: Numbers, s: State, more: string)
    requires Step(numbers, s).Some? && !s.parsedHeaders
    ensures Step(numbers, Append(s, more)) == Some(Append(Step(numbers, s).value, more))
  {
    var i := FindCrlf(s.responseData).value;
    CrlfStays(s.responseData, more);
    CutStays(s.responseData, more, i);
    CutStays(s.responseData, more, i + 2);
    LineStays(numbers, s.(responseData := s.responseData[i + 2..]), s.responseData[..i], more);
  }

  lemma DataStepStays(numbers: Numbers, s: State, more: string)
    requires Step(numbers, s).Some? && s.parsedHeaders && s.expectedChunkSize > 0
    ensures Step(numbers, Append(s, more)) == Some(Append(Step(numbers, s).value, more))
  {
    CutStays(s.responseData, more, 1);
  }

  lemma SizeStepStays(numbers: Numbers, s: State, more: string)
    requires Step(numbers, s).Some? && s.parsedHeaders && s.expectedChunkSize == 0
    ensures Step(numbers, Append(s, more)) == Some(Append(Step(numbers, s).value, more))
  {
    if s.removeCrlfAfterChunk {
      CutStays(s.responseData, more, 2);
    } else {
      var i := FindCrlf(s.responseData).value;
      CrlfStays(s.responseData, more);
      CutStays(s.responseData, more, i);
      CutStays(s.responseData, more, i + 2);
    }
  }

  lemma StepStays(numbers: Numbers, s: State, more: string)
    requires Step(numbers, s).Some?
    ensures Step(numbers, Append(s, more)) == Some(Append(Step(numbers, s).value, more))
  {
    if !s.parsedHeaders {
      HeaderStepStays(numbers, s, more);
    } else if s.expectedChunkSize > 0 {
      DataStepStays(numbers, s, more);
    } else {
      SizeStepStays(numbers, s, more);
    }
  }

  lemma {:induction false} DrainTogether(numbers: Numbers, s: State, more: string)
    ensures Drain(numbers, Append(s, more)) == Drain(numbers, Append(Drain(numbers, s), more))
    decreases |s.responseData|
  {
    if Step(numbers, s).Some? {
      StepStays(numbers, s, more);
      DrainTogether(numbers, Step(numbers, s).value, more);
    }
  }

  lemma {:induction false} DrainIsDone(numbers: Numbers, s: State)
    ensures Step(numbers, Drain(numbers, s)).None?
    decreases |s.responseData|
  {
    if Step(numbers, s).Some? {
      DrainIsDone(numbers, Step(numbers, s).value);
    }
  }

  /** What the caller of `send` can see. */
  predicate SameResponse(s: State, t: State) {
    s.response == t.response && s.finished == t.finished && s.failed == t.failed
  }

  /** The body is complete by its length, so what comes after it in the same piece is taken with it. */
  predicate EndsByLength(s: State) {
    s.finished && !s.chunked
  }

  lemma AppendAppend(s: State, a: string, b: string)
    ensures Append(Append(s, a), b) == Append(s, a + b)
  {
    assert (s.responseData + a) + b == s.responseData + (a + b);
  }

  lemma {:induction false} DoneStays(numbers: Numbers, s: State, more: string)
    requires s.finished || s.failed || (s.parsedHeaders && !s.chunked)
    ensures Drain(numbers, Append(s, more)) == Append(s, more)
  {
  }

  lemma {:induction false} LengthPieces(numbers: Numbers, d: State, b: string)
    requires d.parsedHeaders && !d.chunked && !d.failed && !d.finished
    ensures Settle(Drain(numbers, Append(d, b))).response == Settle(d).response.(body := Settle(d).response.body + b)
    ensures !Settle(d).finished ==> Settle(Drain(numbers, Append(Settle(d), b))) == Settle(Drain(numbers, Append(d, b)))
    ensures Settle(d).finished ==>
      Settle(Drain(numbers, Append(d, b))).finished && !Settle(Drain(numbers, Append(d, b))).failed
  {
    DoneStays(numbers, d, b);
    DoneStays(numbers, Settle(d), b);
    assert d.response.body + (d.responseData + b) == d.response.body + d.responseData + b;
  }

  /** While the response is not complete, nothing is lost by receiving it in two pieces. */
  lemma OpenPieces(numbers: Numbers, s: State, a: string, b: string)
    requires !s.finished && !s.failed && !Feed(numbers, s, a).finished && !Feed(numbers, s, a).failed
    ensures Feed(numbers, Feed(numbers, s, a), b) == Feed(numbers, s, a + b)
  {
    var d := Drain(numbers, Append(s, a));
    AppendAppend(s, a, b);
    DrainTogether(numbers, Append(s, a), b);
    DrainStaysOpen(numbers, Append(s, a));
    if d.parsedHeaders && !d.chunked {
      LengthPieces(numbers, d, b);
    } else {
      assert Settle(d) == d;
    }
  }

  /** A chunked response that is complete, or an exception, stays what it is. */
  lemma ClosedPieces(numbers: Numbers, s: State, a: string, b: string)
    requires !s.finished && !s.failed
    requires var t := Feed(numbers, s, a); t.failed || (t.finished && t.chunked)
    ensures SameResponse(Feed(numbers, s, a), Feed(numbers, s, a + b))
  {
    var d := Drain(numbers, Append(s, a));
    AppendAppend(s, a, b);
    DrainTogether(numbers, Append(s, a), b);
    DoneStays(numbers, d, b);
  }

  lemma {:induction false} DrainStaysOpen(numbers: Numbers, s: State)
    requires !s.finished
    ensures var d := Drain(numbers, s); d.finished ==> d.parsedHeaders && d.chunked
    decreases |s.responseData|
  {
    if Step(numbers, s).Some? {
      var t := Step(numbers, s).value;
      if t.finished {
        DoneStays(numbers, t, "");
        assert t.responseData + "" == t.responseData;
      } else {
        DrainStaysOpen(numbers, t);
      }
    }
  }

  /** What has been received shows a body that is not chunked, with a length that has been reached. */
  predicate LengthReached(numbers: Numbers, s: State, received: string) {
    var d := Drain(numbers, Append(s, received));
    && d.parsedHeaders && !d.chunked && !d.failed
    && d.contentLength.Some? && |d.response.body| + |d.responseData| >= d.contentLength.value
  }

  lemma {:induction false} LengthReachedEnds(numbers: Numbers, s: State, a: string)
    requires !s.finished && !s.failed
    ensures LengthReached(numbers, s, a) <==> EndsByLength(Feed(numbers, s, a))
  {
    DrainStaysOpen(numbers, Append(s, a));
  }

  /** After a body that has reached its length nothing is received, but what comes in the same piece is taken. */
  lemma {:induction false} SurplusIsTaken(numbers: Numbers, s: State, a: string, b: string)
    requires !s.finished && !s.failed && LengthReached(numbers, s, a)
    ensures var t := Feed(numbers, s, a);
      Feed(numbers, t, b) == t && Feed(numbers, s, a + b).response == t.response.(body := t.response.body + b)
  {
    LengthReachedEnds(numbers, s, a);
    DrainStaysOpen(numbers, Append(s, a));
    AppendAppend(s, a, b);
    DrainTogether(numbers, Append(s, a), b);
    LengthPieces(numbers, Drain(numbers, Append(s, a)), b);
  }

  /** Receiving two pieces gives the same response as receiving them at once exactly when the first one does not
      already reach the length of a body, or the second one is empty. */
  lemma {:induction false} TwoPieces(numbers: Numbers, s: State, a: string, b: string)
    requires !s.finished && !s.failed
    ensures SameResponse(Feed(numbers, Feed(numbers, s, a), b), Feed(numbers, s, a + b))
      <==> !LengthReached(numbers, s, a) || b == ""
  {
    var t := Feed(numbers, s, a);
    LengthReachedEnds(numbers, s, a);
    if LengthReached(numbers, s, a) {
      SurplusIsTaken(numbers, s, a, b);
      assert a + "" == a;
      assert b != "" ==> |t.response.body + b| > |t.response.body|;
    } else if !t.finished && !t.failed {
      OpenPieces(numbers, s, a, b);
    } else {
      ClosedPieces(numbers, s, a, b);
    }
  }

  // A response that is longer than it says.

  lemma {:induction false} CrlfAfter(line: string, rest: string)
    requires '\r' !in line
    ensures FindCrlf(line + (CRLF + rest)) == Some(|line|)
  {
    var s := line + (CRLF + rest);
    if line != "" {
      assert s[0] == line[0] && s[1..] == line[1..] + (CRLF + rest);
      CrlfAfter(line[1..], rest);
    }
  }

  lemma {:induction false} LineRead(numbers: Numbers, s: State, line: string, rest: string)
    requires !s.parsedHeaders && !s.finished && !s.failed && '\r' !in line && s.responseData == line + (CRLF + rest)
    ensures Drain(numbers, s) == Drain(numbers, Line(numbers, s.(responseData := rest), line))
  {
    CrlfAfter(line, rest);
    assert s.responseData[..|line|] == line && s.responseData[|line| + 2..] == rest;
  }

  lemma {:induction false} NameEnds(name: string, value: string, i: nat)
    requires ':' !in name && i <= |name|
    ensures Find(name + ([':'] + value), ':', i) == |name|
    decreases |name| - i
  {
    var s := name + ([':'] + value);
    if i < |name| {
      assert s[i] == name[i];
      NameEnds(name, value, i + 1);
    }
  }

  lemma {:induction false} LengthHeader(numbers: Numbers, digit: char, k: nat)
    requires !IsSpace(digit) && numbers.stoul([digit]) == Some(k)
    ensures HeaderLine(numbers, CONTENT_LENGTH + ([':'] + [digit])) == Length(k)
  {
    var line := CONTENT_LENGTH + ([':'] + [digit]);
    NameEnds(CONTENT_LENGTH, [digit], 0);
    assert line[..|CONTENT_LENGTH|] == CONTENT_LENGTH && line[|CONTENT_LENGTH| + 1..] == [digit];
    assert TrimRight(TrimLeft([digit])) == [digit];
  }

  lemma {:induction false} OneWord(word: string)
    requires |word| == 1 && word[0] != ' '
    ensures Parts(word, 0) == [word]
  {
    assert Find(word, ' ', 1) == 1 && Find(word, ' ', 0) == 1;
    assert Parts(word, 2) == [] && word[0..1] == word;
  }

  lemma {:induction false} StatusRead(numbers: Numbers, s: State, word: string, rest: string)
    requires !s.parsedHeaders && !s.finished && !s.failed && s.firstLine && |word| == 1 && word[0] != ' ' &&
      word[0] != '\r'
    requires s.responseData == word + (CRLF + rest)
    ensures Drain(numbers, s) == Drain(numbers, s.(responseData := rest, firstLine := false))
  {
    LineRead(numbers, s, word, rest);
    OneWord(word);
  }

  lemma {:induction false} LengthRead(numbers: Numbers, s: State, digit: char, k: nat, rest: string)
    requires !s.parsedHeaders && !s.finished && !s.failed && !s.firstLine && !IsSpace(digit) &&
      numbers.stoul([digit]) == Some(k)
    requires s.responseData == (CONTENT_LENGTH + ([':'] + [digit])) + (CRLF + rest)
    ensures Drain(numbers, s) == Drain(numbers, s.(responseData := rest, contentLength := Some(k),
      response := s.response.(headers := s.response.headers + [CONTENT_LENGTH + ([':'] + [digit])])))
  {
    var line := CONTENT_LENGTH + ([':'] + [digit]);
    LineRead(numbers, s, line, rest);
    LengthHeader(numbers, digit, k);
  }

  lemma {:induction false} EndRead(numbers: Numbers, s: State, rest: string)
    requires !s.parsedHeaders && !s.finished && !s.failed && !s.chunked && s.responseData == CRLF + rest
    ensures Drain(numbers, s) == s.(responseData := rest, parsedHeaders := true)
  {
    assert "" + (CRLF + rest) == CRLF + rest;
    LineRead(numbers, s, "", rest);
  }

  /** For example, a response of one byte is longer when another byte comes in the same piece. */
  lemma {:induction false} LongerThanItSays(numbers: Numbers) returns (a: string, b: string)
    requires numbers.stoul(['1']) == Some(1)
    ensures Feed(numbers, Feed(numbers, Start(), a), b).response.body == ['x']
    ensures Feed(numbers, Start(), a + b).response.body == ['x', 'y']
  {
    var header, end := CONTENT_LENGTH + ([':'] + ['1']), CRLF + ['x'];
    a, b := ['H'] + (CRLF + (header + (CRLF + end))), ['y'];
    var s0 := Start().(responseData := a);
    var s1 := s0.(responseData := header + (CRLF + end), firstLine := false);
    var s2 := s1.(responseData := end, contentLength := Some(1), response := s1.response.(headers := [] + [header]));
    StatusRead(numbers, s0, ['H'], header + (CRLF + end));
    LengthRead(numbers, s1, '1', 1, end);
    EndRead(numbers, s2, ['x']);
    OneByteBody(numbers, a, b, s2.(responseData := ['x'], parsedHeaders := true));
  }

  lemma {:induction false} OneByteBody(numbers: Numbers, a: string, b: string, d: State)
    requires Drain(numbers, Start().(responseData := a)) == d && d.parsedHeaders && !d.chunked && !d.failed
    requires d.contentLength == Some(1) && d.responseData == ['x'] && d.response.body == "" && b == ['y']
    ensures Feed(numbers, Feed(numbers, Start(), a), b).response.body == ['x']
    ensures Feed(numbers, Start(), a + b).response.body == ['x', 'y']
  {
    assert "" + a == a && "" + ['x'] == ['x'] && ['x'] + ['y'] == ['x', 'y'];
    SurplusIsTaken(numbers, Start(), a, b);
  }

  lemma {:induction false} FeedAllIsDone(numbers: Numbers, s: State, pieces: seq<string>)
    requires s.finished || s.failed
    ensures FeedAll(numbers, s, pieces) == s
    decreases |pieces|
  {
    if pieces != [] {
      FeedAllIsDone(numbers, s, pieces[1..]);
    }
  }

  /** However a response is split, the result is that of receiving it at once, unless its body ends by its length. */
  lemma {:induction false} AnySplit(numbers: Numbers, s: State, pieces: seq<string>)
    requires !s.finished && !s.failed && pieces != [] && !LengthReached(numbers, s, Joined(pieces))
    ensures SameResponse(FeedAll(numbers, s, pieces), Feed(numbers, s, Joined(pieces)))
    decreases |pieces|
  {
    var t, rest := Feed(numbers, s, pieces[0]), pieces[1..];
    if rest == [] {
      assert Joined(rest) == "" && pieces[0] + "" == pieces[0];
    } else if !t.finished && !t.failed {
      OpenPieces(numbers, s, pieces[0], Joined(rest));
      LengthReachedEnds(numbers, s, Joined(pieces));
      LengthReachedEnds(numbers, t, Joined(rest));
      AnySplit(numbers, t, rest);
    } else {
      FeedAllIsDone(numbers, t, rest);
      if EndsByLength(t) {
        LengthStays(numbers, s, pieces[0], Joined(rest));
      } else {
        ClosedPieces(numbers, s, pieces[0], Joined(rest));
      }
    }
  }

  lemma {:induction false} LengthStays(numbers: Numbers, s: State, a: string, b: string)
    requires !s.finished && !s.failed && EndsByLength(Feed(numbers, s, a))
    ensures LengthReached(numbers, s, a + b)
  {
    LengthReachedEnds(numbers, s, a);
    DrainStaysOpen(numbers, Append(s, a));
    AppendAppend(s, a, b);
    DrainTogether(numbers, Append(s, a), b);
    DoneStays(numbers, Drain(numbers, Append(s, a)), b);
  }

  // ---------------------------------------------------------------------------------------------
  // Well-formed chunked responses
  // ---------------------------------------------------------------------------------------------

  /** A chunk with its size line, which may hold extensions that the conversion ignores. */
  datatype Chunk = Chunk(line: string, data: string)

  predicate IsChunk(numbers: Numbers, c: Chunk) {
    FindCrlf(c.line + CRLF) == Some(|c.line|) && numbers.stoulHex(c.line) == Some(|c.data|)
  }

  function ChunksText(chunks: seq<Chunk>): string {
    if chunks == [] then "" else chunks[0].line + CRLF + chunks[0].data + CRLF + ChunksText(chunks[1..])
  }

  function ChunksData(chunks: seq<Chunk>): string {
    if chunks == [] then "" else chunks[0].data + ChunksData(chunks[1..])
  }

  /** At the start of a size line. */
  predicate AtSize(s: State) {
    !s.finished && !s.failed && s.parsedHeaders && s.chunked && s.expectedChunkSize == 0 && !s.removeCrlfAfterChunk
  }

  lemma DrainSize(numbers: Numbers, s: State, c: Chunk, rest: string)
    requires AtSize(s) && s.responseData == c.line + CRLF + rest && IsChunk(numbers, c)
    ensures Drain(numbers, s) == Drain(numbers, s.(responseData := rest, expectedChunkSize := |c.data|,
      finished := c.data == ""))
  {
    CrlfStays(c.line + CRLF, rest);
    assert s.responseData[..|c.line|] == c.line && s.responseData[|c.line| + 2..] == rest;
  }

  /** Taking a run of bytes at once is the same as taking them one by one. */
  lemma {:induction false} DrainRun(numbers: Numbers, s: State, n: nat)
    requires !s.finished && !s.failed && s.parsedHeaders && s.chunked && n <= s.expectedChunkSize &&
      n <= |s.responseData|
    requires n > 0 || s.expectedChunkSize > 0
    ensures Drain(numbers, s) == Drain(numbers, TakeBytes(s, n))
    decreases n
  {
    if n == 0 {
      assert s.response.body + s.responseData[..0] == s.response.body && s.responseData[0..] == s.responseData;
    } else if n > 1 {
      var t := TakeBytes(s, 1);
      DrainRun(numbers, t, n - 1);
      TakenTwice(s, 1, n - 1);
    }
  }

  lemma TakenTwice(s: State, a: nat, b: nat)
    requires a + b <= s.expectedChunkSize && a + b <= |s.responseData| && b > 0
    ensures TakeBytes(TakeBytes(s, a), b) == TakeBytes(s, a + b)
  {
    var d := s.responseData;
    assert d[a..][..b] == d[a..a + b] && d[a..][b..] == d[a + b..] && d[..a] + d[a..a + b] == d[..a + b];
    assert (s.response.body + d[..a]) + d[a..a + b] == s.response.body + (d[..a] + d[a..a + b]);
  }

  lemma {:induction false} DrainChunk(numbers: Numbers, s: State, c: Chunk, rest: string)
    requires AtSize(s) && s.responseData == c.line + CRLF + (c.data + (CRLF + rest)) && IsChunk(numbers, c) &&
      c.data != ""
    ensures Drain(numbers, s) == Drain(numbers, s.(responseData := rest,
      response := s.response.(body := s.response.body + c.data)))
  {
    var after := c.data + (CRLF + rest);
    DrainSize(numbers, s, c, after);
    var t := s.(responseData := after, expectedChunkSize := |c.data|);
    DrainRun(numbers, t, |c.data|);
    assert after[..|c.data|] == c.data && after[|c.data|..] == CRLF + rest;
    var u := TakeBytes(t, |c.data|);
    assert (CRLF + rest)[2..] == rest && u.removeCrlfAfterChunk && u.expectedChunkSize == 0;
    assert Step(numbers, u) == Some(u.(removeCrlfAfterChunk := false, responseData := rest));
  }

  lemma {:induction false} FirstChunkText(chunks: seq<Chunk>, tail: string)
    requires chunks != []
    ensures ChunksText(chunks) + tail == chunks[0].line + CRLF +
      (chunks[0].data + (CRLF + (ChunksText(chunks[1..]) + tail)))
  {
  }

  /** The body gains the data of the chunks, and the response is complete. */
  predicate Gains(s: State, d: State, data: string) {
    d.finished && !d.failed && d.chunked && d.response == s.response.(body := s.response.body + data)
  }

  lemma {:induction false} DrainLast(numbers: Numbers, s: State, last: Chunk, rest: string)
    requires AtSize(s) && s.responseData == "" + (last.line + CRLF + rest) && IsChunk(numbers, last) && last.data == ""
    ensures Gains(s, Drain(numbers, s), "")
  {
    assert s.responseData == last.line + CRLF + rest && s.response.body + "" == s.response.body;
    DrainSize(numbers, s, last, rest);
  }

  lemma GainsMore(s: State, t: State, d: State, a: string, b: string)
    requires t.response == s.response.(body := s.response.body + a) && Gains(t, d, b)
    ensures Gains(s, d, a + b)
  {
    assert (s.response.body + a) + b == s.response.body + (a + b);
  }

  lemma {:induction false} DrainChunks(numbers: Numbers, s: State, chunks: seq<Chunk>, last: Chunk, rest: string,
                                       tail: string)
    requires AtSize(s) && s.responseData == ChunksText(chunks) + tail && tail == last.line + CRLF + rest
    requires forall i :: 0 <= i < |chunks| ==> IsChunk(numbers, chunks[i]) && chunks[i].data != ""
    requires IsChunk(numbers, last) && last.data == ""
    ensures Gains(s, Drain(numbers, s), ChunksData(chunks))
    decreases |chunks|
  {
    if chunks == [] {
      DrainLast(numbers, s, last, rest);
    } else {
      var c, more := chunks[0], ChunksText(chunks[1..]) + tail;
      FirstChunkText(chunks, tail);
      DrainChunk(numbers, s, c, more);
      var t := s.(responseData := more, response := s.response.(body := s.response.body + c.data));
      DrainChunks(numbers, t, chunks[1..], last, rest, tail);
      GainsMore(s, t, Drain(numbers, t), c.data, ChunksData(chunks[1..]));
    }
  }

  /** After headers that announce chunks, every split of a well-formed chunked response gives the status and
      headers that the head gives, and as body the concatenation of the chunk data. */
  lemma {:induction false} ChunkedResponse(numbers: Numbers, head: string, chunks: seq<Chunk>, last: Chunk,
                                           rest: string, pieces: seq<string>)
    requires var s := Drain(numbers, Append(Start(), head)); AtSize(s) && s.responseData == ""
    requires forall i :: 0 <= i < |chunks| ==> IsChunk(numbers, chunks[i]) && chunks[i].data != ""
    requires IsChunk(numbers, last) && last.data == ""
    requires pieces != [] && Joined(pieces) == head + (ChunksText(chunks) + (last.line + CRLF + rest))
    ensures var s, r := Drain(numbers, Append(Start(), head)), FeedAll(numbers, Start(), pieces);
      r.finished && !r.failed && r.response == s.response.(body := s.response.body + ChunksData(chunks))
  {
    var body := ChunksText(chunks) + (last.line + CRLF + rest);
    var s := Drain(numbers, Append(Start(), head));
    AppendAppend(Start(), head, body);
    DrainTogether(numbers, Append(Start(), head), body);
    assert "" + body == body;
    DrainChunks(numbers, Append(s, body), chunks, last, rest, last.line + CRLF + rest);
    AnySplit(numbers, Start(), pieces);
  }

  // ---------------------------------------------------------------------------------------------
  // The reader
  // ---------------------------------------------------------------------------------------------

  class Client {
    const numbers: Numbers
    var responseData: string
    var response: Response
    var firstLine: bool
    var parsedHeaders: bool
    var contentLength: Option<nat>
    var chunked: bool
    var expectedChunkSize: nat
    var removeCrlfAfterChunk: bool
    var failed: bool

    function Now(finished: bool): State
      reads this
    {
      State(responseData, response, firstLine, parsedHeaders, contentLength, chunked, expectedChunkSize,
        removeCrlfAfterChunk,
            finished, failed)
    }

    constructor (numbers: Numbers)
      ensures this.numbers == numbers && Now(false) == Start()
    {
      this.numbers := numbers;
      responseData, response, firstLine, parsedHeaders := "", Response(0, [], ""), true, false;
      contentLength, chunked, expectedChunkSize, removeCrlfAfterChunk, failed := None, false, 0, false, false;
    }

    method ObeyLine(meaning: Meaning)
      modifies this
      ensures Now(false) == Obey(old(Now(false)), meaning)
    {
      match meaning
      case Nothing =>
      case Status(n) => response := response.(status := n);
      case Length(k) => contentLength := Some(k);
      case Chunked => chunked := true;
      case Throws => failed := true;
    }

    /** The first line of the response, split at its spaces. */
    method Tokenize(line: string) returns (parts: seq<string>)
      ensures parts == Parts(line, 0)
    {
      var lastPos := 0;
      parts := [];
      ghost var left := Parts(line, 0);
      ghost var whole := left;
      assert whole == parts + left;
      while lastPos < |line| + 1
        invariant 0 <= lastPos <= |line| + 1
        invariant left == Parts(line, lastPos) && whole == parts + left
      {
        parts, lastPos, left := NextPart(line, lastPos, parts, left, whole);
      }
      assert left == [];
    }

    method NextPart(line: string, lastPos: nat, parts: seq<string>, ghost left: seq<string>, ghost whole: seq<string>)
      returns (more: seq<string>, next: nat, ghost rest: seq<string>)
      requires lastPos <= |line| && left == Parts(line, lastPos) && whole == parts + left
      ensures lastPos < next <= |line| + 1 && rest == Parts(line, next) && whole == more + rest
    {
      var pos := Find(line, ' ', lastPos);
      more, next := parts, pos + 1;
      rest := Parts(line, next);
      ghost var word := WordAt(line, lastPos, pos);
      PartsSplit(line, lastPos, left, word, rest);
      WordMoves(parts, word, rest, left);
      if pos != lastPos {
        more := more + [line[lastPos..pos]];
      }
    }

    /** Takes a line off the received bytes. */
    method TakeLine() returns (line: Option<string>)
      modifies this
      ensures match FindCrlf(old(responseData))
              case None => line == None && Now(false) == old(Now(false))
              case Some(i) =>
                line == Some(old(responseData)[..i]) &&
                Now(false) == old(Now(false)).(responseData := old(responseData)[i + 2..])
    {
      var i := FindCrlf(responseData);
      if i == None {
        return None;
      }
      line := Some(responseData[..i.value]);
      responseData := responseData[i.value + 2..];
    }

    /** One header line; false when no whole line has been received. */
    method TakeHeaderLine() returns (taken: bool)
      requires !parsedHeaders && !failed
      modifies this
      ensures taken ==> Step(numbers, old(Now(false))) == Some(Now(false))
      ensures !taken ==> Step(numbers, old(Now(false))) == None && Now(false) == old(Now(false))
    {
      var line := TakeLine();
      if line == None {
        return false;
      }
      taken := true;
      if line.value == "" {
        parsedHeaders := true;
      } else if firstLine {
        firstLine := false;
        var parts := Tokenize(line.value);
        ObeyLine(StatusOf(numbers, parts));
      } else {
        response := response.(headers := response.headers + [line.value]);
        ObeyLine(HeaderLine(numbers, line.value));
      }
    }

    /** The loop over header lines. */
    method ReadHeaders()
      requires !parsedHeaders && !failed
      modifies this
      ensures Drain(numbers, old(Now(false))) == Drain(numbers, Now(false))
      ensures parsedHeaders || failed || Step(numbers, Now(false)).None?
    {
      ghost var start := Now(false);
      var taken := true;
      while taken && !parsedHeaders && !failed
        invariant Drain(numbers, start) == Drain(numbers, Now(false))
        invariant taken || parsedHeaders || failed || Step(numbers, Now(false)).None?
        decreases taken, |responseData|
      {
        taken := TakeHeaderLine();
      }
    }

    /** The line with the size of the next chunk; false when more has to be received or the conversion throws. */
    method TakeSizeLine() returns (taken: bool, last: bool)
      requires AtSize(Now(false))
      modifies this
      ensures Drain(numbers, old(Now(false))) == Drain(numbers, Now(last))
      ensures !taken || last ==> Drain(numbers, Now(last)) == Now(last)
      ensures taken ==> parsedHeaders && chunked && !failed && |responseData| < |old(responseData)|
      ensures chunked && (!taken ==> !last)
    {
      var line := TakeLine();
      if line == None {
        return false, false;
      }
      match numbers.stoulHex(line.value)
      case None =>
        failed := true;
        return false, false;
      case Some(n) =>
        expectedChunkSize := n;
        return true, n == 0;
    }

    /** The two bytes after a chunk; false when they have not been received yet. */
    method RemoveCrlf() returns (removed: bool)
      requires parsedHeaders && chunked && !failed && expectedChunkSize == 0
      modifies this
      ensures Drain(numbers, old(Now(false))) == Drain(numbers, Now(false))
      ensures chunked && if removed then AtSize(Now(false)) else Drain(numbers, Now(false)) == Now(false)
      ensures |responseData| <= |old(responseData)|
    {
      if !removeCrlfAfterChunk {
        return true;
      }
      if |responseData| < 2 {
        return false;
      }
      ghost var before := Now(false);
      removeCrlfAfterChunk := false;
      responseData := responseData[2..];
      assert Step(numbers, before) == Some(Now(false));
      removed := true;
    }

    /** The loop over chunks; whether the last one has been seen. */
    method ReadChunks() returns (dataReceived: bool)
      requires parsedHeaders && chunked && !failed
      modifies this
      ensures chunked && Drain(numbers, old(Now(false))) == Now(dataReceived)
    {
      ghost var start := Now(false);
      while true
        invariant parsedHeaders && chunked && !failed && Drain(numbers, start) == Drain(numbers, Now(false))
        decreases |responseData|, if expectedChunkSize > 0 then 1 else 0
      {
        if expectedChunkSize > 0 {
          TakeRun();
          if responseData == "" {
            return false;
          }
        } else {
          var removed := RemoveCrlf();
          if !removed {
            return false;
          }
          var taken;
          taken, dataReceived := TakeSizeLine();
          if !taken || dataReceived {
            return;
          }
        }
      }
    }

    method TakeRun()
      requires parsedHeaders && chunked && !failed && expectedChunkSize > 0
      modifies this
      ensures parsedHeaders && chunked && !failed && Drain(numbers, old(Now(false))) == Drain(numbers, Now(false))
      ensures responseData == "" || (expectedChunkSize == 0 && |responseData| < |old(responseData)|)
      ensures responseData == "" ==> Drain(numbers, Now(false)) == Now(false)
    {
      var toWrite := if expectedChunkSize < |responseData| then expectedChunkSize else |responseData|;
      DrainRun(numbers, Now(false), toWrite);
      response := response.(body := response.body + responseData[..toWrite]);
      responseData := responseData[toWrite..];
      expectedChunkSize := expectedChunkSize - toWrite;
      if expectedChunkSize == 0 {
        removeCrlfAfterChunk := true;
      }
    }

    /** What happens after each `recv`; whether the response is complete. */
    method Receive(piece: string) returns (finished: bool)
      requires !failed
      modifies this
      ensures Now(finished) == Feed(numbers, old(Now(false)), piece)
    {
      responseData := responseData + piece;
      finished := false;
      ghost var start := Append(old(Now(false)), piece);
      assert Now(false) == start;
      if !parsedHeaders {
        ReadHeaders();
        assert Drain(numbers, start) == Drain(numbers, Now(false));
        if failed {
          return;
        }
      }
      if parsedHeaders {
        if chunked {
          finished := ReadChunks();
        } else {
          ghost var drained := Now(false);
          assert Drain(numbers, start) == drained;
          response := response.(body := response.body + responseData);
          responseData := "";
          finished := contentLength.Some? && |response.body| >= contentLength.value;
          assert Now(finished) == Settle(drained);
        }
      }
    }
  }
}
