/**
 * Reading a request from a connection: the line reader of cores/arduino/httpserver/httpd_sys.c,
 * the header parser of http_parse.c, and `httpd_purge_headers` and `httpd_get_data` of httpd_wsgi.c.
 */
module HttpHeaders {
  import opened Memory
  import opened Wrappers
  import NT = NumberText
  import C = Chunked

  // --- Lines ---------------------------------------------------------------------------------------

  predicate Newline(c: byte) {
    c == 10 || c == 13
  }

  datatype Line = Line(text: seq<byte>, rest: seq<byte>)

  /**
   * What the line reader takes from `input`: bytes up to a newline character, which is dropped
   * together with the byte behind it, or until `room` bytes are there.
   */
  function GetLine(input: seq<byte>, room: nat): (l: Line)
    requires room > 0
    ensures |l.text| <= room && |l.rest| <= |input| && (input != [] ==> |l.rest| < |input|)
  {
    if input == [] then Line([], [])
    else if Newline(input[0]) then Line([], if |input| == 1 then [] else input[2..])
    else if room == 1 then Line([input[0]], input[1..])
    else
      var l := GetLine(input[1..], room - 1);
      Line([input[0]] + l.text, l.rest)
  }

  // --- Header fields -------------------------------------------------------------------------------

  /** The fields of a request that its header lines fill in. */
  datatype Head = Head(body: int, remaining: int, chunked: bool, ifNoneMatch: bool, etag: nat, contentType: seq<byte>)

  function Lower(c: byte): byte {
    if 65 <= c <= 90 then c + 32 else c
  }

  /** `strncasecmp(s, prefix, |prefix|) == 0`. */
  predicate StartsWith(s: seq<byte>, prefix: seq<byte>) {
    |prefix| <= |s| && forall i :: 0 <= i < |prefix| ==> Lower(s[i]) == Lower(prefix[i])
  }

  /** "Content-Length: " */
  const CONTENT_LENGTH: seq<byte> := [67, 111, 110, 116, 101, 110, 116, 45, 76, 101, 110, 103, 116, 104, 58, 32]
  /** "Content-Type: " */
  const CONTENT_TYPE: seq<byte> := [67, 111, 110, 116, 101, 110, 116, 45, 84, 121, 112, 101, 58, 32]
  /** "Transfer-Encoding: " */
  const TRANSFER_ENCODING: seq<byte> :=
    [84, 114, 97, 110, 115, 102, 101, 114, 45, 69, 110, 99, 111, 100, 105, 110, 103, 58, 32]
  /** "If-None-Match" */
  const IF_NONE_MATCH: seq<byte> := [73, 102, 45, 78, 111, 110, 101, 45, 77, 97, 116, 99, 104]
  /** "chunked" */
  const CHUNKED: seq<byte> := [99, 104, 117, 110, 107, 101, 100]

  /** `atol` on unbounded integers. */
  function Atol(s: seq<byte>): int {
    if s == [] then 0
    else if s[0] == 32 || 9 <= s[0] <= 13 then Atol(s[1..])
    else if s[0] == 45 then 0 - Digits(s[1..], 0)
    else if s[0] == 43 then Digits(s[1..], 0)
    else Digits(s, 0)
  }

  function Digits(s: seq<byte>, value: nat): nat {
    if s == [] || !(48 <= s[0] <= 57) then value else Digits(s[1..], 10 * value + (s[0] - 48))
  }

  /** `strtol(s, NULL, 16)` with its limits of 32 bits, stored as an unsigned number. */
  function HexLong(s: seq<byte>): (n: nat)
    ensures n < 0x1_0000_0000
  {
    if s == [] then 0
    else if s[0] == 32 || 9 <= s[0] <= 13 then HexLong(s[1..])
    else if s[0] == 45 then
      var n := HexDigits(s[1..]);
      if n == 0 then 0 else if n > 0x8000_0000 then 0x8000_0000 else 0x1_0000_0000 - n
    else
      var n := HexDigits(if s[0] == 43 then s[1..] else s);
      if n > 0x7fff_ffff then 0x7fff_ffff else n
  }

  /** Hexadecimal digits, which may have "0x" in front. */
  function HexDigits(s: seq<byte>): nat {
    if |s| > 2 && s[0] == 48 && (s[1] == 120 || s[1] == 88) && HexDigit(s[2]) != -1 then C.ReadHex(s[2..], 0).value
    else C.ReadHex(s, 0).value
  }

  /** What follows the first quote. */
  function Quoted(s: seq<byte>): Option<seq<byte>> {
    if s == [] then None else if s[0] == 34 then Some(s[1..]) else Quoted(s[1..])
  }

  /**
   * The whole length of a Content-Type line, not just that of its value, is copied from behind
   * the field's name into 128 bytes, out of a buffer of `room + 1`.
   */
  predicate ContentTypeFits(s: seq<byte>, room: nat) {
    |s| <= 128 && |s| + 14 <= room + 1
  }

  /** A tag written in hexadecimal is read back exactly if it is below 2^31; larger ones are capped. */
  lemma EtagReadExactly(n: nat, more: seq<byte>)
    requires n < 0x1_0000_0000
    ensures HexLong(C.Hex(n) + ([34] + more)) == n <==> n <= 0x7fff_ffff
  {
    var s := C.Hex(n) + ([34] + more);
    C.HexIsRead(n, [34] + more);
    assert HexDigit(C.Hex(n)[0]) != -1;
    if |C.Hex(n)| > 1 {
      assert HexDigit(C.Hex(n)[1]) != -1;
      assert s[1] == C.Hex(n)[1];
    }
    hide C.Hex, C.ReadHex;
  }

  /** An If-None-Match without a quote, a copy beyond a buffer, or the new fields. */
  datatype FieldResult = Rejected | TooLong | Set(head: Head)

  /** One non-empty header line. */
  function Field(line: seq<byte>, room: nat, h: Head): FieldResult {
    var s := CStr(line);
    if StartsWith(s, CONTENT_LENGTH) then
      var n := Atol(s[|CONTENT_LENGTH|..]);
      Set(if n == 0 then h.(body := 0) else h.(body := n, remaining := n))
    else if StartsWith(s, CONTENT_TYPE) then
      if ContentTypeFits(s, room) then Set(h.(contentType := s[|CONTENT_TYPE|..])) else TooLong
    else if StartsWith(s, IF_NONE_MATCH) then
      match Quoted(s)
      case None => Rejected
      case Some(tag) => Set(h.(ifNoneMatch := true, etag := HexLong(tag)))
    else if StartsWith(s, TRANSFER_ENCODING) && StartsWith(s[|TRANSFER_ENCODING|..], CHUNKED) then
      Set(h.(chunked := true))
    else Set(h)
  }

  /** How the headers end: well, with an error, or with a copy beyond a buffer. */
  datatype Outcome = Done | Failed | Overrun

  /** The fields after all header lines, and where the input goes on. */
  datatype Parsed = Parsed(head: Head, rest: seq<byte>, outcome: Outcome)

  predicate EndsHeaders(line: seq<byte>) {
    line == [] || line[0] == 0
  }

  function ParseHeaders(input: seq<byte>, room: nat, h: Head): Parsed
    requires room > 0
    decreases |input|
  {
    var l := GetLine(input, room);
    if EndsHeaders(l.text) then Parsed(h, l.rest, Done)
    else
      match Field(l.text, room, h)
      case Rejected => Parsed(h, l.rest, Failed)
      case TooLong => Parsed(h, l.rest, Overrun)
      case Set(h') => ParseHeaders(l.rest, room, h')
  }

  lemma {:induction false} DigitsValue(d: seq<byte>, value: nat)
    requires NT.Digits(d)
    ensures Digits(d, value) == NT.ValueFrom(d, value)
  {
    if d != [] {
      DigitsValue(d[1..], 10 * value + (d[0] - 48));
    }
  }

  /** A Content-Length line with a decimal number announces that many bytes. */
  lemma ContentLengthLine(n: nat, room: nat, h: Head)
    requires n > 0
    ensures Field(CONTENT_LENGTH + NT.Numeral(n, 10), room, h) == Set(h.(body := n, remaining := n))
  {
    var d := NT.Numeral(n, 10);
    var line := CONTENT_LENGTH + d;
    NT.NumeralMeans(n);
    DigitsValue(d, 0);
    AtolDigits(d);
    hide NT.Numeral, NT.ValueFrom, NT.SumsFit, Atol;
    NulFreeLine(d);
    CStrAll(line);
    FieldLength(line, d, room, h);
  }

  lemma AtolDigits(d: seq<byte>)
    requires NT.Digits(d) && d != []
    ensures Atol(d) == Digits(d, 0)
  {
    assert NT.IsDigit(d[0]);
  }

  lemma NulFreeLine(d: seq<byte>)
    requires NT.Digits(d)
    ensures NulFree(CONTENT_LENGTH + d)
  {
    forall i | 0 <= i < |d| ensures d[i] != 0 {
      assert NT.IsDigit(d[i]);
    }
  }

  lemma FieldLength(line: seq<byte>, d: seq<byte>, room: nat, h: Head)
    requires line == CONTENT_LENGTH + d && CStr(line) == line && Atol(d) != 0
    ensures Field(line, room, h) == Set(h.(body := Atol(d), remaining := Atol(d)))
  {
    hide Atol;
    assert line[|CONTENT_LENGTH|..] == d;
  }

  // --- The purge automaton -------------------------------------------------------------------------

  datatype PurgeState = AnyOther | FirstCr | FirstLf | SecondCr | SecondLf

  function PurgeNext(s: PurgeState, c: byte): PurgeState {
    if c == 13 then (if s == AnyOther then FirstCr else if s == FirstLf then SecondCr else s)
    else if c == 10 then (if s == FirstCr then FirstLf else if s == SecondCr then SecondLf else s)
    else AnyOther
  }

  /** What is left of the input when the purge stops; `None` if the input ends first. */
  function Purge(input: seq<byte>, s: PurgeState): (rest: Option<seq<byte>>)
    ensures rest.Some? ==> |rest.value| < |input|
  {
    if input == [] then None
    else
      var s' := PurgeNext(s, input[0]);
      if s' == SecondLf then Some(input[1..]) else Purge(input[1..], s')
  }

  // --- Framing -------------------------------------------------------------------------------------

  /** Header lines and the empty line, then what follows. */
  function Block(lines: seq<seq<byte>>, body: seq<byte>): seq<byte> {
    if lines == [] then [13, 10] + body else lines[0] + ([13, 10] + Block(lines[1..], body))
  }

  predicate NoNewline(s: seq<byte>) {
    forall i :: 0 <= i < |s| ==> !Newline(s[i])
  }

  ghost predicate Lines(lines: seq<seq<byte>>) {
    forall i :: 0 <= i < |lines| ==> lines[i] != [] && NoNewline(lines[i])
  }

  /** The parser accepts a line of its own and does not take it for the end. */
  predicate Passes(line: seq<byte>, room: nat) {
    !EndsHeaders(line) &&
    (StartsWith(CStr(line), CONTENT_TYPE) ==> ContentTypeFits(CStr(line), room)) &&
    (StartsWith(CStr(line), IF_NONE_MATCH) ==> 34 in CStr(line))
  }

  /** What the line reader makes of a line: pieces of `room` bytes and one shorter one. */
  predicate PiecesPass(line: seq<byte>, room: nat)
    requires room > 0
  {
    if |line| < room then Passes(line, room) else Passes(line[..room], room) && PiecesPass(line[room..], room)
  }

  lemma PrefixesDiffer(s: seq<byte>)
    ensures StartsWith(s, CONTENT_LENGTH) ==> !StartsWith(s, CONTENT_TYPE) && !StartsWith(s, IF_NONE_MATCH)
    ensures StartsWith(s, CONTENT_TYPE) ==> !StartsWith(s, IF_NONE_MATCH)
  {
    assert Lower(CONTENT_LENGTH[8]) != Lower(CONTENT_TYPE[8]);
    assert Lower(CONTENT_LENGTH[0]) != Lower(IF_NONE_MATCH[0]) && Lower(CONTENT_TYPE[0]) != Lower(IF_NONE_MATCH[0]);
    if StartsWith(s, CONTENT_LENGTH) {
      assert Lower(s[0]) == Lower(CONTENT_LENGTH[0]) && Lower(s[8]) == Lower(CONTENT_LENGTH[8]);
    }
    if StartsWith(s, CONTENT_TYPE) {
      assert Lower(s[0]) == Lower(CONTENT_TYPE[0]);
    }
  }

  lemma {:induction false} QuotedIs(s: seq<byte>)
    ensures Quoted(s).Some? <==> 34 in s
  {
    if s != [] {
      QuotedIs(s[1..]);
      assert s == [s[0]] + s[1..];
    }
  }

  lemma FieldPasses(line: seq<byte>, room: nat, h: Head)
    requires !EndsHeaders(line)
    ensures Field(line, room, h).Set? <==> Passes(line, room)
    ensures Field(line, room, h).TooLong? <==>
      StartsWith(CStr(line), CONTENT_TYPE) && !ContentTypeFits(CStr(line), room)
    ensures Field(line, room, h).Rejected? <==> StartsWith(CStr(line), IF_NONE_MATCH) && 34 !in CStr(line)
  {
    PrefixesDiffer(CStr(line));
    QuotedIs(CStr(line));
    hide StartsWith, Quoted, CStr;
  }

  lemma GetLineNext(c: byte, more: seq<byte>, room: nat)
    requires room > 0 && !Newline(c)
    ensures room == 1 ==> GetLine([c] + more, room) == Line([c], more)
    ensures room > 1 ==>
      GetLine([c] + more, room) == Line([c] + GetLine(more, room - 1).text, GetLine(more, room - 1).rest)
  {
    assert ([c] + more)[1..] == more;
  }

  /**
   * The line reader on any input: every input is a text without newline characters and a `tail`
   * that is empty or starts with one.
   */
  lemma {:induction false} LineEnds(line: seq<byte>, tail: seq<byte>, room: nat)
    requires room > 0 && NoNewline(line) && (tail == [] || Newline(tail[0]))
    ensures |line| < room ==> GetLine(line + tail, room) == Line(line, if |tail| < 2 then [] else tail[2..])
    ensures |line| >= room ==> GetLine(line + tail, room) == Line(line[..room], line[room..] + tail)
  {
    if line == [] {
      assert line + tail == tail;
    } else {
      var c, more := line[0], line[1..];
      assert line == [c] + more;
      Assoc([c], more, tail);
      GetLineNext(c, more + tail, room);
      hide GetLine;
      if room > 1 {
        LineEnds(more, tail, room - 1);
        if |line| >= room {
          assert [c] + more[..room - 1] == line[..room] && more[room - 1..] == line[room..];
        }
      } else {
        assert line[..1] == [c];
      }
    }
  }

  lemma LineTaken(line: seq<byte>, more: seq<byte>, room: nat)
    requires room > 0 && NoNewline(line)
    ensures |line| < room ==> GetLine(line + ([13, 10] + more), room) == Line(line, more)
    ensures |line| >= room ==>
      GetLine(line + ([13, 10] + more), room) == Line(line[..room], line[room..] + ([13, 10] + more))
  {
    LineEnds(line, [13, 10] + more, room);
  }

  /** The fields after the pieces of one line. */
  function FieldsOf(line: seq<byte>, room: nat, h: Head): Head
    requires room > 0
  {
    var piece := if |line| < room then line else line[..room];
    var h' := match Field(piece, room, h) case Set(x) => x case _ => h;
    if |line| < room then h' else FieldsOf(line[room..], room, h')
  }

  lemma ParseStep(input: seq<byte>, room: nat, h: Head, line: seq<byte>, rest: seq<byte>)
    requires room > 0 && GetLine(input, room) == Line(line, rest)
    ensures EndsHeaders(line) ==> ParseHeaders(input, room, h) == Parsed(h, rest, Done)
    ensures !EndsHeaders(line) && !Field(line, room, h).Set? ==>
      ParseHeaders(input, room, h).rest == rest && ParseHeaders(input, room, h).outcome != Done
    ensures !EndsHeaders(line) && Field(line, room, h).Set? ==>
      ParseHeaders(input, room, h) == ParseHeaders(rest, room, Field(line, room, h).head)
  {
    hide GetLine, Field;
  }

  /** A line all of whose pieces pass is dealt with; any other one ends the headers or is an error. */
  lemma {:induction false} OneLine(line: seq<byte>, more: seq<byte>, room: nat, h: Head)
    requires room > 0 && NoNewline(line)
    ensures var r := ParseHeaders(line + ([13, 10] + more), room, h);
      if PiecesPass(line, room) then r == ParseHeaders(more, room, FieldsOf(line, room, h))
      else r.outcome != Done || |r.rest| >= |more|
    decreases |line|
  {
    hide CStr, StartsWith, Field;
    var input := line + ([13, 10] + more);
    LineTaken(line, more, room);
    if |line| < room {
      ParseStep(input, room, h, line, more);
      if !EndsHeaders(line) {
        FieldPasses(line, room, h);
      }
    } else {
      var piece, tail := line[..room], line[room..];
      var rest := tail + ([13, 10] + more);
      ParseStep(input, room, h, piece, rest);
      hide ParseHeaders, GetLine;
      if !EndsHeaders(piece) {
        FieldPasses(piece, room, h);
        if Passes(piece, room) {
          OneLine(tail, more, room, Field(piece, room, h).head);
        }
      }
    }
  }

  function FieldsOfAll(lines: seq<seq<byte>>, room: nat, h: Head): Head
    requires room > 0
  {
    if lines == [] then h else FieldsOfAll(lines[1..], room, FieldsOf(lines[0], room, h))
  }

  ghost predicate AllPass(lines: seq<seq<byte>>, room: nat)
    requires room > 0
  {
    forall i :: 0 <= i < |lines| ==> PiecesPass(lines[i], room)
  }

  lemma {:induction false} BlockParsed(lines: seq<seq<byte>>, body: seq<byte>, room: nat, h: Head)
    requires room > 0 && Lines(lines)
    ensures var r := ParseHeaders(Block(lines, body), room, h);
      if AllPass(lines, room) then r == Parsed(FieldsOfAll(lines, room, h), body, Done)
      else r.outcome != Done || |r.rest| > |body|
    decreases |lines|
  {
    if lines == [] {
      assert [] + ([13, 10] + body) == [13, 10] + body;
      LineTaken([], body, room);
      ParseStep([13, 10] + body, room, h, [], body);
    } else {
      hide ParseHeaders, PiecesPass, FieldsOf;
      var more := Block(lines[1..], body);
      BlockLength(lines[1..], body);
      OneLine(lines[0], more, room, h);
      if PiecesPass(lines[0], room) {
        BlockParsed(lines[1..], body, room, FieldsOf(lines[0], room, h));
        assert AllPass(lines, room) <==> AllPass(lines[1..], room) by { AllPassParts(lines, room); }
      }
    }
  }

  lemma AllPassParts(lines: seq<seq<byte>>, room: nat)
    requires room > 0 && lines != []
    ensures AllPass(lines, room) <==> PiecesPass(lines[0], room) && AllPass(lines[1..], room)
  {
    hide PiecesPass;
    if PiecesPass(lines[0], room) && AllPass(lines[1..], room) {
      forall i | 0 <= i < |lines| ensures PiecesPass(lines[i], room) {
        if i > 0 {
          assert lines[i] == lines[1..][i - 1];
        }
      }
    }
  }

  lemma {:induction false} BlockLength(lines: seq<seq<byte>>, body: seq<byte>)
    ensures |Block(lines, body)| >= |body| + 2
  {
    if lines != [] {
      BlockLength(lines[1..], body);
    }
  }

  /**
   * Header/body framing, exactly: the parser succeeds and stops at the first body byte if and
   * only if every piece of every line passes.
   */
  lemma ParserStopsAtBodyExactly(lines: seq<seq<byte>>, body: seq<byte>, room: nat, h: Head)
    requires room > 0 && Lines(lines)
    ensures var r := ParseHeaders(Block(lines, body), room, h);
      r.outcome == Done && r.rest == body <==> AllPass(lines, room)
  {
    BlockParsed(lines, body, room, h);
    hide ParseHeaders;
  }

  /** A line that fills the line buffer exactly ends the headers early. */
  lemma FullLineEndsHeaders(line: seq<byte>, more: seq<byte>, room: nat, h: Head)
    requires room > 0 && |line| == room && NoNewline(line) && Passes(line, room)
    ensures Field(line, room, h).Set?
    ensures ParseHeaders(line + ([13, 10] + more), room, h) == Parsed(Field(line, room, h).head, more, Done)
  {
    LineTaken(line, more, room);
    assert line[room..] + ([13, 10] + more) == [] + ([13, 10] + more);
    assert line[..room] == line;
    LineTaken([], more, room);
    FieldPasses(line, room, h);
    ParseStep(line + ([13, 10] + more), room, h, line, [] + ([13, 10] + more));
    ParseStep([] + ([13, 10] + more), room, Field(line, room, h).head, [], more);
  }

  lemma {:induction false} PurgeLine(line: seq<byte>, more: seq<byte>, s: PurgeState)
    requires NoNewline(line) && (line != [] || s == AnyOther)
    ensures Purge(line + ([13, 10] + more), s) == Purge(more, FirstLf)
    decreases |line|
  {
    var input := line + ([13, 10] + more);
    if line == [] {
      assert input == [13, 10] + more && input[1..] == [10] + more && input[1..][1..] == more;
    } else {
      assert input[1..] == line[1..] + ([13, 10] + more);
      PurgeLine(line[1..], more, AnyOther);
    }
  }

  lemma {:induction false} PurgeBlock(lines: seq<seq<byte>>, body: seq<byte>, s: PurgeState)
    requires Lines(lines) && (s == FirstLf || lines != [])
    ensures Purge(Block(lines, body), s) == Some(body)
    decreases |lines|
  {
    if lines == [] {
      var input := [13, 10] + body;
      assert input[1..] == [10] + body && input[1..][1..] == body;
    } else {
      PurgeLine(lines[0], Block(lines[1..], body), s);
      PurgeBlock(lines[1..], body, FirstLf);
    }
  }

  /**
   * The purge stops at the first body byte if and only if there is at least one header line:
   * without one it takes the empty line for the end of a line and goes on into the body.
   */
  lemma PurgeStopsAtBodyExactly(lines: seq<seq<byte>>, body: seq<byte>)
    requires Lines(lines)
    ensures Purge(Block(lines, body), AnyOther) == Some(body) <==> lines != []
  {
    if lines == [] {
      PurgeLine([], body, AnyOther);
      assert [] + ([13, 10] + body) == [13, 10] + body;
    } else {
      PurgeBlock(lines, body, AnyOther);
    }
  }

  /** `s` ends with CR and then LFs, at least one. */
  predicate EndsLine(s: seq<byte>) {
    |s| >= 2 && s[|s| - 1] == 10 && (s[|s| - 2] == 13 || EndsLine(s[..|s| - 1]))
  }

  /** `s` ends with CR, LFs and CRs, at least one of each. */
  predicate EndsLineCr(s: seq<byte>) {
    s != [] && s[|s| - 1] == 13 && (EndsLine(s[..|s| - 1]) || EndsLineCr(s[..|s| - 1]))
  }

  /** `s` ends with CR, LFs, CRs and one LF. */
  predicate EndsBlock(s: seq<byte>) {
    s != [] && s[|s| - 1] == 10 && EndsLineCr(s[..|s| - 1])
  }

  /** Where the automaton is after `done`, without having stopped. */
  ghost predicate PurgeAt(done: seq<byte>, s: PurgeState) {
    match s
    case AnyOther => !EndsLine(done) && (done == [] || done[|done| - 1] != 13)
    case FirstCr => done != [] && done[|done| - 1] == 13 && !EndsLineCr(done)
    case FirstLf => EndsLine(done)
    case SecondCr => EndsLineCr(done)
    case SecondLf => false
  }

  lemma PurgeAtNext(done: seq<byte>, next: seq<byte>, c: byte, s: PurgeState)
    requires PurgeAt(done, s) && next == done + [c]
    ensures if PurgeNext(s, c) == SecondLf then EndsBlock(next) else PurgeAt(next, PurgeNext(s, c)) && !EndsBlock(next)
  {
    assert next[..|next| - 1] == done;
  }

  ghost predicate NoBlockUpTo(input: seq<byte>, k: nat) {
    forall i :: 0 <= i <= k <= |input| ==> !EndsBlock(input[..i])
  }

  lemma {:induction false} PurgeFrom(input: seq<byte>, k: nat, s: PurgeState)
    requires k <= |input| && PurgeAt(input[..k], s) && NoBlockUpTo(input, k)
    ensures match Purge(input[k..], s)
      case Some(rest) =>
        exists n :: k < n <= |input| && EndsBlock(input[..n]) && NoBlockUpTo(input, n - 1) && rest == input[n..]
      case None => NoBlockUpTo(input, |input|)
    decreases |input| - k
  {
    if k < |input| {
      var next := k + 1;
      PurgeAtNext(input[..k], input[..next], input[k], s);
      assert input[..next] == input[..k] + [input[k]];
      assert input[k..][1..] == input[next..];
      hide PurgeAt, EndsBlock, PurgeNext;
      if PurgeNext(s, input[k]) == SecondLf {
        assert NoBlockUpTo(input, next - 1);
      } else {
        PurgeFrom(input, next, PurgeNext(s, input[k]));
      }
    }
  }

  /**
   * The purge on any input: it stops behind the first CR, LFs, CRs and LF in a row, or it takes
   * everything if there is no such place.
   */
  lemma PurgeStopsExactly(input: seq<byte>)
    ensures match Purge(input, AnyOther)
      case Some(rest) =>
        exists n :: 0 < n <= |input| && EndsBlock(input[..n]) && NoBlockUpTo(input, n - 1) && rest == input[n..]
      case None => NoBlockUpTo(input, |input|)
  {
    assert input[0..] == input && input[..0] == [];
    PurgeFrom(input, 0, AnyOther);
  }

  /** Lines that leave room for two bytes in a buffer of `buflen` are never split. */
  lemma ShortLinesPass(lines: seq<seq<byte>>, buflen: nat)
    requires buflen > 2 && Lines(lines)
    requires forall i :: 0 <= i < |lines| ==> |lines[i]| <= buflen - 2 && Passes(lines[i], buflen - 1)
    ensures AllPass(lines, buflen - 1)
  {}

  // --- Fetching the body -------------------------------------------------------------------------------

  /** Where a request stands between two calls: bytes that remain, and what is left of the input. */
  datatype Link = Link(remaining: int, input: seq<byte>)

  function LinkOf(r: Parsed): Link {
    Link(r.head.remaining, r.rest)
  }

  function Wanted(remaining: int, length: int): nat {
    if remaining < length then (if remaining < 0 then 0 else remaining) else if length < 0 then 0 else length
  }

  function Amount(l: Link, length: int): (n: nat)
    ensures n <= |l.input|
  {
    var n := Wanted(l.remaining, length);
    if n < |l.input| then n else |l.input|
  }

  function Fetched(l: Link, length: int): Link {
    Link(l.remaining - Amount(l, length), l.input[Amount(l, length)..])
  }

  /** Everything a run of calls delivers, and where it leaves the request. */
  function Delivered(l: Link, lengths: seq<int>): seq<byte>
    decreases |lengths|
  {
    if lengths == [] then [] else l.input[..Amount(l, lengths[0])] + Delivered(Fetched(l, lengths[0]), lengths[1..])
  }

  function AfterRun(l: Link, lengths: seq<int>): Link
    decreases |lengths|
  {
    if lengths == [] then l else AfterRun(Fetched(l, lengths[0]), lengths[1..])
  }

  function Asked(lengths: seq<int>): nat {
    if lengths == [] then 0 else (if lengths[0] > 0 then lengths[0] else 0) + Asked(lengths[1..])
  }

  /**
   * For any run of calls: no byte is lost, repeated or reordered, the bytes that remain and the
   * bytes delivered add up to what remained before, and as much is delivered as possible.
   */
  lemma {:induction false} RunDelivers(l: Link, lengths: seq<int>)
    ensures Delivered(l, lengths) + AfterRun(l, lengths).input == l.input
    ensures AfterRun(l, lengths).remaining + |Delivered(l, lengths)| == l.remaining
    ensures |Delivered(l, lengths)| == Amount(l, Asked(lengths))
    decreases |lengths|
  {
    if lengths != [] {
      var n, l' := Amount(l, lengths[0]), Fetched(l, lengths[0]);
      RunDelivers(l', lengths[1..]);
      assert l.input == l.input[..n] + l'.input;
    }
  }

  lemma Prefixes(a: seq<byte>, b: seq<byte>, c: seq<byte>, d: seq<byte>)
    requires a + b == c + d && |a| == |c|
    ensures a == c && b == d
  {
    assert a == (a + b)[..|a|] && b == (a + b)[|a|..];
  }

  lemma ReadOn(b: seq<byte>, b': seq<byte>, input: seq<byte>, n: nat, k: nat, m: nat)
    requires m == n + k <= |input| && m <= |b| && b[..n] == input[..n]
    requires b' == Splice(b, n, input[n..][..k])
    ensures b'[..m] == input[..m] && input[n..][k..] == input[m..]
  {
    assert input[..m] == input[..n] + input[n..][..k];
  }

  // --- The connection --------------------------------------------------------------------------------

  class Socket {
    var input: seq<byte>  // what the peer has sent and nobody has read yet
    const reliable: bool  // no call fails before the input ends
    var faults: nat       // how many calls may still fail otherwise

    constructor (input: seq<byte>, reliable: bool, faults: nat)
      ensures this.input == input && this.reliable == reliable && this.faults == faults
    {
      this.input, this.reliable, this.faults := input, reliable, faults;
    }

    /** `httpd_recv`: some of the next bytes, as many as the network likes; 0 at the end. */
    method Recv(buf: array<byte>, at: nat, n: nat) returns (r: int)
      requires n > 0 && at + n <= buf.Length
      modifies this, buf
      ensures -1 <= r <= n && r <= |old(input)| && (r == 0 ==> old(input) == []) && (reliable ==> r >= 0)
      ensures faults == old(faults) - if r == -1 then 1 else 0
      ensures r <= 0 ==> input == old(input) && buf[..] == old(buf[..])
      ensures r > 0 ==> input == old(input)[r..] && buf[..] == Splice(old(buf[..]), at, old(input)[..r])
    {
      if !reliable && faults > 0 {
        var fails: bool := *;
        if fails {
          faults := faults - 1;
          return -1;
        }
      }
      if input == [] {
        return 0;
      }
      var k: int := *;
      if k < 1 || k > n || k > |input| {
        k := 1;
      }
      Store(buf, at, input[..k]);
      input := input[k..];
      return k;
    }
  }

  /** The line reader has `done` so far; the rest of the line is still in `input`. */
  ghost predicate Reading(b: seq<byte>, done: seq<byte>, input: seq<byte>, room: nat, goal: Line) {
    room > 0 && |done| + room < |b| && b[..|done|] == done && Preceded(done, GetLine(input, room)) == goal
  }

  function Preceded(done: seq<byte>, l: Line): Line {
    l.(text := done + l.text)
  }

  lemma ReadingStarts(b: seq<byte>, input: seq<byte>, room: nat)
    requires 0 < room < |b|
    ensures Reading(b, [], input, room, GetLine(input, room))
  {
    assert [] + GetLine(input, room).text == GetLine(input, room).text;
  }

  /** What the next byte does: it is the last one, or the line goes on. */
  lemma ReadingNext(b: seq<byte>, b': seq<byte>, done: seq<byte>, input: seq<byte>, rest: seq<byte>, room: nat,
                    at: nat, goal: Line)
    requires Reading(b, done, input, room, goal) && input != [] && at == |done| < |b|
    requires b' == Splice(b, at, input[..1]) && rest == input[1..]
    ensures b'[at] == input[0] && b'[..at] == done
    ensures Newline(input[0]) ==> goal == Line(done, if rest == [] then [] else rest[1..])
    ensures !Newline(input[0]) && room == 1 ==> goal == Line(done + [input[0]], rest) && b'[..at + 1] == done + [input[0]]
    ensures !Newline(input[0]) && room > 1 ==> Reading(b', done + [input[0]], rest, room - 1, goal)
  {
    assert done + [] == done;
    if !Newline(input[0]) && room > 1 {
      var l := GetLine(rest, room - 1);
      assert done + ([input[0]] + l.text) == done + [input[0]] + l.text;
    }
  }

  lemma ReadingEnds(b: seq<byte>, done: seq<byte>, room: nat, goal: Line)
    requires Reading(b, done, [], room, goal)
    ensures goal == Line(done, []) && b[..|done|] == done
  {
    assert done + [] == done;
  }

  /** After the next byte `c` of a line: `b` is the buffer, `input` what is left to read. */
  ghost predicate ByteTaken(c: byte, b: seq<byte>, done: seq<byte>, input: seq<byte>, room: nat, goal: Line) {
    |done| < |b| && b[|done|] == c && b[..|done|] == done &&
    if Newline(c) then goal == Line(done, if input == [] then [] else input[1..])
    else
      b[..|done| + 1] == done + [c] &&
      if room == 1 then goal == Line(done + [c], input)
      else room > 1 && Reading(b, done + [c], input, room - 1, goal)
  }

  /** Receives the next byte of a line. */
  method NextByte(sock: Socket, data: array<byte>, len: nat, ghost done: seq<byte>, ghost room: nat, ghost goal: Line)
    returns (result: int)
    requires len == |done| && len < data.Length && Reading(data[..], done, sock.input, room, goal)
    modifies sock, data
    ensures -1 <= result <= 1 && (sock.reliable ==> result >= 0)
    ensures |sock.input| + (if result == 1 then 1 else 0) <= |old(sock.input)|
    ensures result == 0 ==> goal == Line(done, sock.input) && data[..len] == done
    ensures result == 1 ==> ByteTaken(data[len], data[..], done, sock.input, room, goal)
  {
    ghost var b, input := data[..], sock.input;
    hide GetLine, Splice;
    result := sock.Recv(data, len, 1);
    if result == 0 {
      ReadingEnds(data[..], done, room, goal);
    } else if result == 1 {
      ReadingNext(b, data[..], done, input, sock.input, room, len, goal);
    }
  }

  lemma TakenNewline(c: byte, b: seq<byte>, done: seq<byte>, input: seq<byte>, room: nat, goal: Line)
    requires ByteTaken(c, b, done, input, room, goal)
    ensures |done| < |b| && b[..|done|] == done
    ensures Newline(c) ==> goal == Line(done, if input == [] then [] else input[1..])
  {}

  lemma TakenOther(c: byte, b: seq<byte>, done: seq<byte>, done': seq<byte>, input: seq<byte>, room: nat, room': int, goal: Line)
    requires ByteTaken(c, b, done, input, room, goal) && !Newline(c) && done' == done + [c] && room' == room - 1
    ensures |done'| == |done| + 1 <= |b| && b[..|done'|] == done'
    ensures room' <= 0 ==> goal == Line(done', input)
    ensures room' > 0 ==> Reading(b, done', input, room', goal)
  {}

  lemma ReadingFits(b: seq<byte>, done: seq<byte>, input: seq<byte>, room: nat, goal: Line)
    requires Reading(b, done, input, room, goal)
    ensures room > 0 && |done| + room < |b|
  {}

  /** Drops the byte behind a newline character, whatever it is. */
  method SkipByte(sock: Socket, data: array<byte>, len: nat)
    requires len < data.Length
    modifies sock, data
    ensures data[..len] == old(data[..len])
    ensures |sock.input| <= |old(sock.input)|
    ensures sock.reliable ==> sock.input == if old(sock.input) == [] then [] else old(sock.input)[1..]
  {
    var result := sock.Recv(data, len, 1);
  }

  /** The loop of the line reader. */
  method ReadLine(sock: Socket, data: array<byte>, buflen: nat, ghost goal: Line) returns (len: int, ghost done: seq<byte>)
    requires 2 <= buflen <= data.Length && Reading(data[..], [], sock.input, buflen - 1, goal)
    modifies sock, data
    ensures -1 <= len < buflen && (sock.reliable ==> len >= 0)
    ensures |sock.input| + (if len > 0 then len else 0) <= |old(sock.input)|
    ensures len >= 0 ==> data[..len] == done == goal.text
    ensures sock.reliable ==> goal == Line(done, sock.input)
  {
    len, done := 0, [];
    ghost var room: int := buflen - 1;
    hide *;
    while true
      invariant 0 <= len == |done| && 0 < room && len + room == buflen - 1 && |sock.input| + len <= |old(sock.input)|
      invariant Reading(data[..], done, sock.input, room, goal)
      decreases |sock.input|
    {
      ReadingFits(data[..], done, sock.input, room, goal);
      var result := NextByte(sock, data, len, done, room, goal);
      if result == 0 {
        break;
      }
      if result == -1 {
        return -1, done;
      }
      TakenNewline(data[len], data[..], done, sock.input, room, goal);
      if Newline(data[len]) {
        SkipByte(sock, data, len);
        break;
      }
      ghost var done' := done + [data[len]];
      TakenOther(data[len], data[..], done, done', sock.input, room, room - 1, goal);
      len, done, room := len + 1, done', room - 1;
      if len >= buflen - 1 {
        break;
      }
    }
  }

  /** `htsys_getln_soc`; -1 for an error. */
  method GetlnSoc(sock: Socket, data: array<byte>, buflen: nat, ghost room: nat) returns (len: int)
    requires 2 <= buflen <= data.Length && room == buflen - 1
    modifies sock, data
    ensures -1 <= len < buflen && (sock.reliable ==> len >= 0)
    ensures sock.reliable ==> GetLine(old(sock.input), room) == Line(data[..len], sock.input)
    ensures len >= 0 ==> data[len] == 0 && NoNewline(data[..len])
    ensures |sock.input| <= |old(sock.input)| && (len > 0 ==> |sock.input| < |old(sock.input)|)
  {
    ReadingStarts(data[..], sock.input, room);
    LineIsClean(sock.input, room);
    hide *;
    ghost var done;
    len, done := ReadLine(sock, data, buflen, GetLine(sock.input, room));
    if len >= 0 {
      EndLine(data, len, done);
    }
  }

  method EndLine(data: array<byte>, len: nat, ghost done: seq<byte>)
    requires len < data.Length && data[..len] == done
    modifies data
    ensures data[..len] == done && data[len] == 0
  {
    data[len] := 0;
  }

  lemma {:induction false} LineIsClean(input: seq<byte>, room: nat)
    requires room > 0
    ensures NoNewline(GetLine(input, room).text)
  {
    if input != [] && !Newline(input[0]) && room > 1 {
      LineIsClean(input[1..], room - 1);
    }
  }

  /** How a line leaves the request: `None` means that the next line is due. */
  predicate TagParsed(line: seq<byte>, room: nat, h: Head, h': Head, outcome: Option<Outcome>) {
    if EndsHeaders(line) then outcome == Some(Done) && h' == h
    else
      match Field(line, room, h)
      case Rejected => outcome == Some(Failed) && h' == h
      case TooLong => outcome == Some(Overrun) && h' == h
      case Set(x) => outcome == None && h' == x
  }

  /** What one round comes to, from `input` and `h` to `rest` and `h'`. */
  ghost predicate RoundIs(input: seq<byte>, room: nat, h: Head, rest: seq<byte>, h': Head, outcome: Option<Outcome>) {
    room > 0 &&
    ParseHeaders(input, room, h) ==
      match outcome case Some(o) => Parsed(h', rest, o) case None => ParseHeaders(rest, room, h')
  }

  lemma ParseRound(input: seq<byte>, room: nat, h: Head, h': Head, line: seq<byte>, rest: seq<byte>, outcome: Option<Outcome>)
    requires room > 0 && GetLine(input, room) == Line(line, rest) && TagParsed(line, room, h, h', outcome)
    ensures RoundIs(input, room, h, rest, h', outcome)
  {
    hide GetLine, Field;
  }

  lemma RoundMeans(input: seq<byte>, room: nat, h: Head, rest: seq<byte>, h': Head, outcome: Option<Outcome>)
    requires RoundIs(input, room, h, rest, h', outcome)
    ensures room > 0
    ensures outcome.Some? ==> ParseHeaders(input, room, h) == Parsed(h', rest, outcome.value)
    ensures outcome == None ==> ParseHeaders(input, room, h) == ParseHeaders(rest, room, h')
  {}

  lemma NotEmpty(line: seq<byte>, room: nat, h: Head, h': Head, outcome: Option<Outcome>)
    requires TagParsed(line, room, h, h', outcome)
    ensures line == [] ==> outcome == Some(Done)
  {}

  class Request {
    var head: Head
    var hdrParsed: bool

    constructor ()
      ensures head == Head(0, 0, false, false, 0, []) && !hdrParsed
    {
      head, hdrParsed := Head(0, 0, false, false, 0, []), false;
    }

    /** `__httpd_parse_hdr_tags` on the line in a buffer of `room + 1` bytes. */
    method ParseHdrTag(data: array<byte>, len: nat, room: nat) returns (outcome: Option<Outcome>)
      requires len < data.Length && data[len] == 0 && NoNewline(data[..len])
      modifies this`head
      ensures TagParsed(data[..len], room, old(head), head, outcome)
    {
      assert len > 0 ==> data[..len][0] == data[0];
      hide Field;
      if Newline(data[0]) || data[0] == 0 {
        return Some(Done);
      }
      match Field(data[..len], room, head)
      case Rejected => return Some(Failed);
      case TooLong => return Some(Overrun);
      case Set(h) =>
        head := h;
        return None;
    }

    /** One round of `httpd_parse_hdr_tags`: a line, and what it says. */
    method ReadHeader(sock: Socket, buffer: array<byte>, len: nat, room: nat) returns (outcome: Option<Outcome>)
      requires 2 <= len <= buffer.Length && room == len - 1
      modifies this`head, sock, buffer
      ensures |sock.input| <= |old(sock.input)|
      ensures outcome == None ==> |sock.input| < |old(sock.input)|
      ensures sock.reliable ==> RoundIs(old(sock.input), room, old(head), sock.input, head, outcome)
    {
      ghost var input, h := sock.input, head;
      hide *;
      var n := GetlnSoc(sock, buffer, len, room);
      if n == -1 {
        return Some(Failed);
      }
      ghost var line := buffer[..n];
      outcome := ParseHdrTag(buffer, n, room);
      NotEmpty(line, room, h, head, outcome);
      if sock.reliable {
        ParseRound(input, room, h, head, line, sock.input, outcome);
      }
    }

    /** `httpd_parse_hdr_tags`. */
    method ParseHdrTags(sock: Socket, buffer: array<byte>, len: nat) returns (outcome: Outcome)
      requires 2 <= len <= buffer.Length
      modifies this`head, sock, buffer
      ensures |sock.input| <= |old(sock.input)|
      ensures sock.reliable ==>
        ParseHeaders(old(sock.input), len - 1, old(head)) == Parsed(head, sock.input, outcome)
    {
      var room := len - 1;
      ghost var input0 := sock.input;
      ghost var goal := ParseHeaders(sock.input, room, head);
      hide *;
      while true
        invariant |sock.input| <= |input0|
        invariant sock.reliable ==> ParseHeaders(sock.input, room, head) == goal
        decreases |sock.input|
      {
        ghost var input, h := sock.input, head;
        var end := ReadHeader(sock, buffer, len, room);
        if sock.reliable {
          RoundMeans(input, room, h, sock.input, head, end);
        }
        if end.Some? {
          return end.value;
        }
      }
    }

    /** The last part of `httpd_get_data`: bytes of the body, with a NUL behind them. */
    method ReadBody(sock: Socket, content: array<byte>, length: int) returns (ghost total: nat)
      requires length < content.Length && 0 < content.Length
      modifies this`head, sock, content
      ensures total < content.Length && total <= |old(sock.input)|
      ensures sock.reliable ==> total == Amount(Link(old(head.remaining), old(sock.input)), length)
      ensures content[..total] == old(sock.input)[..total] && content[total] == 0
      ensures sock.input == old(sock.input)[total..]
      ensures head == old(head).(remaining := old(head.remaining) - total)
    {
      var toRead := if head.remaining < length then head.remaining else length;
      hide Splice;
      var n := ReadUpTo(sock, content, toRead);
      content[n] := 0;
      total := n;
      head := head.(remaining := head.remaining - n);
    }

    /**
     * `httpd_get_data`: the headers first, once; then up to `length` bytes of the body with a NUL
     * behind them. The result is the number of bytes that remain. `overrun` reports a header line
     * that is copied beyond its buffer; what the original does then is not determined.
     */
    method GetData(sock: Socket, content: array<byte>, length: int)
      returns (remaining: int, overrun: bool, ghost total: nat)
      requires length < content.Length && 0 < content.Length
      modifies this, sock, content
      ensures remaining == head.remaining && total < content.Length
      ensures old(hdrParsed) ==> hdrParsed && total <= |old(sock.input)| && sock.input == old(sock.input)[total..]
      ensures old(hdrParsed) ==> remaining == old(head.remaining) - total && !overrun
      ensures old(hdrParsed) ==> content[..total] == old(sock.input)[..total] && content[total] == 0
      ensures sock.reliable && !old(hdrParsed) ==>
        hdrParsed == (ParseHeaders(old(sock.input), 1023, old(head)).outcome == Done) &&
        overrun == (ParseHeaders(old(sock.input), 1023, old(head)).outcome == Overrun)
      ensures sock.reliable && !hdrParsed ==>
        total == 0 && sock.input == ParseHeaders(old(sock.input), 1023, old(head)).rest
      ensures sock.reliable && hdrParsed ==>
        var l := if old(hdrParsed) then Link(old(head.remaining), old(sock.input))
          else LinkOf(ParseHeaders(old(sock.input), 1023, old(head)));
        total == Amount(l, length) && Link(remaining, sock.input) == Fetched(l, length) &&
        content[..total] == l.input[..total] && content[total] == 0
    {
      hide ParseHeaders, Amount;
      if !hdrParsed {
        var buf := new byte[1024];
        var outcome := ParseHdrTags(sock, buf, 1024);
        if outcome != Done {
          return head.remaining, outcome == Overrun, 0;
        }
        hdrParsed := true;
      }
      total := ReadBody(sock, content, length);
      remaining, overrun := head.remaining, false;
    }
  }

  /** The loop of `httpd_get_data` over what the network delivers. */
  method ReadUpTo(sock: Socket, content: array<byte>, toRead: int) returns (n: nat)
    requires toRead <= content.Length
    modifies sock, content
    ensures n <= |old(sock.input)| && (n == 0 || n <= toRead)
    ensures sock.reliable ==> n == |old(sock.input)| || n >= toRead
    ensures n <= content.Length && content[..n] == old(sock.input)[..n] && sock.input == old(sock.input)[n..]
  {
    n := 0;
    ghost var input := sock.input;
    assert input[0..] == input;
    hide *;
    while n < toRead
      invariant n <= |input| && (n == 0 || n <= toRead) && n <= content.Length
      invariant content[..n] == input[..n] && sock.input == input[n..]
      decreases toRead - n
    {
      ghost var b := content[..];
      var ret := sock.Recv(content, n, toRead - n);
      if ret <= 0 {
        break;
      }
      ReadOn(b, content[..], input, n, ret, n + ret);
      n := n + ret;
    }
  }

  // --- The purge ---------------------------------------------------------------------------------------

  /** Looking at the same byte again does not move the automaton. */
  lemma PurgeNextTwice(s: PurgeState, c: byte)
    ensures PurgeNext(s, c) != SecondLf ==> PurgeNext(PurgeNext(s, c), c) == PurgeNext(s, c)
  {}

  /** Where the purge starts from makes a difference only if the input starts with LF. */
  lemma PurgeStart(input: seq<byte>)
    requires input == [] || input[0] != 10
    ensures Purge(input, FirstCr) == Purge(input, AnyOther)
  {}

  /**
   * `httpd_purge_headers`. After a call that fails the original looks at the last byte again, or at
   * `garbage` if there is none; the latter can only put it behind a first CR.
   */
  method PurgeHeaders(sock: Socket, garbage: byte) returns (rc: int, ghost start: PurgeState)
    modifies sock
    ensures start == AnyOther || (start == FirstCr && garbage == 13 && !sock.reliable && sock.faults < old(sock.faults))
    ensures match Purge(old(sock.input), start)
      case Some(rest) => rc == 0 && sock.input == rest
      case None => rc == -1 && sock.input == []
  {
    var ch := new byte[1];
    ch[0] := garbage;
    var state := AnyOther;
    start := AnyOther;
    ghost var started, input0 := false, sock.input;
    while true
      invariant started ==> state != SecondLf && PurgeNext(state, ch[0]) == state
      invariant !started ==> sock.input == input0 && ch[0] == garbage && state == start
      invariant start == AnyOther || (start == FirstCr && garbage == 13 && !sock.reliable && sock.faults < old(sock.faults))
      invariant Purge(sock.input, state) == Purge(input0, start) && sock.faults <= old(sock.faults)
      decreases |sock.input| + sock.faults
    {
      ghost var input := sock.input;
      var result := sock.Recv(ch, 0, 1);
      if result == 0 {
        break;
      }
      PurgeNextTwice(state, ch[0]);
      state := Purged(state, ch[0]);
      if result == 1 {
        started := true;
        assert ch[0] == input[0];
      } else if !started {
        start := state;
      }
      if state == SecondLf {
        return 0, start;
      }
    }
    return -1, start;
  }

  /** The `switch` of `httpd_purge_headers`. */
  method Purged(state0: PurgeState, ch: byte) returns (state: PurgeState)
    ensures state == PurgeNext(state0, ch)
  {
    state := state0;
    match ch {
      case 13 =>
        if state == AnyOther {
          state := FirstCr;
        } else if state == FirstLf {
          state := SecondCr;
        }
      case 10 =>
        if state == FirstCr {
          state := FirstLf;
        } else if state == SecondCr {
          state := SecondLf;
        }
      case _ =>
        state := AnyOther;
    }
  }
}
