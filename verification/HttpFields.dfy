/**
 * What header lines say, stated without the parser of HttpHeaders: which line sets which field,
 * what a whole block of lines comes to, and how much of the body is delivered then.
 */
module HttpFields {
  import opened Memory
  import opened Wrappers
  import opened HttpHeaders
  import NT = NumberText
  import C = Chunked

  // --- Names ---------------------------------------------------------------------------------------

  lemma NamesAre()
    ensures Spells(CONTENT_LENGTH, "Content-Length: ") && Spells(CONTENT_TYPE, "Content-Type: ")
    ensures Spells(TRANSFER_ENCODING, "Transfer-Encoding: ") && Spells(CHUNKED, "chunked")
    ensures Spells(IF_NONE_MATCH, "If-None-Match")
  {}

  /** Names are compared in either case of the 26 letters. */
  lemma SameLetter(a: byte, b: byte)
    ensures Lower(a) == Lower(b) <==>
      a == b || ('A' as int <= a <= 'Z' as int && b == a + 32) || ('A' as int <= b <= 'Z' as int && a == b + 32)
  {}

  // --- What one piece of a line says -----------------------------------------------------------------

  /** The fields of a request that a line can set, each on its own. */
  datatype FieldName = Body | Remaining | Type | Tag | Encoding

  datatype Value = Number(n: int) | Text(text: seq<byte>) | Entity(matched: bool, tag: nat) | Flag(given: bool)

  function ValueOf(h: Head, field: FieldName): Value {
    match field
    case Body => Number(h.body)
    case Remaining => Number(h.remaining)
    case Type => Text(h.contentType)
    case Tag => Entity(h.ifNoneMatch, h.etag)
    case Encoding => Flag(h.chunked)
  }

  /** `piece` starts with `name`, in any letter case, before its first NUL. */
  predicate Named(piece: seq<byte>, name: seq<byte>) {
    StartsWith(CStr(piece), name)
  }

  function Behind(piece: seq<byte>, name: seq<byte>): seq<byte>
    requires Named(piece, name)
  {
    CStr(piece)[|name|..]
  }

  predicate Says(piece: seq<byte>, field: FieldName) {
    match field
    case Body => Named(piece, CONTENT_LENGTH)
    case Remaining => Named(piece, CONTENT_LENGTH) && Atol(Behind(piece, CONTENT_LENGTH)) != 0
    case Type => Named(piece, CONTENT_TYPE)
    case Tag => Named(piece, IF_NONE_MATCH) && 34 in CStr(piece)
    case Encoding => Named(piece, TRANSFER_ENCODING + CHUNKED)
  }

  function Said(piece: seq<byte>, field: FieldName): Value
    requires Says(piece, field)
  {
    match field
    case Body => Number(Atol(Behind(piece, CONTENT_LENGTH)))
    case Remaining => Number(Atol(Behind(piece, CONTENT_LENGTH)))
    case Type => Text(Behind(piece, CONTENT_TYPE))
    case Tag => QuotedIs(CStr(piece)); Entity(true, HexLong(Quoted(CStr(piece)).value))
    case Encoding => Flag(true)
  }

  /** At most one of two names that differ in their first letters can be there. */
  lemma OneName(s: seq<byte>, a: seq<byte>, b: seq<byte>)
    requires a != [] && b != [] && Lower(a[0]) != Lower(b[0])
    ensures !(StartsWith(s, a) && StartsWith(s, b))
  {}

  lemma AtMostOneName(s: seq<byte>)
    ensures !(StartsWith(s, CONTENT_LENGTH) && StartsWith(s, CONTENT_TYPE))
    ensures !(StartsWith(s, CONTENT_LENGTH) && StartsWith(s, IF_NONE_MATCH))
    ensures !(StartsWith(s, CONTENT_TYPE) && StartsWith(s, IF_NONE_MATCH))
    ensures StartsWith(s, TRANSFER_ENCODING) ==>
      !StartsWith(s, CONTENT_LENGTH) && !StartsWith(s, CONTENT_TYPE) && !StartsWith(s, IF_NONE_MATCH)
  {
    PrefixesDiffer(s);
    OneName(s, TRANSFER_ENCODING, CONTENT_LENGTH);
    OneName(s, TRANSFER_ENCODING, CONTENT_TYPE);
    OneName(s, TRANSFER_ENCODING, IF_NONE_MATCH);
    hide StartsWith;
  }

  lemma StartsWithBoth(s: seq<byte>, a: seq<byte>, b: seq<byte>)
    ensures StartsWith(s, a + b) <==> StartsWith(s, a) && StartsWith(s[|a|..], b)
  {
    var ab := a + b;
    if StartsWith(s, ab) {
      forall i | 0 <= i < |a| ensures Lower(s[i]) == Lower(a[i]) {
        assert ab[i] == a[i];
      }
      forall i | 0 <= i < |b| ensures Lower(s[|a|..][i]) == Lower(b[i]) {
        var k := |a| + i;
        assert ab[k] == b[i] && Lower(s[k]) == Lower(ab[k]);
      }
    }
    if StartsWith(s, a) && StartsWith(s[|a|..], b) {
      forall i | 0 <= i < |ab| ensures Lower(s[i]) == Lower(ab[i]) {
        if i >= |a| {
          assert s[i] == s[|a|..][i - |a|];
        }
      }
    }
  }

  /** One passing piece sets the field that it names, and leaves every other field alone. */
  lemma PieceSets(piece: seq<byte>, room: nat, h: Head, field: FieldName)
    requires Passes(piece, room)
    ensures Field(piece, room, h).Set?
    ensures ValueOf(Field(piece, room, h).head, field) ==
      if Says(piece, field) then Said(piece, field) else ValueOf(h, field)
  {
    var s := CStr(piece);
    FieldPasses(piece, room, h);
    AtMostOneName(s);
    QuotedIs(s);
    StartsWithBoth(s, TRANSFER_ENCODING, CHUNKED);
    hide StartsWith, CStr, Atol, HexLong, Quoted;
  }

  // --- What a whole block says -----------------------------------------------------------------------

  /** What the line reader makes of a line, and of all lines. */
  function Pieces(line: seq<byte>, room: nat): seq<seq<byte>>
    requires room > 0
  {
    if |line| < room then [line] else [line[..room]] + Pieces(line[room..], room)
  }

  function AllPieces(lines: seq<seq<byte>>, room: nat): seq<seq<byte>>
    requires room > 0
  {
    if lines == [] then [] else Pieces(lines[0], room) + AllPieces(lines[1..], room)
  }

  function After(pieces: seq<seq<byte>>, room: nat, h: Head): Head {
    if pieces == [] then h
    else After(pieces[1..], room, match Field(pieces[0], room, h) case Set(x) => x case _ => h)
  }

  ghost predicate Pass(pieces: seq<seq<byte>>, room: nat) {
    forall i :: 0 <= i < |pieces| ==> Passes(pieces[i], room)
  }

  lemma {:induction false} AfterBoth(a: seq<seq<byte>>, b: seq<seq<byte>>, room: nat, h: Head)
    ensures After(a + b, room, h) == After(b, room, After(a, room, h))
    ensures Pass(a + b, room) <==> Pass(a, room) && Pass(b, room)
  {
    PassBoth(a, b, room);
    if a == [] {
      assert a + b == b;
    } else {
      assert (a + b)[1..] == a[1..] + b;
      AfterBoth(a[1..], b, room, match Field(a[0], room, h) case Set(x) => x case _ => h);
    }
  }

  lemma PassBoth(a: seq<seq<byte>>, b: seq<seq<byte>>, room: nat)
    ensures Pass(a + b, room) <==> Pass(a, room) && Pass(b, room)
  {
    var ab := a + b;
    if Pass(ab, room) {
      forall i | 0 <= i < |a| ensures Passes(a[i], room) {
        assert ab[i] == a[i];
      }
      forall i | 0 <= i < |b| ensures Passes(b[i], room) {
        var k := |a| + i;
        assert ab[k] == b[i];
      }
    }
  }

  lemma {:induction false} PiecesMean(line: seq<byte>, room: nat, h: Head)
    requires room > 0
    ensures FieldsOf(line, room, h) == After(Pieces(line, room), room, h)
    ensures PiecesPass(line, room) <==> Pass(Pieces(line, room), room)
    decreases |line|
  {
    hide Field, Passes;
    if |line| < room {
      var ps := [line];
      assert ps[0] == line && ps[1..] == [];
    } else {
      var first: seq<seq<byte>>, more := [line[..room]], Pieces(line[room..], room);
      assert (first + more)[0] == line[..room] && (first + more)[1..] == more;
      PassBoth(first, more, room);
      assert Pass(first, room) <==> Passes(first[0], room);
      PiecesMean(line[room..], room, match Field(line[..room], room, h) case Set(x) => x case _ => h);
    }
  }

  lemma {:induction false} AllPiecesMean(lines: seq<seq<byte>>, room: nat, h: Head)
    requires room > 0
    ensures FieldsOfAll(lines, room, h) == After(AllPieces(lines, room), room, h)
    ensures AllPass(lines, room) <==> Pass(AllPieces(lines, room), room)
    decreases |lines|
  {
    hide After, FieldsOf, Pieces, PiecesPass, Pass;
    if lines == [] {
      NoPieces(room, h);
      assert AllPass(lines, room);
    } else {
      var h' := FieldsOf(lines[0], room, h);
      PiecesMean(lines[0], room, h);
      AllPassParts(lines, room);
      hide AllPass;
      AllPiecesMean(lines[1..], room, h');
      AfterBoth(Pieces(lines[0], room), AllPieces(lines[1..], room), room, h);
    }
  }

  lemma NoPieces(room: nat, h: Head)
    ensures After([], room, h) == h && Pass([], room)
  {}

  /** No piece from the `i`th on says anything about `field`. */
  ghost predicate SilentFrom(pieces: seq<seq<byte>>, i: nat, field: FieldName) {
    forall j :: i <= j < |pieces| ==> !Says(pieces[j], field)
  }

  /** A field that no piece names stays as it was. */
  lemma {:induction false} NobodySays(pieces: seq<seq<byte>>, room: nat, h: Head, field: FieldName)
    requires Pass(pieces, room) && SilentFrom(pieces, 0, field)
    ensures ValueOf(After(pieces, room, h), field) == ValueOf(h, field)
    decreases |pieces|
  {
    hide ValueOf, Says, Passes, Field, Said;
    if pieces != [] {
      PieceSets(pieces[0], room, h, field);
      NobodySays(pieces[1..], room, Field(pieces[0], room, h).head, field);
    }
  }

  /** The last piece that names a field decides. */
  lemma {:induction false} LastPieceWins(pieces: seq<seq<byte>>, room: nat, h: Head, field: FieldName, i: nat)
    requires Pass(pieces, room) && i < |pieces| && Says(pieces[i], field) && SilentFrom(pieces, i + 1, field)
    ensures ValueOf(After(pieces, room, h), field) == Said(pieces[i], field)
    decreases |pieces|
  {
    hide ValueOf, Says, Passes, Field, Said;
    PieceSets(pieces[0], room, h, field);
    var h', rest := Field(pieces[0], room, h).head, pieces[1..];
    if i == 0 {
      NobodySays(rest, room, h', field);
    } else {
      LastPieceWins(rest, room, h', field, i - 1);
    }
  }

  /**
   * What a block of passing lines says, field by field: a field has the value of the last piece
   * that names it, and the value from before if there is none.
   */
  lemma HeadersMean(lines: seq<seq<byte>>, body: seq<byte>, room: nat, h: Head, field: FieldName)
    requires room > 0 && Lines(lines) && AllPass(lines, room)
    ensures var r, pieces := ParseHeaders(Block(lines, body), room, h), AllPieces(lines, room);
      r.outcome == Done && r.rest == body &&
      (SilentFrom(pieces, 0, field) ==> ValueOf(r.head, field) == ValueOf(h, field)) &&
      forall i | 0 <= i < |pieces| && Says(pieces[i], field) && SilentFrom(pieces, i + 1, field) ::
        ValueOf(r.head, field) == Said(pieces[i], field)
  {
    hide ParseHeaders, Block, Says, Said, ValueOf;
    BlockParsed(lines, body, room, h);
    AllPiecesMean(lines, room, h);
    var pieces := AllPieces(lines, room);
    if SilentFrom(pieces, 0, field) {
      NobodySays(pieces, room, h, field);
    }
    forall i | 0 <= i < |pieces| && Says(pieces[i], field) && SilentFrom(pieces, i + 1, field)
      ensures ValueOf(After(pieces, room, h), field) == Said(pieces[i], field)
    {
      LastPieceWins(pieces, room, h, field, i);
    }
    hide *;
  }

  /** Headers that the connection ends in front of the empty line are accepted as they are. */
  lemma {:induction false} EndOfInputEndsHeaders(lines: seq<seq<byte>>, room: nat, h: Head)
    requires room > 0 && Lines(lines) && AllPass(lines, room)
    ensures ParseHeaders(Unended(lines), room, h) == Parsed(FieldsOfAll(lines, room, h), [], Done)
    decreases |lines|
  {
    if lines != [] {
      var more := Unended(lines[1..]);
      AllPassParts(lines, room);
      OneLine(lines[0], more, room, h);
      hide ParseHeaders, AllPass, PiecesPass, FieldsOf;
      EndOfInputEndsHeaders(lines[1..], room, FieldsOf(lines[0], room, h));
    }
  }

  /** Header lines without the empty line. */
  function Unended(lines: seq<seq<byte>>): seq<byte> {
    if lines == [] then [] else lines[0] + ([13, 10] + Unended(lines[1..]))
  }

  // --- Numbers ---------------------------------------------------------------------------------------

  predicate White(s: seq<byte>) {
    forall i :: 0 <= i < |s| ==> s[i] == 32 || 9 <= s[i] <= 13
  }

  predicate Sign(s: seq<byte>) {
    s == [] || s == [43] || s == [45]
  }

  lemma {:induction false} DigitsStop(d: seq<byte>, more: seq<byte>, value: nat)
    requires NT.Digits(d) && (more == [] || !NT.IsDigit(more[0]))
    ensures Digits(d + more, value) == NT.ValueFrom(d, value)
    decreases |d|
  {
    if d == [] {
      assert d + more == more;
    } else {
      assert (d + more)[1..] == d[1..] + more;
      assert NT.IsDigit(d[0]);
      DigitsStop(d[1..], more, 10 * value + (d[0] - 48));
    }
  }

  /** Numbers of a Content-Length: white space, a sign, and the digits up to the first other byte. */
  lemma {:induction false} AtolReads(spaces: seq<byte>, sign: seq<byte>, d: seq<byte>, more: seq<byte>)
    requires White(spaces) && Sign(sign) && NT.Digits(d) && d != [] && (more == [] || !NT.IsDigit(more[0]))
    ensures Atol(spaces + sign + d + more) == if sign == [45] then -NT.ValueFrom(d, 0) else NT.ValueFrom(d, 0)
    decreases |spaces|
  {
    var s := spaces + sign + d + more;
    if spaces == [] {
      DigitsStop(d, more, 0);
      assert NT.IsDigit(d[0]);
      assert s == sign + (d + more);
      if sign == [] {
        assert s == d + more;
      } else {
        assert s[0] == sign[0] && s[1..] == d + more;
      }
    } else {
      assert s[0] == spaces[0];
      assert s[1..] == spaces[1..] + sign + d + more;
      AtolReads(spaces[1..], sign, d, more);
    }
  }

  /** Without digits behind white space and a sign the number is 0. */
  lemma {:induction false} AtolWithoutDigits(spaces: seq<byte>, sign: seq<byte>, more: seq<byte>)
    requires White(spaces) && Sign(sign) && (more == [] || !NT.IsDigit(more[0]))
    requires sign == [] && more != [] ==> !White(more[..1]) && !Sign(more[..1])
    ensures Atol(spaces + sign + more) == 0
    decreases |spaces|
  {
    var s := spaces + sign + more;
    if spaces == [] {
      assert s == sign + more;
      if sign == [] {
        assert s == more;
        if more != [] {
          assert more[..1] == [more[0]];
        }
      } else {
        assert s[0] == sign[0] && s[1..] == more;
      }
    } else {
      assert s[0] == spaces[0];
      assert s[1..] == spaces[1..] + sign + more;
      AtolWithoutDigits(spaces[1..], sign, more);
    }
  }

  lemma {:induction false} HexStops(d: seq<byte>, more: seq<byte>, value: nat)
    requires C.AllHex(d) && (more == [] || HexDigit(more[0]) == -1)
    ensures C.ReadHex(d + more, value).value == C.ReadHex(d, value).value
    decreases |d|
  {
    if d == [] {
      assert d + more == more;
    } else {
      assert (d + more)[1..] == d[1..] + more;
      HexStops(d[1..], more, 16 * value + HexDigit(d[0]));
    }
  }

  predicate HexPrefix(s: seq<byte>) {
    s == [] || s == [48, 120] || s == [48, 88]
  }

  /** The digits of a lone 0 are not the beginning of a prefix. */
  predicate NoPrefix(d: seq<byte>, more: seq<byte>) {
    d == [48] && |more| > 1 && HexDigit(more[1]) != -1 ==> more[0] != 120 && more[0] != 88
  }

  lemma PrefixSkipped(prefix: seq<byte>, digits: seq<byte>)
    requires prefix == [48, 120] || prefix == [48, 88]
    requires digits != [] && HexDigit(digits[0]) != -1
    ensures HexDigits(prefix + digits) == C.ReadHex(digits, 0).value
  {
    var s := prefix + digits;
    hide C.ReadHex;
    assert s[0] == prefix[0] && s[1] == prefix[1] && s[2] == digits[0] && s[2..] == digits;
  }

  lemma NoPrefixSkipped(d: seq<byte>, more: seq<byte>)
    requires C.AllHex(d) && d != [] && NoPrefix(d, more)
    ensures HexDigits(d + more) == C.ReadHex(d + more, 0).value
  {
    var s := d + more;
    hide C.ReadHex;
    if |d| > 1 {
      assert s[1] == d[1] && HexDigit(d[1]) != -1;
    } else if |s| > 2 {
      assert s[1] == more[0] && s[2] == more[1];
    }
  }

  lemma HexDigitsRead(prefix: seq<byte>, d: seq<byte>, more: seq<byte>)
    requires HexPrefix(prefix) && C.AllHex(d) && d != [] && (more == [] || HexDigit(more[0]) == -1)
    requires prefix == [] ==> NoPrefix(d, more)
    ensures HexDigits(prefix + d + more) == C.ReadHex(d, 0).value
  {
    HexStops(d, more, 0);
    hide C.ReadHex, HexDigits;
    if prefix == [] {
      assert prefix + d == d;
      NoPrefixSkipped(d, more);
    } else {
      assert HexDigit(d[0]) != -1;
      Assoc(prefix, d, more);
      PrefixSkipped(prefix, d + more);
    }
  }

  function Capped(n: nat, negative: bool): nat {
    if !negative then if n < 0x8000_0000 then n else 0x7fff_ffff
    else if n == 0 then 0 else if n <= 0x8000_0000 then 0x1_0000_0000 - n else 0x8000_0000
  }

  /** Entity tags: white space, a sign, "0x" or not, and hexadecimal digits, capped to 32 bits. */
  lemma {:induction false} HexLongReads(spaces: seq<byte>, sign: seq<byte>, prefix: seq<byte>, d: seq<byte>, more: seq<byte>)
    requires White(spaces) && Sign(sign) && HexPrefix(prefix) && C.AllHex(d) && d != []
    requires (more == [] || HexDigit(more[0]) == -1) && (prefix == [] ==> NoPrefix(d, more))
    ensures HexLong(spaces + (sign + (prefix + d + more))) == Capped(C.ReadHex(d, 0).value, sign == [45])
    decreases |spaces|
  {
    var digits := prefix + d + more;
    var s := spaces + (sign + digits);
    if spaces == [] {
      HexDigitsRead(prefix, d, more);
      assert HexDigit(d[0]) != -1 && digits[0] == if prefix == [] then d[0] else 48;
      hide HexDigits, C.ReadHex;
      assert s == sign + digits;
      if sign == [] {
        assert s == digits;
      } else {
        assert s[0] == sign[0] && s[1..] == digits;
      }
    } else {
      assert s[0] == spaces[0] && s[1..] == spaces[1..] + (sign + digits);
      HexLongReads(spaces[1..], sign, prefix, d, more);
    }
  }

  /** The tag of an If-None-Match stands behind its first quote. */
  lemma {:induction false} QuotedAt(a: seq<byte>, b: seq<byte>)
    requires 34 !in a
    ensures Quoted(a + ([34] + b)) == Some(b)
  {
    var s := a + ([34] + b);
    if a == [] {
      assert s == [34] + b;
    } else {
      assert s[0] == a[0] && s[1..] == a[1..] + ([34] + b);
      QuotedAt(a[1..], b);
    }
  }

  // --- The body --------------------------------------------------------------------------------------

  /** A piece that names Content-Length, in any letter case, and gives `n` in decimal. */
  ghost predicate GivesLength(piece: seq<byte>, n: nat) {
    exists name: seq<byte> ::
      |name| == |CONTENT_LENGTH| && StartsWith(name, CONTENT_LENGTH) && piece == name + NT.Numeral(n, 10)
  }

  lemma LengthGiven(name: seq<byte>, n: nat)
    requires |name| == |CONTENT_LENGTH| && StartsWith(name, CONTENT_LENGTH)
    ensures var piece := name + NT.Numeral(n, 10);
      Says(piece, Body) && Said(piece, Body) == Number(n) && (Says(piece, Remaining) <==> n != 0)
  {
    var d := NT.Numeral(n, 10);
    var piece := name + d;
    NT.NumeralMeans(n);
    AtolReads([], [], d, []);
    assert [] + [] + d + [] == d;
    hide NT.Numeral, NT.ValueFrom, NT.SumsFit, Atol;
    NameNulFree(name, d);
    CStrAll(piece);
    assert piece[|CONTENT_LENGTH|..] == d;
  }

  lemma NameNulFree(name: seq<byte>, d: seq<byte>)
    requires |name| == |CONTENT_LENGTH| && StartsWith(name, CONTENT_LENGTH) && NT.Digits(d)
    ensures NulFree(name + d)
  {
    forall i | 0 <= i < |d| ensures d[i] != 0 {
      assert NT.IsDigit(d[i]);
    }
    forall i | 0 <= i < |name| ensures name[i] != 0 {
      assert Lower(name[i]) == Lower(CONTENT_LENGTH[i]);
    }
  }

  /** Some piece gives the length `n`, and no other one names Content-Length. */
  ghost predicate Announces(pieces: seq<seq<byte>>, i: nat, n: nat) {
    i < |pieces| && GivesLength(pieces[i], n) && forall j :: 0 <= j < |pieces| && j != i ==> !Named(pieces[j], CONTENT_LENGTH)
  }

  /**
   * A Content-Length in any letter case, at any place among other lines, is what remains to be
   * read when the headers are done; the length 0 leaves what remained before.
   */
  lemma LengthAnnounced(lines: seq<seq<byte>>, body: seq<byte>, room: nat, h: Head, i: nat, n: nat)
    requires room > 0 && Lines(lines) && AllPass(lines, room) && Announces(AllPieces(lines, room), i, n)
    ensures var r := ParseHeaders(Block(lines, body), room, h);
      r.outcome == Done && r.rest == body && r.head.body == n && r.head.remaining == if n == 0 then h.remaining else n
  {
    var pieces := AllPieces(lines, room);
    hide ParseHeaders, Block, AllPieces, AllPass, Lines;
    var piece := pieces[i];
    var name: seq<byte> :| |name| == |CONTENT_LENGTH| && StartsWith(name, CONTENT_LENGTH) && piece == name + NT.Numeral(n, 10);
    LengthGiven(name, n);
    hide Named;
    HeadersMean(lines, body, room, h, Body);
    HeadersMean(lines, body, room, h, Remaining);
    assert SilentFrom(pieces, i + 1, Body) && SilentFrom(pieces, i + 1, Remaining);
    assert n == 0 ==> SilentFrom(pieces, 0, Remaining);
  }

  /**
   * A whole request: whatever the calls' lengths, once they add up to the announced length of the
   * body the body has been delivered exactly, and what follows it on the connection is untouched.
   */
  lemma BodyDelivered(lines: seq<seq<byte>>, body: seq<byte>, next: seq<byte>, room: nat, h: Head, i: nat, lengths: seq<int>)
    requires room > 0 && Lines(lines) && AllPass(lines, room) && Announces(AllPieces(lines, room), i, |body|)
    requires h.remaining == 0 && Asked(lengths) >= |body|
    ensures var r := ParseHeaders(Block(lines, body + next), room, h);
      r.outcome == Done && Delivered(LinkOf(r), lengths) == body && AfterRun(LinkOf(r), lengths) == Link(0, next)
  {
    LengthAnnounced(lines, body + next, room, h, i, |body|);
    hide ParseHeaders, Block, AllPass, Announces, AllPieces;
    var l := Link(|body|, body + next);
    RunDelivers(l, lengths);
    Prefixes(Delivered(l, lengths), AfterRun(l, lengths).input, body, next);
  }

  /** Without a Content-Length nothing is delivered. */
  lemma NoBodyDelivered(lines: seq<seq<byte>>, next: seq<byte>, room: nat, h: Head, lengths: seq<int>)
    requires room > 0 && Lines(lines) && AllPass(lines, room) && h.remaining == 0
    requires forall j :: 0 <= j < |AllPieces(lines, room)| ==> !Named(AllPieces(lines, room)[j], CONTENT_LENGTH)
    ensures var r := ParseHeaders(Block(lines, next), room, h);
      r.outcome == Done && Delivered(LinkOf(r), lengths) == [] && AfterRun(LinkOf(r), lengths) == Link(0, next)
  {
    HeadersMean(lines, next, room, h, Remaining);
    assert SilentFrom(AllPieces(lines, room), 0, Remaining);
    hide ParseHeaders, Block, AllPass, AllPieces, Named;
    var l := Link(0, next);
    RunDelivers(l, lengths);
    Prefixes(Delivered(l, lengths), AfterRun(l, lengths).input, [], next);
  }
}
