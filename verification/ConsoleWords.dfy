/**
 * Every way of writing the arguments of a command line: words in quotes and words without, escaped
 * characters, and any number of spaces in between.
 */
module ConsoleWords {
  import opened Memory
  import opened Wrappers
  import opened ConsoleText

  // Characters: 32 space, 34 quote, 92 backslash.

  predicate EndsInBackslash(text: seq<byte>) {
    text != [] && text[|text| - 1] == 92
  }

  /**
   * The ways to write byte `c` behind `text` in a word: as it is, unless that ends or begins something,
   * or, for a space or a quote, behind a backslash.
   */
  predicate Writes(piece: seq<byte>, c: byte, text: seq<byte>, quoted: bool) {
    (piece == [c] && c != (if quoted then 34 else 32) && (c == 34 || c == 32 ==> !EndsInBackslash(text)) &&
      (c == 34 ==> text != [])) ||
    (piece == [92, c] && (c == 34 || c == 32))
  }

  predicate Spelled(pieces: seq<seq<byte>>, word: seq<byte>, text: seq<byte>, quoted: bool)
    decreases |pieces|
  {
    if pieces == [] || word == [] then pieces == [] && word == []
    else Writes(pieces[0], word[0], text, quoted) && Spelled(pieces[1..], word[1..], text + [word[0]], quoted)
  }

  /** A word, how many spaces stand in front of it, and how it is written. */
  datatype Word = Word(gap: nat, text: seq<byte>, quoted: bool, pieces: seq<seq<byte>>)

  function WordText(w: Word): seq<byte> {
    if w.quoted then [34] + Cat(w.pieces) + [34] else Cat(w.pieces)
  }

  function Spaces(n: nat): seq<byte> {
    if n == 0 then [] else [32] + Spaces(n - 1)
  }

  /** The words of a line and the spaces at its end. */
  function LineText(words: seq<Word>, end: nat): seq<byte>
    decreases |words|
  {
    if words == [] then Spaces(end) else Spaces(words[0].gap) + (WordText(words[0]) + LineText(words[1..], end))
  }

  function Texts(words: seq<Word>): seq<seq<byte>> {
    if words == [] then [] else [words[0].text] + Texts(words[1..])
  }

  /** A word without quotes is not empty, and ends with a space or with the line. */
  predicate WordOk(w: Word, rest: seq<byte>) {
    Spelled(w.pieces, w.text, [], w.quoted) &&
    if w.quoted then !EndsInBackslash(w.text)
    else w.text != [] && (rest == [] || (rest[0] == 32 && !EndsInBackslash(w.text)))
  }

  predicate LineOk(words: seq<Word>, end: nat)
    decreases |words|
  {
    words == [] || (WordOk(words[0], LineText(words[1..], end)) && LineOk(words[1..], end))
  }

  function At(text: seq<byte>, quoted: bool): Current {
    if quoted then Quoted(text) else if text == [] then Nothing else Plain(text)
  }

  lemma TokeniseNext(c: byte, more: seq<byte>, args: seq<seq<byte>>, cur: Current, next: Current)
    requires |args| < 4 && Next(cur, c) == After(None, next)
    ensures Tokenise([c] + more, args, cur) == Tokenise(more, args, next)
  {
    assert ([c] + more)[1..] == more;
    hide Next;
  }

  lemma PieceRead(piece: seq<byte>, c: byte, more: seq<byte>, args: seq<seq<byte>>, text: seq<byte>, quoted: bool)
    requires |args| < 4 && Writes(piece, c, text, quoted)
    ensures Tokenise(piece + more, args, At(text, quoted)) == Tokenise(more, args, At(text + [c], quoted))
  {
    hide Tokenise;
    assert text == [] ==> text + [c] == [c] && text + [92] == [92];
    if piece == [c] {
      TokeniseNext(c, more, args, At(text, quoted), At(text + [c], quoted));
    } else {
      var escaping, done := At(text + [92], quoted), At(text + [c], quoted);
      assert [92] + ([c] + more) == piece + more;
      TokeniseNext(92, [c] + more, args, At(text, quoted), escaping);
      assert escaping.text == text + [92] && escaping.text[..|text|] == text && escaping.Escaping();
      TokeniseNext(c, more, args, escaping, done);
    }
  }

  lemma {:induction false} PiecesRead(pieces: seq<seq<byte>>, word: seq<byte>, more: seq<byte>, args: seq<seq<byte>>,
                                      text: seq<byte>, quoted: bool)
    requires |args| < 4 && Spelled(pieces, word, text, quoted)
    ensures Tokenise(Cat(pieces) + more, args, At(text, quoted)) == Tokenise(more, args, At(text + word, quoted))
    decreases |pieces|
  {
    if pieces == [] {
      assert Cat(pieces) + more == more && text + word == text;
    } else {
      var first, tail := word[0], word[1..];
      var text' := text + [first];
      CatAhead(pieces, more);
      assert word == [first] + tail;
      Assoc(text, [first], tail);
      hide Cat, Tokenise, At, Writes;
      PieceRead(pieces[0], first, Cat(pieces[1..]) + more, args, text, quoted);
      PiecesRead(pieces[1..], tail, more, args, text', quoted);
    }
  }

  lemma {:induction false} SpacesSkipped(n: nat, more: seq<byte>, args: seq<seq<byte>>)
    ensures Tokenise(Spaces(n) + more, args, Nothing) == Tokenise(more, args, Nothing)
  {
    if n == 0 {
      assert Spaces(n) + more == more;
    } else {
      assert (Spaces(n) + more)[1..] == Spaces(n - 1) + more;
      SpacesSkipped(n - 1, more, args);
    }
  }

  lemma QuotedText(body: seq<byte>, rest: seq<byte>, inner: seq<byte>, text: seq<byte>)
    requires inner == body + ([34] + rest) && text == [34] + body + [34]
    ensures text + rest == [34] + inner
  {}

  lemma QuotedRead(w: Word, rest: seq<byte>, args: seq<seq<byte>>)
    requires w.quoted && WordOk(w, rest) && |args| < 4
    ensures Tokenise(WordText(w) + rest, args, Nothing) == Tokenise(rest, args + [w.text], Nothing)
  {
    var body, end: seq<byte> := Cat(w.pieces), [34] + rest;
    var inner := body + end;
    QuotedText(body, rest, inner, WordText(w));
    assert [] + w.text == w.text;
    hide Tokenise, Cat, Spelled, WordText;
    TokeniseNext(34, inner, args, Nothing, Quoted([]));
    PiecesRead(w.pieces, w.text, end, args, [], true);
    WordEnds(34, rest, args, Quoted(w.text));
  }

  lemma WordEnds(c: byte, more: seq<byte>, args: seq<seq<byte>>, cur: Current)
    requires |args| < 4 && !cur.Nothing? && Next(cur, c) == After(Some(cur.text), Nothing)
    ensures Tokenise([c] + more, args, cur) == Tokenise(more, args + [cur.text], Nothing)
  {
    assert ([c] + more)[1..] == more;
    hide Next;
  }

  lemma PlainRead(w: Word, rest: seq<byte>, args: seq<seq<byte>>)
    requires !w.quoted && WordOk(w, rest) && |args| < 4
    ensures Tokenise(WordText(w) + rest, args, Nothing) == Tokenise(rest, args + [w.text], Nothing)
  {
    assert [] + w.text == w.text;
    PiecesRead(w.pieces, w.text, rest, args, [], false);
    if rest != [] {
      var more := rest[1..];
      assert rest == [32] + more;
      hide Spelled, Cat;
      WordEnds(32, more, args, Plain(w.text));
      SpacesSkipped(1, more, args + [w.text]);
      assert Spaces(1) == [32];
    }
  }

  /** However the arguments are written, up to four of them are read back. */
  lemma {:induction false} WordsRead(words: seq<Word>, end: nat, before: seq<seq<byte>>)
    requires LineOk(words, end) && |before| + |words| <= 4
    ensures Tokenise(LineText(words, end), before, Nothing) == Args(before + Texts(words))
    decreases |words|
  {
    if words == [] {
      SpacesSkipped(end, [], before);
      assert Spaces(end) + [] == Spaces(end) && before + Texts(words) == before;
    } else {
      var w, rest, after := words[0], LineText(words[1..], end), Texts(words[1..]);
      assert before + Texts(words) == before + [w.text] + after;
      SpacesSkipped(w.gap, WordText(w) + rest, before);
      hide Tokenise, WordText, WordOk, Spaces, Texts;
      if w.quoted {
        QuotedRead(w, rest, before);
      } else {
        PlainRead(w, rest, before);
      }
      WordsRead(words[1..], end, before + [w.text]);
    }
  }

  /** A quote that is not closed is an error, wherever the line ends. */
  lemma OpenQuoteIsError(gap: nat, pieces: seq<seq<byte>>, text: seq<byte>, args: seq<seq<byte>>)
    requires |args| < 4 && Spelled(pieces, text, [], true)
    ensures Tokenise(Spaces(gap) + ([34] + Cat(pieces)), args, Nothing) == OpenQuote
  {
    var more: seq<byte> := [];
    assert Cat(pieces) + more == Cat(pieces);
    SpacesSkipped(gap, [34] + Cat(pieces), args);
    TokeniseNext(34, Cat(pieces), args, Nothing, Quoted([]));
    hide Cat, Spelled;
    PiecesRead(pieces, text, more, args, [], true);
  }
}
