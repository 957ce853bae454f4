/**
 * Looking up a tag in URL-encoded form data: `httpd_parse_msgbody`, `__httpd_parse_all_tags` and
 * `httpd_get_tag_from_post_data` of cores/arduino/httpserver/http_parse.c. Texts and tags are C
 * strings, given without their NUL.
 */
module FormData {
  import opened Memory
  import opened Wrappers

  /** The byte that `%XX` at the front of a text stands for, or -1. */
  function Escape(text: seq<byte>): (c: int)
    ensures -1 <= c < 256
    ensures c >= 0 ==> |text| >= 3
  {
    if |text| < 3 || HexDigit(text[1]) == -1 || HexDigit(text[2]) == -1 then -1
    else 16 * HexDigit(text[1]) + HexDigit(text[2])
  }

  // --- One pair ------------------------------------------------------------------------------------

  /**
   * How the name at the front of a text compares with a tag: the text ends or has a bad escape,
   * it differs (and the scan stopped at `rest`), it is the same (and `rest` starts with the '='),
   * or the scan leaves its strings: a decoded NUL sends it past the end of the tag, a '%' that is
   * the last byte makes it read behind the text.
   */
  datatype NameResult = Bad | Differs(rest: seq<byte>) | Same(rest: seq<byte>) | Overrun

  function MatchName(text: seq<byte>, tag: seq<byte>): NameResult
    decreases |text|
  {
    if text == [] then Bad
    else if text[0] == 61 then (if tag == [] then Same(text) else Differs(text))
    else if text[0] == 37 then
      if |text| == 1 then Overrun
      else if Escape(text) == -1 then Bad
      else if tag == [] then (if Escape(text) == 0 then Overrun else Differs(text[3..]))
      else if tag[0] != Escape(text) then Differs(text[3..])
      else MatchName(text[3..], tag[1..])
    else
      var c := if text[0] == 43 then 32 else text[0];
      if tag == [] || tag[0] != c then Differs(text) else MatchName(text[1..], tag[1..])
  }

  /** How a value ends: well, at a bad escape, or at a '%' behind which the text is left. */
  datatype End = Good | BadEscape | PastText

  /** Up to `n` decoded bytes, and what is left of the text. */
  datatype Taken = Taken(bytes: seq<byte>, rest: seq<byte>, end: End)

  function TakeValue(text: seq<byte>, n: nat): (t: Taken)
    ensures |t.bytes| <= n && (t.end != Good ==> |t.bytes| < n)
    decreases n
  {
    if n == 0 || text == [] || text[0] == 38 then Taken([], text, Good)
    else if text[0] == 37 then
      if |text| == 1 then Taken([], text, PastText)
      else if Escape(text) == -1 then Taken([], text, BadEscape)
      else Cons(Escape(text), TakeValue(text[3..], n - 1))
    else Cons(if text[0] == 43 then 32 else text[0], TakeValue(text[1..], n - 1))
  }

  function Cons(c: byte, t: Taken): Taken {
    t.(bytes := [c] + t.bytes)
  }

  /** What follows the first '&'. */
  function After(text: seq<byte>): (rest: Option<seq<byte>>)
    ensures rest.Some? ==> |rest.value| < |text|
  {
    if text == [] then None
    else if text[0] == 38 then Some(text[1..])
    else After(text[1..])
  }

  // --- The whole text ------------------------------------------------------------------------------

  /**
   * `Found` is the only success. `Unterminated` is a match in a pair without an '&' behind it:
   * its value is stored all the same, but the lookup fails. `Undefined` is a scan that leaves its
   * strings.
   */
  datatype Outcome = Missing | Undefined(v: seq<byte>) | BadValue(v: seq<byte>) | Unterminated(v: seq<byte>) | Found(v: seq<byte>)

  lemma RestIsShorter(text: seq<byte>, tag: seq<byte>)
    ensures var m := MatchName(text, tag); (m.Differs? || m.Same? ==> |m.rest| <= |text|)
    ensures var m := MatchName(text, tag); (m.Same? ==> m.rest != [] && m.rest[0] == 61)
    decreases |text|
  {}

  function GetTag(text: seq<byte>, tag: seq<byte>, n: nat): Outcome
    decreases |text|
  {
    RestIsShorter(text, tag);
    match MatchName(text, tag)
    case Bad => Missing
    case Overrun => Undefined([])
    case Differs(rest) =>
      (match After(rest)
       case None => Missing
       case Some(next) => GetTag(next, tag, n))
    case Same(rest) => ValueOutcome(rest[1..], n)
  }

  /** What a lookup comes to once the value starts at `text`. */
  function ValueOutcome(text: seq<byte>, n: nat): Outcome {
    var t := TakeValue(text, n);
    if t.end == PastText then Undefined(t.bytes)
    else if t.end == BadEscape then BadValue(t.bytes)
    else if After(t.rest) == None then Unterminated(t.bytes)
    else Found(t.bytes)
  }

  // --- Encoded pairs (section 17.13.4 of HTML 4.01, section 2.1 of RFC 3986) -------------------------

  /** The ways to write one byte; a space may also be a '+'. A NUL, and '=' in a name, must be escaped. */
  predicate Writes(piece: seq<byte>, c: byte, inName: bool) {
    (piece == [c] && c != 0 && c != 37 && c != 38 && c != 43 && (inName ==> c != 61)) ||
    (|piece| == 3 && piece[0] == 37 && Escape(piece) == c) ||
    (piece == [43] && c == 32)
  }

  ghost predicate Encodes(pieces: seq<seq<byte>>, s: seq<byte>, inName: bool) {
    |pieces| == |s| && forall i :: 0 <= i < |s| ==> Writes(pieces[i], s[i], inName)
  }

  /** A pair together with one way of writing it. */
  datatype Pair = Pair(name: seq<byte>, value: seq<byte>, nameText: seq<seq<byte>>, valueText: seq<seq<byte>>)

  ghost predicate PairOk(p: Pair) {
    Encodes(p.nameText, p.name, true) && Encodes(p.valueText, p.value, false)
  }

  ghost predicate PairsOk(pairs: seq<Pair>) {
    forall i :: 0 <= i < |pairs| ==> PairOk(pairs[i])
  }

  /** The pairs as text; the last one is followed by '&' only if `closed`. */
  function Wire(pairs: seq<Pair>, closed: bool): seq<byte> {
    if pairs == [] then []
    else PairText(pairs[0], (if |pairs| > 1 || closed then [38] else []) + Wire(pairs[1..], closed))
  }

  function PairText(p: Pair, tail: seq<byte>): seq<byte> {
    Cat(p.nameText) + ([61] + (Cat(p.valueText) + tail))
  }

  /** A name that ends a lookup: the tag itself, or the tag and a NUL in front of anything. */
  predicate Hits(name: seq<byte>, tag: seq<byte>) {
    name == tag || tag + [0] <= name
  }

  /** The number of the first pair with such a name, or the number of pairs. */
  function FirstHit(pairs: seq<Pair>, tag: seq<byte>): (i: nat)
    ensures i <= |pairs| && (i < |pairs| ==> Hits(pairs[i].name, tag))
    ensures forall j :: 0 <= j < i ==> !Hits(pairs[j].name, tag)
  {
    if pairs == [] || Hits(pairs[0].name, tag) then 0 else 1 + FirstHit(pairs[1..], tag)
  }

  predicate NoAmp(s: seq<byte>) {
    forall i :: 0 <= i < |s| ==> s[i] != 38
  }

  lemma {:induction false} AfterSkips(a: seq<byte>, b: seq<byte>)
    requires NoAmp(a)
    ensures After(a + b) == After(b)
  {
    if a == [] {
      assert a + b == b;
    } else {
      assert (a + b)[1..] == a[1..] + b;
      AfterSkips(a[1..], b);
    }
  }

  lemma EncodesParts(pieces: seq<seq<byte>>, s: seq<byte>, inName: bool)
    requires Encodes(pieces, s, inName)
    ensures |pieces| == |s|
    ensures pieces != [] ==>
      Writes(pieces[0], s[0], inName) && Encodes(pieces[1..], s[1..], inName)
  {}

  lemma {:induction false} NoAmpInPieces(pieces: seq<seq<byte>>, s: seq<byte>, inName: bool)
    requires Encodes(pieces, s, inName)
    ensures NoAmp(Cat(pieces))
  {
    if pieces != [] {
      assert Writes(pieces[0], s[0], inName);
      NoAmpInPieces(pieces[1..], s[1..], inName);
    }
  }

  lemma EscapeAhead(piece: seq<byte>, more: seq<byte>)
    requires |piece| == 3
    ensures Escape(piece + more) == Escape(piece) && (piece + more)[3..] == more
  {}

  lemma NameStep(piece: seq<byte>, c: byte, more: seq<byte>, tag: seq<byte>)
    requires Writes(piece, c, true)
    ensures tag != [] && tag[0] == c ==> MatchName(piece + more, tag) == MatchName(more, tag[1..])
    ensures tag == [] && c == 0 ==> MatchName(piece + more, tag) == Overrun
    ensures (if tag == [] then c != 0 else tag[0] != c) ==>
      var m := MatchName(piece + more, tag); m.Differs? && After(m.rest) == After(more)
  {
    AfterSkips(piece, more);
    if |piece| == 3 {
      EscapeAhead(piece, more);
    } else {
      assert (piece + more)[1..] == more;
    }
  }

  lemma Consed(value: seq<byte>, t: Taken, n: nat)
    requires value != [] && n > 0 && t.bytes == Cut(value[1..], n - 1)
    ensures Cons(value[0], t) == t.(bytes := Cut(value, n))
  {
    assert Cut(value, n) == [value[0]] + Cut(value[1..], n - 1);
  }

  /** For every way of writing a name: what its comparison with a tag comes to. */
  lemma {:induction false} NameOnWire(pieces: seq<seq<byte>>, name: seq<byte>, tag: seq<byte>, tail: seq<byte>)
    requires Encodes(pieces, name, true) && NulFree(tag)
    ensures name == tag ==> MatchName(Cat(pieces) + ([61] + tail), tag) == Same([61] + tail)
    ensures tag + [0] <= name ==> MatchName(Cat(pieces) + ([61] + tail), tag) == Overrun
    ensures !Hits(name, tag) ==>
      var m := MatchName(Cat(pieces) + ([61] + tail), tag); m.Differs? && After(m.rest) == After([61] + tail)
    decreases |pieces|
  {
    EncodesParts(pieces, name, true);
    hide Encodes, Writes, Escape;
    if pieces == [] {
      assert Cat(pieces) + ([61] + tail) == [61] + tail;
    } else {
      var more := Cat(pieces[1..]) + ([61] + tail);
      CatAhead(pieces, [61] + tail);
      NameStep(pieces[0], name[0], more, tag);
      NoAmpInPieces(pieces[1..], name[1..], true);
      AfterSkips(Cat(pieces[1..]), [61] + tail);
      HitsNext(name, tag);
      hide MatchName, Hits;
      if tag != [] && tag[0] == name[0] {
        NameOnWire(pieces[1..], name[1..], tag[1..], tail);
      }
    }
  }

  lemma HitsNext(name: seq<byte>, tag: seq<byte>)
    requires name != [] && NulFree(tag)
    ensures tag == [] ==> (Hits(name, tag) <==> name[0] == 0) && (tag + [0] <= name <==> name[0] == 0) && name != tag
    ensures tag != [] && tag[0] != name[0] ==> !Hits(name, tag)
    ensures tag != [] ==> NulFree(tag[1..])
    ensures tag != [] && tag[0] == name[0] ==>
      (name == tag <==> name[1..] == tag[1..]) &&
      (tag + [0] <= name <==> tag[1..] + [0] <= name[1..]) && (Hits(name, tag) <==> Hits(name[1..], tag[1..]))
  {
    assert tag != [] ==> tag == [tag[0]] + tag[1..] && (tag + [0])[1..] == tag[1..] + [0];
    assert name == [name[0]] + name[1..];
  }

  lemma HitsNulFree(name: seq<byte>, tag: seq<byte>)
    requires NulFree(name)
    ensures Hits(name, tag) <==> name == tag
  {
    if tag + [0] <= name {
      NulBehind(name, tag);
    }
  }

  lemma NulBehind(name: seq<byte>, tag: seq<byte>)
    requires tag + [0] <= name
    ensures !NulFree(name)
  {
    assert name[|tag|] == (tag + [0])[|tag|];
  }

  /** For every way of writing a name: exactly when the scan runs past the end of the tag. */
  lemma NameOverrunsExactly(pieces: seq<seq<byte>>, name: seq<byte>, tag: seq<byte>, tail: seq<byte>)
    requires Encodes(pieces, name, true) && NulFree(tag)
    ensures MatchName(Cat(pieces) + ([61] + tail), tag) == Overrun <==> tag + [0] <= name
  {
    NameOnWire(pieces, name, tag, tail);
    hide MatchName;
  }

  lemma ValueStep(piece: seq<byte>, c: byte, more: seq<byte>, n: nat)
    requires Writes(piece, c, false) && n > 0
    ensures TakeValue(piece + more, n) == Cons(c, TakeValue(more, n - 1))
  {
    if |piece| == 3 {
      EscapeAhead(piece, more);
    } else {
      assert (piece + more)[1..] == more;
    }
  }

  lemma {:induction false} ValueOnWire(pieces: seq<seq<byte>>, value: seq<byte>, tail: seq<byte>, n: nat)
    requires Encodes(pieces, value, false) && (tail == [] || tail[0] == 38)
    ensures var t := TakeValue(Cat(pieces) + tail, n);
      t.end == Good && t.bytes == Cut(value, n) && After(t.rest) == After(tail)
    decreases |pieces|
  {
    EncodesParts(pieces, value, false);
    if pieces == [] {
      assert Cat(pieces) + tail == tail;
    } else if n == 0 {
      NoAmpInPieces(pieces, value, false);
      AfterSkips(Cat(pieces), tail);
    } else {
      hide *;
      var more := Cat(pieces[1..]) + tail;
      CatAhead(pieces, tail);
      ValueStep(pieces[0], value[0], more, n);
      ValueOnWire(pieces[1..], value[1..], tail, n - 1);
      Consed(value, TakeValue(more, n - 1), n);
    }
  }

  lemma TagSame(text: seq<byte>, tag: seq<byte>, n: nat, rest: seq<byte>)
    requires MatchName(text, tag) == Same(rest) && rest != []
    ensures GetTag(text, tag, n) == ValueOutcome(rest[1..], n)
  {}

  lemma TagDiffers(text: seq<byte>, tag: seq<byte>, n: nat)
    requires MatchName(text, tag).Differs?
    ensures GetTag(text, tag, n) ==
      match After(MatchName(text, tag).rest) case None => Missing case Some(next) => GetTag(next, tag, n)
  {}

  lemma ValueOutcomeOnWire(pieces: seq<seq<byte>>, value: seq<byte>, tail: seq<byte>, n: nat)
    requires Encodes(pieces, value, false) && (tail == [] || tail[0] == 38)
    ensures ValueOutcome(Cat(pieces) + tail, n) == if tail == [] then Unterminated(Cut(value, n)) else Found(Cut(value, n))
  {
    ValueOnWire(pieces, value, tail, n);
    hide TakeValue, Cut, Encodes, Cat;
  }

  lemma AfterValue(pieces: seq<seq<byte>>, value: seq<byte>, tail: seq<byte>)
    requires Encodes(pieces, value, false) && (tail == [] || tail[0] == 38)
    ensures After([61] + (Cat(pieces) + tail)) == if tail == [] then None else Some(tail[1..])
  {
    NoAmpInPieces(pieces, value, false);
    hide Encodes, Cat;
    assert [61] + (Cat(pieces) + tail) == ([61] + Cat(pieces)) + tail;
    AfterSkips([61] + Cat(pieces), tail);
  }

  /** A lookup deals with the first pair of a text in the way its decoded name asks for. */
  lemma PairOnWire(p: Pair, tail: seq<byte>, tag: seq<byte>, n: nat)
    requires PairOk(p) && NulFree(tag) && (tail == [] || tail[0] == 38)
    ensures GetTag(PairText(p, tail), tag, n) ==
      if !Hits(p.name, tag) then (if tail == [] then Missing else GetTag(tail[1..], tag, n))
      else if p.name != tag then Undefined([])
      else if tail == [] then Unterminated(Cut(p.value, n)) else Found(Cut(p.value, n))
  {
    hide MatchName, ValueOutcome, GetTag, After, Cut, Encodes, Cat;
    var value := Cat(p.valueText) + tail;
    NameOnWire(p.nameText, p.name, tag, value);
    if p.name == tag {
      ValueOutcomeOnWire(p.valueText, p.value, tail, n);
      assert ([61] + value)[1..] == value;
      TagSame(PairText(p, tail), tag, n, [61] + value);
    } else if Hits(p.name, tag) {
      TagOverrun(PairText(p, tail), tag, n);
    } else {
      AfterValue(p.valueText, p.value, tail);
      TagDiffers(PairText(p, tail), tag, n);
    }
  }

  lemma TagOverrun(text: seq<byte>, tag: seq<byte>, n: nat)
    requires MatchName(text, tag) == Overrun
    ensures GetTag(text, tag, n) == Undefined([])
  {}

  /**
   * For every list of pairs and every way of writing them: a lookup is decided by the first pair
   * whose name is the tag, or the tag and a NUL. In the second case it runs past the end of the
   * tag. In the first it yields the value, cut to `n` bytes, but succeeds only if an '&' follows.
   */
  lemma {:induction false} LookupOnWire(pairs: seq<Pair>, closed: bool, tag: seq<byte>, n: nat)
    requires PairsOk(pairs) && NulFree(tag)
    ensures var i := FirstHit(pairs, tag);
      GetTag(Wire(pairs, closed), tag, n) ==
        if i == |pairs| then Missing
        else if pairs[i].name != tag then Undefined([])
        else if closed || i < |pairs| - 1 then Found(Cut(pairs[i].value, n))
        else Unterminated(Cut(pairs[i].value, n))
    decreases |pairs|
  {
    if pairs != [] {
      var tail := (if |pairs| > 1 || closed then [38] else []) + Wire(pairs[1..], closed);
      if |pairs| > 1 || closed {
        assert tail[1..] == Wire(pairs[1..], closed);
      }
      hide GetTag, PairText, Encodes, Hits;
      PairOnWire(pairs[0], tail, tag, n);
      LookupOnWire(pairs[1..], closed, tag, n);
    }
  }

  /** Exactly when a lookup of written pairs succeeds. */
  lemma LookupSucceedsExactly(pairs: seq<Pair>, closed: bool, tag: seq<byte>, n: nat)
    requires PairsOk(pairs) && NulFree(tag) && forall i :: 0 <= i < |pairs| ==> NulFree(pairs[i].name)
    ensures GetTag(Wire(pairs, closed), tag, n).Found? <==>
      (exists i :: 0 <= i < |pairs| && pairs[i].name == tag) &&
      (closed || exists i :: 0 <= i < |pairs| - 1 && pairs[i].name == tag)
  {
    LookupOnWire(pairs, closed, tag, n);
    hide GetTag, Wire;
    forall i | 0 <= i < |pairs| ensures Hits(pairs[i].name, tag) <==> pairs[i].name == tag {
      HitsNulFree(pairs[i].name, tag);
    }
  }

  /** Exactly when a lookup of written pairs runs past the end of the tag. */
  lemma LookupOverrunsExactly(pairs: seq<Pair>, closed: bool, tag: seq<byte>, n: nat)
    requires PairsOk(pairs) && NulFree(tag)
    ensures GetTag(Wire(pairs, closed), tag, n).Undefined? <==>
      exists i :: 0 <= i < |pairs| && tag + [0] <= pairs[i].name && forall j :: 0 <= j < i ==> pairs[j].name != tag
  {
    LookupOnWire(pairs, closed, tag, n);
    hide GetTag, Wire;
    var i := FirstHit(pairs, tag);
    if k :| 0 <= k < |pairs| && tag + [0] <= pairs[k].name && forall j :: 0 <= j < k ==> pairs[j].name != tag {
      assert Hits(pairs[k].name, tag) && i <= k;
    }
    if i < |pairs| && pairs[i].name != tag {
      assert tag + [0] <= pairs[i].name && forall j :: 0 <= j < i ==> pairs[j].name != tag;
    }
  }

  /** The shortest case in which a value that is there is not found: "a=1". */
  lemma LastPairNeedsAmp()
    ensures GetTag([97, 61, 49], [97], 8) == Unterminated([49])
    ensures GetTag([97, 61, 49, 38], [97], 8) == Found([49])
  {
    var p := Pair([97], [49], [[97]], [[49]]);
    LookupOnWire([p], false, [97], 8);
    LookupOnWire([p], true, [97], 8);
    hide GetTag;
    assert Cat([[97]]) == [97] && Cat([[49]]) == [49];
    assert Wire([p], false) == [97, 61, 49];
    assert Wire([p], true) == [97, 61, 49, 38];
  }

  /** A text that sends the scan past the end of the tag "a": "a%00=1&". */
  lemma NulOverrunsTag()
    ensures GetTag([97, 37, 48, 48, 61, 49, 38], [97], 8) == Undefined([])
  {
    var p := Pair([97, 0], [49], [[97], [37, 48, 48]], [[49]]);
    LookupOnWire([p], true, [97], 8);
    hide GetTag;
    assert [[97], [37, 48, 48]][1..] == [[37, 48, 48]];
    assert Cat([[37, 48, 48]]) == [37, 48, 48] && Cat([[97], [37, 48, 48]]) == [97] + [37, 48, 48];
    assert Cat([[49]]) == [49];
    assert Wire([p], true) == [97, 37, 48, 48, 61, 49, 38];
  }

  // --- Texts of any form ---------------------------------------------------------------------------

  /** What a text decodes to as far as it does, and where that ends: at `stop` or at a bad '%'. */
  datatype Decoded = Decoded(bytes: seq<byte>, rest: seq<byte>)

  function Decode(text: seq<byte>, stop: byte): Decoded {
    if text == [] || text[0] == stop then Decoded([], text)
    else if text[0] == 37 then
      if Escape(text) == -1 then Decoded([], text)
      else
        var d := Decode(text[3..], stop);
        Decoded([Escape(text)] + d.bytes, d.rest)
    else
      var d := Decode(text[1..], stop);
      Decoded([if text[0] == 43 then 32 else text[0]] + d.bytes, d.rest)
  }

  /**
   * For every text: the name scan leaves its strings exactly if the decoded name begins with the tag
   * and a NUL, or if the text ends with a '%' in its name and all before it agrees with the tag.
   */
  lemma {:induction false} ScanOverrunsExactly(text: seq<byte>, tag: seq<byte>)
    requires NulFree(text) && NulFree(tag)
    ensures var d := Decode(text, 61);
      MatchName(text, tag) == Overrun <==> tag + [0] <= d.bytes || (d.rest == [37] && d.bytes <= tag)
    decreases |text|
  {
    var d := Decode(text, 61);
    if text == [] || text[0] == 61 || (text[0] == 37 && Escape(text) == -1) {
      assert |tag + [0]| > |d.bytes|;
      if text != [] && text[0] == 37 && |text| == 1 {
        assert text == [37];
      }
    } else {
      var k := if text[0] == 37 then 3 else 1;
      var c := d.bytes[0];
      var more := Decode(text[k..], 61);
      assert d == Decoded([c] + more.bytes, more.rest);
      HitsNext(d.bytes, tag);
      if tag != [] && tag[0] == c {
        ScanOverrunsExactly(text[k..], tag[1..]);
        assert d.bytes[1..] == more.bytes && tag == [c] + tag[1..];
      }
      hide Escape, Decode;
    }
  }

  /** And the value scan exactly if the text ends with a '%' in its value that is still to be decoded. */
  lemma {:induction false} ValueOverrunsExactly(text: seq<byte>, n: nat)
    ensures var d := Decode(text, 38);
      TakeValue(text, n).end == PastText <==> d.rest == [37] && |d.bytes| < n
    decreases |text|
  {
    if text == [] || text[0] == 38 || (text[0] == 37 && Escape(text) == -1) {
      if text != [] && |text| == 1 {
        assert text == [text[0]];
      }
    } else if n > 0 {
      ValueOverrunsExactly(text[if text[0] == 37 then 3 else 1..], n - 1);
    }
  }

  /** What is left of a text behind its first `k` decoded bytes. */
  function Behind(text: seq<byte>, k: nat): seq<byte>
    decreases k
  {
    if k == 0 || text == [] then text
    else if text[0] != 37 then Behind(text[1..], k - 1)
    else if |text| < 3 then text
    else Behind(text[3..], k - 1)
  }

  /** How the decoded name of a text compares with a tag that has its first `k` bytes in common with it. */
  ghost predicate NameIs(text: seq<byte>, tag: seq<byte>, k: nat, d: Decoded, m: NameResult) {
    if k < |d.bytes| then
      if k == |tag| && d.bytes[k] == 0 then m == Overrun
      else m.Differs? && After(m.rest) == After(Behind(text, k))
    else if d.rest == [] then m == Bad
    else if d.rest[0] == 61 then m == if k == |tag| then Same(d.rest) else Differs(d.rest)
    else m == if d.rest == [37] then Overrun else Bad
  }

  /** `a` and `b` have their first `k` bytes in common and no more. */
  predicate Common(a: seq<byte>, b: seq<byte>, k: nat) {
    k <= |a| && k <= |b| && a[..k] == b[..k] && (k == |a| || k == |b| || a[k] != b[k])
  }

  lemma CommonNext(a: seq<byte>, b: seq<byte>, k: nat)
    requires Common(a, b, k)
    ensures a != [] && b != [] && a[0] == b[0] ==> k > 0 && Common(a[1..], b[1..], k - 1)
    ensures a == [] || b == [] || a[0] != b[0] ==> k == 0
  {
    if k > 0 {
      assert a[0] == a[..k][0] == b[..k][0] == b[0];
      assert a[1..][..k - 1] == a[..k][1..] && b[1..][..k - 1] == b[..k][1..];
    }
  }

  lemma EscapeNoAmp(text: seq<byte>)
    requires Escape(text) != -1 && text[0] == 37
    ensures After(text[3..]) == After(text)
  {
    assert text == text[..3] + text[3..];
    AfterSkips(text[..3], text[3..]);
  }

  /** One decoded byte of a name: `n` is how much of the text it takes. */
  lemma NameNext(text: seq<byte>, tag: seq<byte>) returns (n: nat, c: byte)
    requires NulFree(text) && text != [] && text[0] != 61 && (text[0] == 37 ==> Escape(text) != -1)
    ensures n == (if text[0] == 37 then 3 else 1) <= |text|
    ensures Decode(text, 61) == Decoded([c] + Decode(text[n..], 61).bytes, Decode(text[n..], 61).rest)
    ensures var m := MatchName(text, tag);
      if tag != [] && tag[0] == c then m == MatchName(text[n..], tag[1..])
      else if tag == [] && c == 0 then m == Overrun
      else m.Differs? && After(m.rest) == After(text)
  {
    n, c := if text[0] == 37 then 3 else 1, Decode(text, 61).bytes[0];
    if text[0] == 37 {
      EscapeNoAmp(text);
    }
    hide Escape, After;
  }

  /** The name scan on every text. */
  lemma {:induction false} NameScanned(text: seq<byte>, tag: seq<byte>, k: nat)
    requires NulFree(text) && NulFree(tag) && Common(Decode(text, 61).bytes, tag, k)
    ensures NameIs(text, tag, k, Decode(text, 61), MatchName(text, tag))
    decreases |text|
  {
    hide Escape, Decode, After, Common, MatchName, Behind;
    var d := Decode(text, 61);
    CommonNext(d.bytes, tag, k);
    if text == [] || text[0] == 61 || (text[0] == 37 && Escape(text) == -1) {
      NameStops(text, tag);
      assert k == 0 by { NothingDecoded(text, tag, k); }
    } else {
      var n, c := NameNext(text, tag);
      assert d.bytes[1..] == Decode(text[n..], 61).bytes;
      if tag != [] && tag[0] == c {
        BehindNext(text, n, k);
        NameScanned(text[n..], tag[1..], k - 1);
      } else {
        NothingBehind(text);
      }
    }
  }

  lemma BehindNext(text: seq<byte>, n: nat, k: nat)
    requires text != [] && n == (if text[0] == 37 then 3 else 1) <= |text| && k > 0
    ensures Behind(text, k) == Behind(text[n..], k - 1)
  {}

  lemma NothingBehind(text: seq<byte>)
    ensures Behind(text, 0) == text
  {}

  lemma NothingDecoded(text: seq<byte>, tag: seq<byte>, k: nat)
    requires text == [] || text[0] == 61 || (text[0] == 37 && Escape(text) == -1)
    requires Common(Decode(text, 61).bytes, tag, k)
    ensures k == 0
  {}

  lemma NameStops(text: seq<byte>, tag: seq<byte>)
    requires text == [] || text[0] == 61 || (text[0] == 37 && Escape(text) == -1)
    ensures NameIs(text, tag, 0, Decode(text, 61), MatchName(text, tag))
  {
    if |text| == 1 {
      assert text == [text[0]];
    }
    hide Escape;
  }

  /** The value scan on every text. */
  lemma {:induction false} ValueScanned(text: seq<byte>, n: nat)
    ensures var d, t := Decode(text, 38), TakeValue(text, n);
      t.bytes == Cut(d.bytes, n) && After(t.rest) == After(text) &&
      t.end == if n <= |d.bytes| || d.rest == [] || d.rest[0] == 38 then Good
        else if d.rest == [37] then PastText else BadEscape
    decreases |text|
  {
    if text == [] || text[0] == 38 || (text[0] == 37 && Escape(text) == -1) {
      if |text| == 1 {
        assert text == [text[0]];
      }
      hide Escape, After;
    } else if n > 0 {
      var k := if text[0] == 37 then 3 else 1;
      var d, t := Decode(text, 38), TakeValue(text[k..], n - 1);
      ValueScanned(text[k..], n - 1);
      if text[0] == 37 {
        EscapeNoAmp(text);
      }
      hide Escape, After;
      assert d.bytes[1..] == Decode(text[k..], 38).bytes;
      Consed(d.bytes, t, n);
    }
  }

  lemma {:induction false} CommonIs(a: seq<byte>, b: seq<byte>) returns (k: nat)
    ensures Common(a, b, k)
  {
    if a == [] || b == [] || a[0] != b[0] {
      k := 0;
    } else {
      var j := CommonIs(a[1..], b[1..]);
      k := j + 1;
      assert a[..k] == [a[0]] + a[1..][..j] && b[..k] == [b[0]] + b[1..][..j];
    }
  }

  /** The bytes that agree with a tag without '&' hide no '&' of the text. */
  lemma {:induction false} NoAmpBehind(text: seq<byte>, tag: seq<byte>, k: nat)
    requires NulFree(text) && NoAmp(tag) && Common(Decode(text, 61).bytes, tag, k)
    ensures After(Behind(text, k)) == After(text)
    decreases |text|
  {
    hide Escape, Decode, Common, MatchName, Behind;
    CommonNext(Decode(text, 61).bytes, tag, k);
    NothingBehind(text);
    if k > 0 {
      if text == [] || text[0] == 61 || (text[0] == 37 && Escape(text) == -1) {
        NothingDecoded(text, tag, k);
      } else {
        var n, c := NameNext(text, tag);
        assert Decode(text, 61).bytes[1..] == Decode(text[n..], 61).bytes;
        BehindNext(text, n, k);
        NoAmpBehind(text[n..], tag[1..], k - 1);
        AmpSkipped(text, n, c);
      }
    }
  }

  lemma AmpSkipped(text: seq<byte>, n: nat, c: byte)
    requires text != [] && text[0] != 61 && (text[0] == 37 ==> Escape(text) != -1) && 0 < n <= |text| && c != 38
    requires Decode(text, 61) == Decoded([c] + Decode(text[n..], 61).bytes, Decode(text[n..], 61).rest)
    requires n == if text[0] == 37 then 3 else 1
    ensures After(text[n..]) == After(text)
  {
    if text[0] == 37 {
      EscapeNoAmp(text);
    } else {
      assert Decode(text, 61).bytes[0] == c;
    }
    hide Escape;
  }

  /** What a value comes to, on every text. */
  lemma ValueOutcomeIs(text: seq<byte>, n: nat)
    ensures var d := Decode(text, 38);
      ValueOutcome(text, n) ==
        if |d.bytes| < n && d.rest == [37] then Undefined(d.bytes)
        else if |d.bytes| < n && d.rest != [] && d.rest[0] == 37 then BadValue(d.bytes)
        else if After(text) == None then Unterminated(Cut(d.bytes, n))
        else Found(Cut(d.bytes, n))
  {
    ValueScanned(text, n);
    DecodeStops(text, 38);
    hide Decode, TakeValue, After;
  }

  lemma {:induction false} DecodeStops(text: seq<byte>, stop: byte)
    ensures var d := Decode(text, stop); d.rest == [] || d.rest[0] == stop || d.rest[0] == 37
    decreases |text|
  {
    if text != [] && text[0] != stop {
      if text[0] != 37 {
        DecodeStops(text[1..], stop);
      } else if Escape(text) != -1 {
        DecodeStops(text[3..], stop);
      }
    }
  }

  /** A decoded name that begins with the tag and a NUL, or a text that ends with '%' while all agrees with the tag. */
  predicate LeavesStrings(d: Decoded, tag: seq<byte>) {
    tag + [0] <= d.bytes || (d.bytes <= tag && d.rest == [37])
  }

  lemma CommonMeans(d: Decoded, tag: seq<byte>, k: nat)
    requires NulFree(tag) && Common(d.bytes, tag, k)
    ensures k == |d.bytes| <==> d.bytes <= tag
    ensures k == |d.bytes| == |tag| <==> d.bytes == tag
    ensures k == |tag| < |d.bytes| && d.bytes[k] == 0 <==> tag + [0] <= d.bytes
  {
    assert (tag + [0])[..|tag|] == tag && (tag + [0])[|tag|] == 0;
    if tag + [0] <= d.bytes {
      assert d.bytes[..|tag|] == tag && d.bytes[|tag|] == 0;
    }
    if k < |d.bytes| && k < |tag| {
      assert d.bytes[k] != tag[k];
    }
  }

  /**
   * One pair of a lookup on every text, encoded or not: the tag is found by its decoded name and an
   * '=', the text must not end and no escape be bad before the names differ, and otherwise the
   * lookup goes on behind the next '&'.
   */
  lemma LookupStepExactly(text: seq<byte>, tag: seq<byte>, n: nat)
    requires NulFree(text) && NulFree(tag) && NoAmp(tag)
    ensures var d := Decode(text, 61);
      GetTag(text, tag, n) ==
        if LeavesStrings(d, tag) then Undefined([])
        else if d.bytes == tag && d.rest != [] && d.rest[0] == 61 then ValueOutcome(d.rest[1..], n)
        else if d.bytes <= tag && (d.rest == [] || d.rest[0] == 37) then Missing
        else if After(text) == None then Missing
        else GetTag(After(text).value, tag, n)
  {
    var d := Decode(text, 61);
    var k := CommonIs(d.bytes, tag);
    NameScanned(text, tag, k);
    NoAmpBehind(text, tag, k);
    CommonMeans(d, tag, k);
    DecodeStops(text, 61);
    if k == |d.bytes| {
      WholeBehind(text, k);
    }
    hide Common, MatchName, Behind, After, ValueOutcome, Decode, GetTag;
    match MatchName(text, tag)
    case Bad => TagBad(text, tag, n);
    case Overrun => TagOverrun(text, tag, n);
    case Differs(_) => TagDiffers(text, tag, n);
    case Same(rest) => TagSame(text, tag, n, rest);
  }

  lemma {:induction false} WholeBehind(text: seq<byte>, k: nat)
    requires k == |Decode(text, 61).bytes|
    ensures Behind(text, k) == Decode(text, 61).rest
    decreases |text|
  {
    if k > 0 {
      WholeBehind(text[if text[0] == 37 then 3 else 1..], k - 1);
    }
  }

  lemma TagBad(text: seq<byte>, tag: seq<byte>, n: nat)
    requires MatchName(text, tag) == Bad
    ensures GetTag(text, tag, n) == Missing
  {}

  // --- The parser ----------------------------------------------------------------------------------

  lemma Suffix(text: seq<byte>, i: nat, n: nat)
    requires i + n <= |text|
    ensures text[i..][n..] == text[i + n..]
  {}

  /** `strchr(ptr, '&')` and one step further; `None` for NULL. */
  method SkipPast(text: seq<byte>, from: nat) returns (next: Option<nat>)
    requires from <= |text|
    ensures next.None? <==> After(text[from..]) == None
    ensures next.Some? ==> from < next.value <= |text| && After(text[from..]) == Some(text[next.value..])
  {
    var i := from;
    while i < |text| && text[i] != 38
      invariant from <= i <= |text| && After(text[i..]) == After(text[from..])
    {
      Suffix(text, i, 1);
      i := i + 1;
    }
    if i == |text| {
      return None;
    }
    Suffix(text, i, 1);
    return Some(i + 1);
  }

  datatype NameEnd = BadAt | DiffersAt(at: nat) | SameAt(at: nat) | OverrunAt

  predicate NameEndIs(text: seq<byte>, e: NameEnd, m: NameResult) {
    match e
    case BadAt => m == Bad
    case DiffersAt(at) => at <= |text| && m == Differs(text[at..])
    case SameAt(at) => at < |text| && m == Same(text[at..])
    case OverrunAt => m == Overrun
  }

  /** What the next byte of a name comes to, in positions of text and tag. */
  lemma ScanRound(text: seq<byte>, ptr: nat, tag: seq<byte>, k: nat)
    requires ptr < |text| && k <= |tag|
    ensures var m, c := MatchName(text[ptr..], tag[k..]), Escape(text[ptr..]);
      if text[ptr] == 61 then m == if k < |tag| then Differs(text[ptr..]) else Same(text[ptr..])
      else if text[ptr] != 37 then
        if k == |tag| || tag[k] != (if text[ptr] == 43 then 32 else text[ptr]) then m == Differs(text[ptr..])
        else m == MatchName(text[ptr + 1..], tag[k + 1..])
      else if ptr + 1 == |text| then m == Overrun
      else if c == -1 then m == Bad
      else
        ptr + 3 <= |text| &&
        if k == |tag| && c == 0 then m == Overrun
        else if k == |tag| || tag[k] != c then m == Differs(text[ptr + 3..])
        else m == MatchName(text[ptr + 3..], tag[k + 1..])
  {
    Suffix(text, ptr, 1);
    if ptr + 3 <= |text| {
      Suffix(text, ptr, 3);
    }
    hide HexDigit;
  }

  /** The first loop of `httpd_parse_msgbody`: the name against the tag. */
  method ScanName(text: seq<byte>, from: nat, tag: seq<byte>) returns (e: NameEnd)
    requires from <= |text|
    ensures NameEndIs(text, e, MatchName(text[from..], tag))
  {
    var ptr, k := from, 0;
    assert tag[0..] == tag;
    ghost var goal := MatchName(text[from..], tag);
    while true
      invariant from <= ptr <= |text| && k <= |tag|
      invariant MatchName(text[ptr..], tag[k..]) == goal
      decreases |text| - ptr
    {
      if ptr == |text| {
        return BadAt;
      }
      ScanRound(text, ptr, tag, k);
      hide MatchName, Escape;
      if text[ptr] == 61 {
        return if k < |tag| then DiffersAt(ptr) else SameAt(ptr);
      } else if text[ptr] == 37 {
        if ptr + 1 == |text| {
          return OverrunAt;
        }
        var c := Escape(text[ptr..]);
        if c == -1 {
          return BadAt;
        }
        ptr := ptr + 3;
        if k == |tag| && c == 0 {
          return OverrunAt;
        }
        if k == |tag| || tag[k] != c {
          return DiffersAt(ptr);
        }
        k := k + 1;
      } else {
        var c := if text[ptr] == 43 then 32 else text[ptr];
        if k == |tag| || tag[k] != c {
          return DiffersAt(ptr);
        }
        ptr := ptr + 1;
        k := k + 1;
      }
    }
  }

  function Prepend(done: seq<byte>, t: Taken): Taken {
    t.(bytes := done + t.bytes)
  }

  /** The loop that fills `val`: `done` is in the buffer, the text from `ptr` on is still to be decoded. */
  ghost predicate Taking(b: seq<byte>, b0: seq<byte>, done: seq<byte>, text: seq<byte>, ptr: nat, n: nat, goal: Taken) {
    |done| <= n < |b0| && ptr <= |text| && b == Splice(b0, 0, done) &&
    Prepend(done, TakeValue(text[ptr..], n - |done|)) == goal
  }

  lemma TakingStarts(b: seq<byte>, text: seq<byte>, from: nat, n: nat)
    requires from <= |text| && n < |b|
    ensures Taking(b, b, [], text, from, n, TakeValue(text[from..], n))
  {
    var t := TakeValue(text[from..], n);
    assert [] + t.bytes == t.bytes;
  }

  lemma TakingStep(b: seq<byte>, b0: seq<byte>, done: seq<byte>, text: seq<byte>, ptr: nat, n: nat, goal: Taken,
                   i: nat, c: byte, k: nat)
    requires Taking(b, b0, done, text, ptr, n, goal) && i == |done| < n && ptr < |text| && text[ptr] != 38
    requires if text[ptr] == 37 then k == 3 && Escape(text[ptr..]) == c
      else k == 1 && c == if text[ptr] == 43 then 32 else text[ptr]
    ensures ptr + k <= |text| && i < |b| && Taking(b[i := c], b0, done + [c], text, ptr + k, n, goal)
  {
    Suffix(text, ptr, k);
    var t := TakeValue(text[ptr + k..], n - i - 1);
    assert done + ([c] + t.bytes) == done + [c] + t.bytes;
    SpliceNext(b0, done, c);
  }

  lemma SpliceNothing(b: seq<byte>)
    ensures Splice(b, 0, []) == b
  {}

  lemma SpliceNext(b0: seq<byte>, done: seq<byte>, c: byte)
    requires |done| < |b0|
    ensures Splice(b0, 0, done)[|done| := c] == Splice(b0, 0, done + [c])
  {}

  lemma TakingEnds(b: seq<byte>, b0: seq<byte>, done: seq<byte>, text: seq<byte>, ptr: nat, n: nat, goal: Taken, end: End)
    requires Taking(b, b0, done, text, ptr, n, goal)
    requires match end
      case Good => |done| == n || ptr == |text| || text[ptr] == 38
      case BadEscape => |done| < n && ptr + 1 < |text| && text[ptr] == 37 && Escape(text[ptr..]) == -1
      case PastText => |done| < n && ptr + 1 == |text| && text[ptr] == 37
    ensures goal == Taken(done, text[ptr..], end) && |done| <= n < |b0| && b == Splice(b0, 0, done)
  {
    assert done + [] == done;
  }

  /** One byte of the value: `k` is how much of the text it takes. */
  method TakeByte(text: seq<byte>, ptr: nat, val: array<byte>, i: nat, k: nat, c: byte,
                  ghost b0: seq<byte>, ghost done: seq<byte>, ghost n: nat, ghost goal: Taken)
    requires Taking(val[..], b0, done, text, ptr, n, goal) && i == |done| < n && ptr < |text| && text[ptr] != 38
    requires i < val.Length
    requires if text[ptr] == 37 then k == 3 && Escape(text[ptr..]) == c
      else k == 1 && c == if text[ptr] == 43 then 32 else text[ptr]
    modifies val
    ensures ptr + k <= |text| && Taking(val[..], b0, done + [c], text, ptr + k, n, goal)
  {
    ghost var b := val[..];
    hide *;
    TakingStep(b, b0, done, text, ptr, n, goal, i, c, k);
    val[i] := c;
    assert val[..] == b[i := c];
  }

  /** The second loop of `httpd_parse_msgbody`: decodes up to `n` bytes of the value into `val`. */
  method TakeInto(text: seq<byte>, from: nat, val: array<byte>, n: nat)
    returns (ptr: nat, i: nat, end: End, ghost done: seq<byte>)
    requires from <= |text| && n < val.Length
    modifies val
    ensures from <= ptr <= |text| && TakeValue(text[from..], n) == Taken(done, text[ptr..], end)
    ensures i == |done| <= n && val[..] == Splice(old(val[..]), 0, done)
  {
    i, ptr, end, done := 0, from, Good, [];
    ghost var b0, goal := val[..], TakeValue(text[from..], n);
    TakingStarts(val[..], text, from, n);
    hide *;
    while i < n && ptr < |text| && text[ptr] != 38
      invariant from <= ptr <= |text| && i == |done| && end == Good
      invariant Taking(val[..], b0, done, text, ptr, n, goal)
    {
      var c: byte, k;
      end, c, k := DecodeByte(text, ptr);
      if end != Good {
        break;
      }
      TakeByte(text, ptr, val, i, k, c, b0, done, n, goal);
      ptr, i, done := ptr + k, i + 1, done + [c];
    }
    TakingEnds(val[..], b0, done, text, ptr, n, goal, end);
  }

  /** The next byte of a value and how much of the text it takes, or what is wrong with it. */
  method DecodeByte(text: seq<byte>, ptr: nat) returns (end: End, c: byte, k: nat)
    requires ptr < |text|
    ensures end == Good ==>
      if text[ptr] == 37 then k == 3 && Escape(text[ptr..]) == c
      else k == 1 && c == if text[ptr] == 43 then 32 else text[ptr]
    ensures end == BadEscape ==> ptr + 1 < |text| && text[ptr] == 37 && Escape(text[ptr..]) == -1
    ensures end == PastText ==> ptr + 1 == |text| && text[ptr] == 37
  {
    hide Escape;
    if text[ptr] != 37 {
      return Good, if text[ptr] == 43 then 32 else text[ptr], 1;
    }
    if ptr + 1 == |text| {
      return PastText, 0, 0;
    }
    var escape := Escape(text[ptr..]);
    if escape == -1 {
      return BadEscape, 0, 0;
    }
    return Good, escape, 3;
  }

  method StoreValue(text: seq<byte>, from: nat, val: array<byte>, n: nat) returns (ptr: nat, end: End, ghost done: seq<byte>)
    requires from <= |text| && n < val.Length
    modifies val
    ensures from <= ptr <= |text| && TakeValue(text[from..], n) == Taken(done, text[ptr..], end)
    ensures |done| < val.Length && val[..] == Splice(old(val[..]), 0, if end == Good then done + [0] else done)
  {
    var i;
    ptr, i, end, done := TakeInto(text, from, val, n);
    if end == Good {
      SpliceNext(old(val[..]), done, 0);
      hide *;
      ghost var b := val[..];
      val[i] := 0;
      assert val[..] == b[i := 0];
    }
  }

  /** Where `httpd_parse_msgbody` goes on: NULL or the next pair; and whether it saw the tag. */
  datatype Step = Step(next: Option<nat>, found: bool, undefined: bool)

  /** What one call must leave for the outcome of the whole lookup to be `goal`. */
  ghost predicate StepIs(s: Step, b: seq<byte>, b0: seq<byte>, goal: Outcome) {
    match goal
    case Undefined(v) => s.undefined && |v| <= |b0| && b == Splice(b0, 0, v)
    case Missing => s.next.None? && !s.found && !s.undefined && b == b0
    case BadValue(v) => s.next.None? && s.found && !s.undefined && |v| <= |b0| && b == Splice(b0, 0, v)
    case Unterminated(v) => s.next.None? && s.found && !s.undefined && |v| < |b0| && b == Splice(b0, 0, v + [0])
    case Found(v) => s.next.Some? && s.found && !s.undefined && |v| < |b0| && b == Splice(b0, 0, v + [0])
  }

  /** `httpd_parse_msgbody`: one pair. */
  method ParseMsgBody(text: seq<byte>, from: nat, tag: seq<byte>, val: array<byte>, n: nat) returns (s: Step)
    requires from <= |text| && n < val.Length
    modifies val
    ensures s.next.Some? ==> from < s.next.value <= |text|
    ensures var goal := GetTag(text[from..], tag, n);
      if s.next.Some? && !s.found && !s.undefined then
        val[..] == old(val[..]) && GetTag(text[s.next.value..], tag, n) == goal
      else StepIs(s, val[..], old(val[..]), goal)
  {
    if from == |text| {
      return Step(None, false, false);
    }
    var e := ScanName(text, from, tag);
    RestIsShorter(text[from..], tag);
    hide MatchName, TakeValue, After, Splice;
    match e {
      case BadAt => return Step(None, false, false);
      case OverrunAt =>
        SpliceNothing(val[..]);
        return Step(None, false, true);
      case DiffersAt(at) =>
        TagDiffers(text[from..], tag, n);
        hide GetTag;
        var next := SkipPast(text, at);
        return Step(next, false, false);
      case SameAt(at) =>
        TagSame(text[from..], tag, n, text[at..]);
        Suffix(text, at, 1);
        hide *;
        s := StoreAndSkip(text, at + 1, val, n);
    }
  }

  /** The rest of `httpd_parse_msgbody` after a match. */
  method StoreAndSkip(text: seq<byte>, from: nat, val: array<byte>, n: nat) returns (s: Step)
    requires from <= |text| && n < val.Length
    modifies val
    ensures s.next.Some? ==> from < s.next.value <= |text|
    ensures s.found
    ensures StepIs(s, val[..], old(val[..]), ValueOutcome(text[from..], n))
  {
    var ptr, end, done := StoreValue(text, from, val, n);
    hide TakeValue, After, Splice;
    if end != Good {
      return Step(None, true, end == PastText);
    }
    var next := SkipPast(text, ptr);
    return Step(next, true, false);
  }

  /**
   * `httpd_get_tag_from_post_data`: 0, or -1 for an error. `undefined` reports a scan past the end
   * of the tag or of the text; what the original does then is not determined.
   */
  method GetTagFromPostData(text: seq<byte>, tag: seq<byte>, val: array<byte>, n: nat) returns (rc: int, undefined: bool)
    requires n < val.Length
    modifies val
    ensures n == 0 ==> rc == -1 && val[..] == old(val[..])
    ensures n > 0 ==> undefined == GetTag(text, tag, n).Undefined?
    ensures n > 0 ==> (rc == 0 <==> GetTag(text, tag, n).Found?)
    ensures n > 0 ==> |Stored(GetTag(text, tag, n))| <= val.Length
    ensures n > 0 ==> val[..] == Splice(old(val[..])[0 := 0], 0, Stored(GetTag(text, tag, n)))
    ensures rc == 0 || rc == -1
  {
    undefined := false;
    if n == 0 {
      return -1, false;
    }
    val[0] := 0;
    ghost var b0 := val[..];
    var ptr := 0;
    assert text[0..] == text;
    while true
      invariant 0 <= ptr <= |text| && val[..] == b0
      invariant GetTag(text[ptr..], tag, n) == GetTag(text, tag, n)
      decreases |text| - ptr
    {
      var s := ParseMsgBody(text, ptr, tag, val, n);
      hide GetTag, Splice;
      if s.undefined {
        return -1, true;
      }
      if s.next.None? {
        return -1, false;
      }
      if s.found {
        return 0, false;
      }
      ptr := s.next.value;
    }
  }

  /** The bytes a lookup stores, behind the NUL it starts with. */
  function Stored(o: Outcome): seq<byte> {
    match o
    case Undefined(v) => v
    case BadValue(v) => v
    case Unterminated(v) => v + [0]
    case Found(v) => v + [0]
    case _ => []
  }
}
