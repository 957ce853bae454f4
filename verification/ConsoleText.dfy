/**
 * The command line of cores/arduino/cli/console_cli.cpp as text: how it is cut into arguments,
 * how arguments are written so that this gives them back, and the newline escapes of
 * cores/arduino/config/DeviceConfigCLI.cpp.
 */
module ConsoleText {
  import opened Memory
  import opened Wrappers
  import SR = SearchReplace

  // Characters: 32 space, 34 quote, 92 backslash, 10 newline, 110 'n'.

  /** An open quote at the end, more than four arguments, or the arguments. */
  datatype Tokens = OpenQuote | TooMany | Args(args: seq<seq<byte>>)

  /** The argument being read, if any. */
  datatype Current = Nothing | Plain(text: seq<byte>) | Quoted(text: seq<byte>) {
    function Text(): seq<byte> {
      if Nothing? then [] else text
    }

    /** The byte in front of the next one is a backslash of this argument. */
    predicate Escaping() {
      !Nothing? && text != [] && text[|text| - 1] == 92
    }
  }

  /** The state after byte `c`: a finished argument, if there is one, and the current one. */
  datatype After = After(finished: Option<seq<byte>>, cur: Current)

  function Next(cur: Current, c: byte): After {
    if (c == 34 || c == 32) && cur.Escaping() then
      After(None, cur.(text := cur.text[..|cur.text| - 1] + [c]))
    else
      match cur
      case Nothing => After(None, if c == 34 then Quoted([]) else if c == 32 then Nothing else Plain([c]))
      case Plain(text) => if c == 32 then After(Some(text), Nothing) else After(None, Plain(text + [c]))
      case Quoted(text) => if c == 34 then After(Some(text), Nothing) else After(None, Quoted(text + [c]))
  }

  function Append(args: seq<seq<byte>>, arg: Option<seq<byte>>): seq<seq<byte>> {
    match arg case None => args case Some(a) => args + [a]
  }

  /** `args` are finished, `cur` is being read, `rest` is still to come. */
  function Tokenise(rest: seq<byte>, args: seq<seq<byte>>, cur: Current): Tokens
    decreases |rest|
  {
    if rest == [] then
      if cur.Quoted? then OpenQuote else Args(if cur.Plain? then args + [cur.text] else args)
    else
      var n := Next(cur, rest[0]);
      if |args| == 4 && !n.cur.Nothing? then TooMany
      else Tokenise(rest[1..], Append(args, n.finished), n.cur)
  }

  // --- Writing arguments ----------------------------------------------------------------------------

  /** Every quote behind a backslash. */
  function Escaped(s: seq<byte>): seq<byte> {
    if s == [] then [] else (if s[0] == 34 then [92, 34] else [s[0]]) + Escaped(s[1..])
  }

  function Quote(s: seq<byte>): seq<byte> {
    [34] + Escaped(s) + [34]
  }

  function Printed(args: seq<seq<byte>>): seq<byte> {
    if args == [] then []
    else if |args| == 1 then Quote(args[0])
    else Quote(args[0]) + ([32] + Printed(args[1..]))
  }

  /** No backslash at the end and none in front of a space. */
  predicate Clean(s: seq<byte>) {
    forall i :: 0 <= i < |s| && s[i] == 92 ==> i + 1 < |s| && s[i + 1] != 32
  }

  // --- Written arguments are read back ----------------------------------------------------------------

  lemma PlainStep(c: byte, more: seq<byte>, args: seq<seq<byte>>, text: seq<byte>)
    requires c != 34 && |args| < 4 && (c == 32 ==> !Quoted(text).Escaping())
    ensures Tokenise([c] + more, args, Quoted(text)) == Tokenise(more, args, Quoted(text + [c]))
  {
    assert ([c] + more)[1..] == more;
  }

  lemma EscapeStep(more: seq<byte>, args: seq<seq<byte>>, text: seq<byte>)
    requires |args| < 4
    ensures Tokenise([92, 34] + more, args, Quoted(text)) == Tokenise(more, args, Quoted(text + [34]))
  {
    assert [92, 34] + more == [92] + ([34] + more);
    PlainStep(92, [34] + more, args, text);
    assert (text + [92])[..|text|] == text && ([34] + more)[1..] == more;
  }

  lemma {:induction false} TokeniseEscaped(s: seq<byte>, tail: seq<byte>, args: seq<seq<byte>>, text: seq<byte>)
    requires Clean(s) && |args| < 4
    requires s != [] && s[0] == 32 ==> !Quoted(text).Escaping()
    ensures Tokenise(Escaped(s) + tail, args, Quoted(text)) == Tokenise(tail, args, Quoted(text + s))
    decreases |s|
  {
    if s == [] {
      assert Escaped(s) + tail == tail && text + s == text;
    } else {
      var more := Escaped(s[1..]) + tail;
      CleanTail(s);
      EscapedAhead(s, tail, text);
      hide *;
      if s[0] == 34 {
        EscapeStep(more, args, text);
      } else {
        PlainStep(s[0], more, args, text);
      }
      LastOf(text, s);
      TokeniseEscaped(s[1..], tail, args, text + [s[0]]);
    }
  }

  lemma EscapedAhead(s: seq<byte>, tail: seq<byte>, text: seq<byte>)
    requires s != []
    ensures Escaped(s) + tail == (if s[0] == 34 then [92, 34] else [s[0]]) + (Escaped(s[1..]) + tail)
    ensures text + s == text + [s[0]] + s[1..]
  {
    var front := if s[0] == 34 then [92, 34] else [s[0]];
    assert Escaped(s) == front + Escaped(s[1..]);
    assert s == [s[0]] + s[1..];
    hide *;
    Assoc(front, Escaped(s[1..]), tail);
    Assoc(text, [s[0]], s[1..]);
  }

  lemma CleanTail(s: seq<byte>)
    requires Clean(s) && s != []
    ensures Clean(s[1..])
  {}

  lemma LastOf(text: seq<byte>, s: seq<byte>)
    requires Clean(s) && s != []
    ensures |s| > 1 && s[1..][0] == 32 ==> !Quoted(text + [s[0]]).Escaping()
  {}

  lemma QuoteRead(s: seq<byte>, tail: seq<byte>, args: seq<seq<byte>>)
    requires Clean(s) && |args| < 4
    ensures Tokenise(Quote(s) + tail, args, Nothing) == Tokenise(tail, args + [s], Nothing)
  {
    var more := [34] + tail;
    QuoteAhead(s, tail);
    OpeningQuote(Escaped(s) + more, args);
    ClosingQuote(s, tail, args);
    assert [] + s == s;
    hide *;
    TokeniseEscaped(s, more, args, []);
  }

  lemma QuoteAhead(s: seq<byte>, tail: seq<byte>)
    ensures Quote(s) + tail == [34] + (Escaped(s) + ([34] + tail))
    ensures s != [] && s[0] == 32 ==> !Quoted([]).Escaping()
  {
    hide Escaped;
    Assoc([34], Escaped(s), [34]);
    Assoc([34], Escaped(s) + [34], tail);
    Assoc(Escaped(s), [34], tail);
  }

  lemma OpeningQuote(more: seq<byte>, args: seq<seq<byte>>)
    requires |args| < 4
    ensures Tokenise([34] + more, args, Nothing) == Tokenise(more, args, Quoted([]))
  {
    assert ([34] + more)[1..] == more;
  }

  lemma ClosingQuote(s: seq<byte>, tail: seq<byte>, args: seq<seq<byte>>)
    requires Clean(s) && |args| < 4
    ensures Tokenise([34] + tail, args, Quoted(s)) == Tokenise(tail, args + [s], Nothing)
  {
    assert ([34] + tail)[1..] == tail && !Quoted(s).Escaping();
  }

  ghost predicate AllClean(args: seq<seq<byte>>) {
    forall i :: 0 <= i < |args| ==> Clean(args[i])
  }

  lemma {:induction false} PrintedRead(args: seq<seq<byte>>, before: seq<seq<byte>>)
    requires AllClean(args) && |before| + |args| <= 4
    ensures Tokenise(Printed(args), before, Nothing) == Args(before + args)
    decreases |args|
  {
    if args == [] {
      assert before + args == before;
    } else {
      var tail := if |args| == 1 then [] else [32] + Printed(args[1..]);
      assert Printed(args) == Quote(args[0]) + tail;
      QuoteRead(args[0], tail, before);
      hide Clean, Quote;
      assert before + args == before + [args[0]] + args[1..];
      if |args| > 1 {
        assert tail[1..] == Printed(args[1..]);
        PrintedRead(args[1..], before + [args[0]]);
      }
    }
  }

  // --- Counting backslashes -----------------------------------------------------------------------------

  function Count(s: seq<byte>, c: byte): nat {
    if s == [] then 0 else (if s[0] == c then 1 else 0) + Count(s[1..], c)
  }

  function CountAll(args: seq<seq<byte>>, c: byte): nat {
    if args == [] then 0 else Count(args[0], c) + CountAll(args[1..], c)
  }

  /** How many backslashes stand in front of a quote or a space; `prev` says that one precedes `s`. */
  function Losses(s: seq<byte>, prev: bool): nat {
    if s == [] then 0
    else (if prev && (s[0] == 34 || s[0] == 32) then 1 else 0) + Losses(s[1..], s[0] == 92)
  }

  lemma {:induction false} CountSnoc(s: seq<byte>, b: byte, c: byte)
    ensures Count(s + [b], c) == Count(s, c) + if b == c then 1 else 0
  {
    if s == [] {
      assert s + [b] == [b];
    } else {
      assert (s + [b])[1..] == s[1..] + [b];
      CountSnoc(s[1..], b, c);
    }
  }

  lemma {:induction false} CountAllSnoc(args: seq<seq<byte>>, a: seq<byte>, c: byte)
    ensures CountAll(args + [a], c) == CountAll(args, c) + Count(a, c)
  {
    if args == [] {
      assert args + [a] == [a];
    } else {
      assert (args + [a])[1..] == args[1..] + [a];
      CountAllSnoc(args[1..], a, c);
    }
  }

  lemma NextCounts(cur: Current, c: byte)
    ensures var n := Next(cur, c);
      (if n.finished.Some? then Count(n.finished.value, 92) else 0) + Count(n.cur.Text(), 92) ==
        Count(cur.Text(), 92) + (if c == 92 then 1 else 0) - if (c == 34 || c == 32) && cur.Escaping() then 1 else 0
    ensures Next(cur, c).cur.Escaping() <==> c == 92
  {
    CountSnoc(cur.Text(), c, 92);
    if cur.Escaping() {
      var head := cur.text[..|cur.text| - 1];
      assert cur.text == head + [92];
      CountSnoc(head, 92, 92);
      CountSnoc(head, c, 92);
    }
  }

  /** Cutting a line into arguments loses exactly the backslashes in front of quotes and spaces. */
  lemma {:induction false} BackslashesLost(rest: seq<byte>, args: seq<seq<byte>>, cur: Current)
    ensures var t := Tokenise(rest, args, cur); t.Args? ==>
      CountAll(t.args, 92) ==
        CountAll(args, 92) + Count(cur.Text(), 92) + Count(rest, 92) - Losses(rest, cur.Escaping())
    decreases |rest|
  {
    if rest == [] {
      if cur.Plain? {
        CountAllSnoc(args, cur.text, 92);
      }
    } else {
      var n := Next(cur, rest[0]);
      NextCounts(cur, rest[0]);
      if n.finished.Some? {
        CountAllSnoc(args, n.finished.value, 92);
      }
      hide Next, Current.Escaping;
      BackslashesLost(rest[1..], Append(args, n.finished), n.cur);
    }
  }

  /** The places where a written argument loses a backslash of its own. */
  function Unclean(s: seq<byte>, prev: bool): nat {
    if s == [] then (if prev then 1 else 0)
    else (if prev && s[0] == 32 then 1 else 0) + Unclean(s[1..], s[0] == 92)
  }

  lemma {:induction false} UncleanIs(s: seq<byte>, prev: bool)
    ensures Unclean(s, prev) == 0 <==> Clean(s) && (prev ==> s != [] && s[0] != 32)
  {
    if s != [] {
      UncleanIs(s[1..], s[0] == 92);
      if Clean(s[1..]) && (s[0] == 92 ==> s[1..] != [] && s[1..][0] != 32) {
        forall i | 0 <= i < |s| && s[i] == 92 ensures i + 1 < |s| && s[i + 1] != 32 {
          if i > 0 {
            assert s[1..][i - 1] == 92;
          }
        }
      }
      if Clean(s) {
        CleanTail(s);
      }
    }
  }

  lemma CountsAhead(b: byte, more: seq<byte>, prev: bool)
    ensures forall c: byte :: Count([b] + more, c) == (if b == c then 1 else 0) + Count(more, c)
    ensures Losses([b] + more, prev) == (if prev && (b == 34 || b == 32) then 1 else 0) + Losses(more, b == 92)
  {
    assert ([b] + more)[1..] == more;
  }

  lemma {:induction false} EscapedCounts(s: seq<byte>, tail: seq<byte>, prev: bool)
    ensures Count(Escaped(s) + ([34] + tail), 92) == Count(s, 92) + Count(s, 34) + Count(tail, 92)
    ensures Losses(Escaped(s) + ([34] + tail), prev) == Count(s, 34) + Unclean(s, prev) + Losses(tail, false)
    decreases |s|
  {
    var end := [34] + tail;
    if s == [] {
      assert Escaped(s) + end == [34] + tail;
      CountsAhead(34, tail, prev);
    } else {
      var more := Escaped(s[1..]) + end;
      EscapedCounts(s[1..], tail, s[0] == 92);
      EscapedAhead(s, end, []);
      hide Losses, Escaped;
      CountsAhead(s[0], more, if s[0] == 34 then true else prev);
      if s[0] == 34 {
        Assoc([92], [34], more);
        assert [92] + [34] == [92, 34];
        CountsAhead(92, [34] + more, prev);
      }
    }
  }

  lemma QuoteCounts(s: seq<byte>, tail: seq<byte>)
    ensures Count(Quote(s) + tail, 92) == Count(s, 92) + Count(s, 34) + Count(tail, 92)
    ensures Losses(Quote(s) + tail, false) == Count(s, 34) + Unclean(s, false) + Losses(tail, false)
  {
    var more := Escaped(s) + ([34] + tail);
    EscapedCounts(s, tail, false);
    hide Losses, Count, Escaped;
    assert Quote(s) + tail == [34] + more;
    CountsAhead(34, more, false);
  }

  function UncleanAll(args: seq<seq<byte>>): nat {
    if args == [] then 0 else Unclean(args[0], false) + UncleanAll(args[1..])
  }

  lemma {:induction false} PrintedCounts(args: seq<seq<byte>>)
    ensures Count(Printed(args), 92) == CountAll(args, 92) + CountAll(args, 34)
    ensures Losses(Printed(args), false) == CountAll(args, 34) + UncleanAll(args)
  {
    if args != [] {
      var tail := if |args| == 1 then [] else [32] + Printed(args[1..]);
      assert Printed(args) == Quote(args[0]) + tail;
      QuoteCounts(args[0], tail);
      PrintedCounts(args[1..]);
      CountsAhead(32, Printed(args[1..]), false);
      hide Quote, Unclean;
    }
  }

  lemma {:induction false} UncleanAllIs(args: seq<seq<byte>>)
    ensures UncleanAll(args) == 0 <==> AllClean(args)
  {
    hide Unclean, Clean;
    if args != [] {
      UncleanIs(args[0], false);
      UncleanAllIs(args[1..]);
      if Clean(args[0]) && AllClean(args[1..]) {
        forall i | 0 <= i < |args| ensures Clean(args[i]) {
          if i > 0 {
            assert args[i] == args[1..][i - 1];
          }
        }
      }
    }
  }

  /**
   * Up to four arguments, written in quotes with inner quotes escaped, are read back exactly if
   * and only if none of them has a backslash at its end or in front of a space.
   */
  lemma RoundTripExactly(args: seq<seq<byte>>)
    requires |args| <= 4
    ensures Tokenise(Printed(args), [], Nothing) == Args(args) <==> AllClean(args)
  {
    UncleanAllIs(args);
    if AllClean(args) {
      PrintedRead(args, []);
      assert [] + args == args;
    } else {
      BackslashesLost(Printed(args), [], Nothing);
      PrintedCounts(args);
    }
  }

  // --- The fifth argument -------------------------------------------------------------------------------

  /** How many arguments the rest of a line begins. */
  function Begun(rest: seq<byte>, cur: Current): nat
    decreases |rest|
  {
    if rest == [] then 0
    else
      var n := Next(cur, rest[0]).cur;
      (if cur.Nothing? && !n.Nothing? then 1 else 0) + Begun(rest[1..], n)
  }

  /** For every line: there are too many arguments if and only if more than four are begun. */
  lemma {:induction false} OverrunsExactly(rest: seq<byte>, args: seq<seq<byte>>, cur: Current)
    requires |args| + (if cur.Nothing? then 0 else 1) <= 4
    ensures Tokenise(rest, args, cur) == TooMany <==>
      |args| + (if cur.Nothing? then 0 else 1) + Begun(rest, cur) > 4
    decreases |rest|
  {
    if rest != [] {
      var n := Next(cur, rest[0]);
      NextKinds(cur, rest[0]);
      hide Next;
      if !(|args| == 4 && !n.cur.Nothing?) {
        OverrunsExactly(rest[1..], Append(args, n.finished), n.cur);
      }
    }
  }

  lemma NextKinds(cur: Current, c: byte)
    ensures Next(cur, c).finished.Some? <==> !cur.Nothing? && Next(cur, c).cur.Nothing?
  {}

  /** Clean arguments overrun exactly when there are more than four of them. */
  lemma PrintedOverrunsExactly(args: seq<seq<byte>>)
    requires AllClean(args)
    ensures Tokenise(Printed(args), [], Nothing) == TooMany <==> |args| > 4
  {
    hide Clean, Tokenise, Printed;
    if |args| > 4 {
      FifthOverruns(args);
    } else {
      RoundTripExactly(args);
    }
  }

  /** Whatever follows four clean arguments is one too many. */
  lemma FifthOverruns(args: seq<seq<byte>>)
    requires |args| > 4 && AllClean(args[..4])
    ensures Tokenise(Printed(args), [], Nothing) == TooMany
  {
    var four, more := args[..4], args[4..];
    FourRead(four, more, []);
    assert args == four + more && [] + four == four;
    assert Printed(more)[0] == 34;
    hide Printed, Clean;
  }

  /** Two arguments can overrun as well: "a\" and "b c d e", of which the first is not clean. */
  lemma TwoCanOverrun()
    ensures Tokenise(Printed([[97, 92], [98, 32, 99, 32, 100, 32, 101]]), [], Nothing) == TooMany
  {
    var a: seq<byte>, b: seq<byte> := [97, 92], [98, 32, 99, 32, 100, 32, 101];
    EscapedSame(a);
    EscapedSame(b);
    var rest := b + [34];
    assert a == [97] + [92];
    TwoPrinted(a, b, rest);
    hide Printed, Tokenise, Escaped;
    FirstIsClosedLate(rest);
    FourWords(rest);
    OverrunsExactly(Printed([a, b]), [], Nothing);
  }

  lemma TwoPrinted(a: seq<byte>, b: seq<byte>, rest: seq<byte>)
    requires Escaped(a) == [97] + [92] && Escaped(b) == b && rest == b + [34]
    ensures Printed([a, b]) == [34] + ([97] + ([92] + ([34] + ([32] + ([34] + rest)))))
  {
    assert [a, b][1..] == [b];
    assert Printed([a, b]) == Quote(a) + ([32] + Quote(b));
    hide Printed, Escaped;
    var tail := [32] + ([34] + rest);
    Assoc([34], b, [34]);
    Assoc([34] + ([97] + [92]), [34], tail);
    Assoc([34], [97] + [92], [34] + tail);
    Assoc([97], [92], [34] + tail);
  }

  lemma {:induction false} EscapedSame(s: seq<byte>)
    requires 34 !in s
    ensures Escaped(s) == s
  {
    if s != [] {
      EscapedSame(s[1..]);
    }
  }

  lemma BegunNext(c: byte, more: seq<byte>, cur: Current, n: Current)
    requires Next(cur, c).cur == n
    ensures Begun([c] + more, cur) == (if cur.Nothing? && !n.Nothing? then 1 else 0) + Begun(more, n)
  {
    assert ([c] + more)[1..] == more;
    hide Next;
  }

  /** The closing quote of the first argument is escaped, the opening one of the second closes it. */
  lemma FirstIsClosedLate(rest: seq<byte>)
    ensures Begun([34] + ([97] + ([92] + ([34] + ([32] + ([34] + rest))))), Nothing) == 1 + Begun(rest, Nothing)
  {
    var t1: seq<byte>, t2: seq<byte>, t3: seq<byte>, t4: seq<byte> := [97], [97, 92], [97, 34], [97, 34, 32];
    assert [97] + [92] == t2 && t2[..1] == t1;
    hide Begun;
    BegunNext(34, rest, Quoted(t4), Nothing);
    BegunNext(32, [34] + rest, Quoted(t3), Quoted(t4));
    BegunNext(34, [32] + ([34] + rest), Quoted(t2), Quoted(t3));
    BegunNext(92, [34] + ([32] + ([34] + rest)), Quoted(t1), Quoted(t2));
    BegunNext(97, [92] + ([34] + ([32] + ([34] + rest))), Quoted([]), Quoted(t1));
    BegunNext(34, [97] + ([92] + ([34] + ([32] + ([34] + rest)))), Nothing, Quoted([]));
  }

  lemma OneWord(c: byte, more: seq<byte>)
    requires c != 32 && c != 34 && c != 92
    ensures Begun([c] + ([32] + more), Nothing) == 1 + Begun(more, Nothing)
  {
    hide Begun;
    BegunNext(32, more, Plain([c]), Nothing);
    BegunNext(c, [32] + more, Nothing, Plain([c]));
  }

  lemma FourWords(rest: seq<byte>)
    requires rest == [98, 32, 99, 32, 100, 32, 101] + [34]
    ensures Begun(rest, Nothing) >= 4
  {
    var r3: seq<byte> := [101] + [34];
    var r2, r1 := [100] + ([32] + r3), [99] + ([32] + ([100] + ([32] + r3)));
    assert rest == [98] + ([32] + r1);
    hide Begun;
    BegunNext(101, [34], Nothing, Plain([101]));
    OneWord(100, r3);
    OneWord(99, r2);
    OneWord(98, r1);
  }

  lemma {:induction false} FourRead(args: seq<seq<byte>>, more: seq<seq<byte>>, before: seq<seq<byte>>)
    requires AllClean(args) && |before| + |args| <= 4 && more != []
    ensures Tokenise(Printed(args + more), before, Nothing) == Tokenise(Printed(more), before + args, Nothing)
    decreases |args|
  {
    if args == [] {
      assert before + args == before && args + more == more;
    } else {
      var rest := args[1..] + more;
      assert (args + more)[1..] == rest;
      var tail := [32] + Printed(rest);
      assert Printed(args + more) == Quote(args[0]) + tail;
      QuoteRead(args[0], tail, before);
      hide Clean, Quote, Printed;
      assert before + args == before + [args[0]] + args[1..];
      assert tail[1..] == Printed(rest);
      FourRead(args[1..], more, before + [args[0]]);
    }
  }

  // --- Newline escapes -------------------------------------------------------------------------------------

  /** `convert_escaped_newlines`. */
  function Converted(s: seq<byte>): (t: seq<byte>)
    ensures |t| <= |s|
  {
    if s == [] then []
    else if s[0] == 92 && |s| > 1 && s[1] == 110 then [10] + Converted(s[2..])
    else [s[0]] + Converted(s[1..])
  }

  /** It replaces every backslash with an 'n' behind it, from the left, by a newline, and nothing else. */
  lemma {:induction false} ConvertedIsLeftmost(s: seq<byte>)
    ensures Converted(s) == SR.Leftmost(s, [92, 110], [10])
    decreases |s|
  {
    var f: seq<byte>, r: seq<byte> := [92, 110], [10];
    if s == [] {
      SR.NoMatchNoChange(s, f, r);
    } else if s[0] == 92 && |s| > 1 && s[1] == 110 {
      assert s[..2] == f && SR.MatchAt(s, f, 0);
      SR.FirstMatchLeast(s, f, 0, 0);
      SR.LeftmostStep(s, f, r, 0);
      ConvertedIsLeftmost(s[2..]);
    } else {
      assert |s| > 1 ==> s[..2][0] == s[0] && s[..2][1] == s[1];
      SR.LeftmostLater(s, f, r);
      ConvertedIsLeftmost(s[1..]);
    }
  }

  /** Every newline as backslash and 'n'. */
  function NewlinesEscaped(s: seq<byte>): seq<byte> {
    if s == [] then [] else (if s[0] == 10 then [92, 110] else [s[0]]) + NewlinesEscaped(s[1..])
  }

  /** How many times a text has a backslash in front of an 'n'. */
  function Ambiguous(s: seq<byte>): nat {
    if |s| < 2 then 0 else (if s[0] == 92 && s[1] == 110 then 1 else 0) + Ambiguous(s[1..])
  }

  lemma {:induction false} ConvertedLength(s: seq<byte>)
    ensures |Converted(NewlinesEscaped(s))| + Ambiguous(s) == |s|
    ensures Ambiguous(s) == 0 ==> Converted(NewlinesEscaped(s)) == s
    decreases |s|
  {
    if s != [] {
      var e, more := NewlinesEscaped(s), NewlinesEscaped(s[1..]);
      ConvertedLength(s[1..]);
      if s[0] == 10 {
        assert e[2..] == more;
      } else {
        assert e[0] == s[0] && e[1..] == more;
        if s[0] == 92 && |s| > 1 && s[1] == 110 {
          assert more == [110] + NewlinesEscaped(s[2..]) && s[1..][1..] == s[2..];
          assert e[2..] == NewlinesEscaped(s[2..]);
          ConvertedLength(s[2..]);
          assert Ambiguous(s[1..]) == Ambiguous(s[2..]);
        }
      }
    }
  }

  /** Escaped newlines are restored exactly when the text has no backslash in front of an 'n'. */
  lemma {:induction false} NewlinesRestoredExactly(s: seq<byte>)
    ensures Converted(NewlinesEscaped(s)) == s <==> Ambiguous(s) == 0
  {
    ConvertedLength(s);
  }

  // --- Both together ----------------------------------------------------------------------------------------

  lemma {:induction false} EscapedNewlineCounts(s: seq<byte>)
    ensures Count(NewlinesEscaped(s), 92) == Count(s, 92) + Count(s, 10)
    ensures Count(NewlinesEscaped(s), 10) == 0
  {
    if s != [] {
      var more := NewlinesEscaped(s[1..]);
      EscapedNewlineCounts(s[1..]);
      if s[0] == 10 {
        Assoc([92], [110], more);
        assert [92] + [110] == [92, 110];
        CountsAhead(92, [110] + more, false);
        CountsAhead(110, more, false);
      } else {
        CountsAhead(s[0], more, false);
      }
    }
  }

  /** The conversion turns backslashes into newlines, and nothing else into either. */
  lemma {:induction false} ConvertedCounts(s: seq<byte>)
    ensures Count(Converted(s), 92) + Count(Converted(s), 10) == Count(s, 92) + Count(s, 10)
    decreases |s|
  {
    if s != [] {
      if s[0] == 92 && |s| > 1 && s[1] == 110 {
        ConvertedCounts(s[2..]);
        assert s[1..][1..] == s[2..];
        CountsAhead(10, Converted(s[2..]), false);
      } else {
        ConvertedCounts(s[1..]);
        CountsAhead(s[0], Converted(s[1..]), false);
      }
    }
  }

  lemma NextKeepsNewlines(cur: Current, c: byte)
    ensures var n := Next(cur, c);
      (if n.finished.Some? then Count(n.finished.value, 10) else 0) + Count(n.cur.Text(), 10) ==
        Count(cur.Text(), 10) + if c == 10 then 1 else 0
  {
    CountSnoc(cur.Text(), c, 10);
    if cur.Escaping() {
      var head := cur.text[..|cur.text| - 1];
      assert cur.text == head + [92];
      CountSnoc(head, 92, 10);
      CountSnoc(head, c, 10);
    }
  }

  /** Cutting a line into arguments keeps its newlines. */
  lemma {:induction false} NewlinesKept(rest: seq<byte>, args: seq<seq<byte>>, cur: Current)
    ensures var t := Tokenise(rest, args, cur); t.Args? ==>
      CountAll(t.args, 10) == CountAll(args, 10) + Count(cur.Text(), 10) + Count(rest, 10)
    decreases |rest|
  {
    if rest == [] {
      if cur.Plain? {
        CountAllSnoc(args, cur.text, 10);
      }
    } else {
      var n := Next(cur, rest[0]);
      NextKeepsNewlines(cur, rest[0]);
      if n.finished.Some? {
        CountAllSnoc(args, n.finished.value, 10);
      }
      hide Next, Current.Escaping;
      NewlinesKept(rest[1..], Append(args, n.finished), n.cur);
    }
  }

  lemma {:induction false} NoNewlinePrinted(s: seq<byte>)
    requires Count(s, 10) == 0
    ensures Count(Escaped(s) + [34], 10) == 0
  {
    if s == [] {
      assert Escaped(s) + [34] == [34];
    } else {
      NoNewlinePrinted(s[1..]);
      EscapedAhead(s, [34], []);
      var more := Escaped(s[1..]) + [34];
      hide Escaped;
      CountsAhead(s[0], more, false);
      if s[0] == 34 {
        Assoc([92], [34], more);
        assert [92] + [34] == [92, 34];
        CountsAhead(92, [34] + more, false);
      }
    }
  }

  lemma NoNewlineQuoted(s: seq<byte>)
    requires Count(s, 10) == 0
    ensures Count(Printed([s]), 10) == 0
  {
    NoNewlinePrinted(s);
    assert Printed([s]) == [34] + (Escaped(s) + [34]);
    hide Escaped, Printed;
    CountsAhead(34, Escaped(s) + [34], false);
  }

  lemma {:induction false} EscapedCleanExactly(s: seq<byte>)
    ensures Unclean(NewlinesEscaped(s), false) == Unclean(s, false)
    ensures Unclean(NewlinesEscaped(s), true) == Unclean(s, true)
  {
    if s != [] {
      var more := NewlinesEscaped(s[1..]);
      EscapedCleanExactly(s[1..]);
      if s[0] == 10 {
        var e := NewlinesEscaped(s);
        assert e[0] == 92 && e[1..][0] == 110 && e[1..][1..] == more;
      } else {
        assert NewlinesEscaped(s)[1..] == more;
      }
    }
  }

  /** If what is read back is converted to the text, then no backslash was lost on the way. */
  lemma OneArgumentClean(s: seq<byte>)
    requires var t := Tokenise(Printed([NewlinesEscaped(s)]), [], Nothing);
      t.Args? && |t.args| == 1 && Converted(t.args[0]) == s
    ensures Clean(NewlinesEscaped(s))
  {
    var e := NewlinesEscaped(s);
    var t := Tokenise(Printed([e]), [], Nothing);
    EscapedNewlineCounts(s);
    ConvertedCounts(t.args[0]);
    NoNewlineQuoted(e);
    BackslashesLost(Printed([e]), [], Nothing);
    NewlinesKept(Printed([e]), [], Nothing);
    PrintedCounts([e]);
    OneCounts(t.args, 92);
    OneCounts(t.args, 10);
    OneCounts([e], 92);
    OneUnclean(e);
    UncleanIs(e, false);
    hide Tokenise, Printed, Converted, NewlinesEscaped, Unclean, Count, Losses, CountAll;
  }

  lemma OneCounts(args: seq<seq<byte>>, c: byte)
    requires |args| == 1
    ensures CountAll(args, c) == Count(args[0], c)
  {
    assert args[1..] == [];
  }

  lemma OneUnclean(s: seq<byte>)
    ensures UncleanAll([s]) == Unclean(s, false)
  {
    var one := [s];
    assert one[1..] == [];
  }

  /**
   * A text goes through the command line and the newline escapes unchanged exactly if it has no
   * backslash at its end, in front of a space or in front of an 'n'.
   */
  lemma TextRoundTripExactly(s: seq<byte>)
    ensures (var t := Tokenise(Printed([NewlinesEscaped(s)]), [], Nothing);
        t.Args? && |t.args| == 1 && Converted(t.args[0]) == s) <==>
      Clean(s) && Ambiguous(s) == 0
  {
    var e := NewlinesEscaped(s);
    var t := Tokenise(Printed([e]), [], Nothing);
    EscapedCleanExactly(s);
    UncleanIs(s, false);
    UncleanIs(e, false);
    NewlinesRestoredExactly(s);
    assert AllClean([e]) <==> Clean(e);
    hide Tokenise, Printed, Converted, NewlinesEscaped, Unclean, Clean, Ambiguous;
    RoundTripExactly([e]);
    if t.Args? && |t.args| == 1 && Converted(t.args[0]) == s {
      OneArgumentClean(s);
    }
  }

  /** Text without backslashes is such a text. */
  lemma TextRoundTrip(s: seq<byte>)
    requires 92 !in s
    ensures var t := Tokenise(Printed([NewlinesEscaped(s)]), [], Nothing);
      t.Args? && |t.args| == 1 && Converted(t.args[0]) == s
  {
    NoBackslash(s);
    hide *;
    TextRoundTripExactly(s);
  }

  lemma {:induction false} NoBackslash(s: seq<byte>)
    requires 92 !in s
    ensures Clean(s) && Ambiguous(s) == 0
  {
    if s != [] {
      NoBackslash(s[1..]);
    }
  }
}
