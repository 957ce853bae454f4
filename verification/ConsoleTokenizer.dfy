/**
 * Cutting a command line into arguments inside its own buffer: the first part of `handle_input`
 * in cores/arduino/cli/console_cli.cpp, and `convert_escaped_newlines` of
 * cores/arduino/config/DeviceConfigCLI.cpp.
 */
module ConsoleTokenizer {
  import opened Memory
  import opened Wrappers
  import opened ConsoleText

  /** `rest` and its NUL stand at `i`. */
  ghost predicate Ahead(b: seq<byte>, i: nat, rest: seq<byte>) {
    i + |rest| < |b| && i + |rest| < 4096 && b[i..i + |rest|] == rest && b[i + |rest|] == 0 && NulFree(rest)
  }

  /** Argument `a` and its NUL stand at `start`, before `limit`. */
  ghost predicate StandsAt(b: seq<byte>, start: nat, a: seq<byte>, limit: nat) {
    start + |a| < limit <= |b| && b[start..start + |a|] == a && b[start + |a|] == 0 && NulFree(a)
  }

  ghost predicate Held(b: seq<byte>, starts: seq<nat>, args: seq<seq<byte>>, limit: nat) {
    |args| <= |starts| && forall k :: 0 <= k < |args| ==> StandsAt(b, starts[k], args[k], limit)
  }

  /** The current argument runs from `start` to `i`. */
  ghost predicate Reading(b: seq<byte>, start: nat, i: nat, cur: Current) {
    start <= i <= |b| && b[start..i] == cur.Text() && NulFree(cur.Text()) &&
    (cur.Plain? ==> cur.text != []) && (cur.Quoted? ==> start > 0 && b[start - 1] == 34)
  }

  /** The loop of `handle_input` at byte `i`; the current argument, if there is one, is the last of `starts`. */
  ghost predicate Cutting(b: seq<byte>, i: nat, starts: seq<nat>, start: nat, args: seq<seq<byte>>, cur: Current,
                          rest: seq<byte>, goal: Tokens) {
    Ahead(b, i, rest) && Held(b, starts, args, start) && Reading(b, start, i, cur) &&
    |starts| <= 4 && |starts| == |args| + (if cur.Nothing? then 0 else 1) &&
    (!cur.Nothing? ==> starts[|args|] == start) && Tokenise(rest, args, cur) == goal
  }

  lemma AheadNext(b: seq<byte>, i: nat, rest: seq<byte>)
    requires Ahead(b, i, rest) && rest != []
    ensures b[i] == rest[0] && Ahead(b, i + 1, rest[1..])
  {
    assert b[i] == b[i..i + |rest|][0];
    assert b[i + 1..i + |rest|] == b[i..i + |rest|][1..];
  }

  lemma HeldLonger(b: seq<byte>, b': seq<byte>, starts: seq<nat>, starts': seq<nat>, args: seq<seq<byte>>, i: nat, j: nat)
    requires Held(b, starts, args, i) && starts <= starts' && |b'| == |b| && i <= j <= |b|
    requires forall k :: 0 <= k < i ==> b'[k] == b[k]
    ensures Held(b', starts', args, j)
  {
    forall k | 0 <= k < |args| ensures StandsAt(b', starts'[k], args[k], j) {
      assert StandsAt(b, starts[k], args[k], i);
      assert b'[starts[k]..starts[k] + |args[k]|] == b[starts[k]..starts[k] + |args[k]|];
    }
  }

  lemma TokeniseNext(rest: seq<byte>, args: seq<seq<byte>>, cur: Current)
    requires rest != [] && (|args| < 4 || Next(cur, rest[0]).cur.Nothing?)
    ensures Tokenise(rest, args, cur) ==
      Tokenise(rest[1..], Append(args, Next(cur, rest[0]).finished), Next(cur, rest[0]).cur)
  {
    hide Next;
  }

  /** What the test for a backslash in front means. */
  lemma EscapingIs(b: seq<byte>, start: nat, i: nat, cur: Current)
    requires Reading(b, start, i, cur)
    ensures cur.Escaping() <==> i > 0 && b[i - 1] == 92 && !cur.Nothing?
  {
    if cur.Text() != [] {
      assert cur.text[|cur.text| - 1] == b[start..i][|cur.text| - 1];
    }
  }

  /** The byte becomes part of the argument. */
  lemma Keep(b: seq<byte>, i: nat, starts: seq<nat>, start: nat, args: seq<seq<byte>>, cur: Current, rest: seq<byte>,
             goal: Tokens, cur': Current)
    requires Cutting(b, i, starts, start, args, cur, rest, goal) && rest != [] && !cur.Nothing?
    requires Next(cur, rest[0]) == After(None, cur') && cur' == cur.(text := cur.text + [rest[0]])
    ensures Cutting(b, i + 1, starts, start, args, cur', rest[1..], goal)
  {
    hide Tokenise, Next, Held;
    AheadNext(b, i, rest);
    TokeniseNext(rest, args, cur);
    assert rest[0] != 0;
    hide Ahead;
    assert b[start..i + 1] == b[start..i] + [b[i]];
  }

  /** A space between arguments. */
  lemma Skip(b: seq<byte>, i: nat, starts: seq<nat>, start: nat, args: seq<seq<byte>>, cur: Current, rest: seq<byte>,
             goal: Tokens)
    requires Cutting(b, i, starts, start, args, cur, rest, goal) && rest != [] && cur.Nothing? && rest[0] == 32
    ensures Cutting(b, i + 1, starts, i + 1, args, cur, rest[1..], goal)
  {
    hide Tokenise;
    AheadNext(b, i, rest);
    HeldLonger(b, b, starts, starts, args, start, i + 1);
    TokeniseNext(rest, args, cur);
  }

  lemma Open(b: seq<byte>, i: nat, starts: seq<nat>, start: nat, args: seq<seq<byte>>, cur: Current, rest: seq<byte>,
             goal: Tokens, start': nat, cur': Current)
    requires Cutting(b, i, starts, start, args, cur, rest, goal) && rest != [] && cur.Nothing? && rest[0] != 32
    requires if rest[0] == 34 then start' == i + 1 && cur' == Quoted([]) else start' == i && cur' == Plain([rest[0]])
    ensures |args| == 4 ==> goal == TooMany
    ensures |args| < 4 ==> Cutting(b, i + 1, starts + [start'], start', args, cur', rest[1..], goal)
  {
    AheadNext(b, i, rest);
    if |args| < 4 {
      TokeniseNext(rest, args, cur);
      hide Tokenise;
      HeldLonger(b, b, starts, starts + [start'], args, start, start');
      Opened(b, i, start', rest[0], cur');
      hide Held, Ahead, Reading;
    }
  }

  lemma OpenArg(b: seq<byte>, i: nat, starts: seq<nat>, start: nat, args: seq<seq<byte>>, cur: Current, rest: seq<byte>,
                goal: Tokens, pointer: nat) returns (cur': Current)
    requires Cutting(b, i, starts, start, args, cur, rest, goal) && rest != [] && cur.Nothing? && rest[0] != 32
    requires pointer == if rest[0] == 34 then i + 1 else i
    ensures |starts| == 4 ==> Answers(Overrun, b, starts, goal)
    ensures |starts| < 4 ==> Cutting(b, i + 1, starts + [pointer], pointer, args, cur', rest[1..], goal)
    ensures !cur'.Nothing? && (cur'.Quoted? <==> rest[0] == 34)
  {
    cur' := if rest[0] == 34 then Quoted([]) else Plain([rest[0]]);
    assert |starts| == |args|;
    hide Cutting, Tokenise;
    Open(b, i, starts, start, args, cur, rest, goal, pointer, cur');
  }

  lemma Opened(b: seq<byte>, i: nat, start: nat, c: byte, cur: Current)
    requires i < |b| && b[i] == c != 0
    requires if c == 34 then start == i + 1 && cur == Quoted([]) else start == i && cur == Plain([c])
    ensures Reading(b, start, i + 1, cur)
  {
    assert b[i..i + 1] == [b[i]];
  }

  /** The argument ends: a NUL takes the place of its last quote or of the space. */
  lemma Close(b: seq<byte>, i: nat, starts: seq<nat>, start: nat, args: seq<seq<byte>>, cur: Current, rest: seq<byte>,
              goal: Tokens, b': seq<byte>)
    requires Cutting(b, i, starts, start, args, cur, rest, goal) && rest != [] && !cur.Nothing?
    requires Next(cur, rest[0]) == After(Some(cur.text), Nothing)
    requires i < |b| && b' == b[i := 0]
    ensures Cutting(b', i + 1, starts, i + 1, args + [cur.text], Nothing, rest[1..], goal)
  {
    hide Tokenise, Next;
    AheadNext(b, i, rest);
    TokeniseNext(rest, args, cur);
    assert Ahead(b', i + 1, rest[1..]) by {
      assert b'[i + 1..i + |rest|] == b[i + 1..i + |rest|];
    }
    hide Ahead;
    HeldLonger(b, b', starts, starts, args, start, i + 1);
    assert b'[start..i] == b[start..i];
    HeldOneMore(b', starts, args, cur.text, i + 1);
  }

  lemma HeldOneMore(b: seq<byte>, starts: seq<nat>, args: seq<seq<byte>>, a: seq<byte>, limit: nat)
    requires Held(b, starts, args, limit) && |args| < |starts| && StandsAt(b, starts[|args|], a, limit)
    ensures Held(b, starts, args + [a], limit)
  {}

  /** An escaped byte: the rest of the line moves over the backslash in front of it. */
  lemma Shift(b: seq<byte>, i: nat, starts: seq<nat>, start: nat, args: seq<seq<byte>>, cur: Current, rest: seq<byte>,
              goal: Tokens, b': seq<byte>, end: nat, cur': Current)
    requires Cutting(b, i, starts, start, args, cur, rest, goal)
    requires rest != [] && (rest[0] == 34 || rest[0] == 32) && cur.Escaping()
    requires end == i + |rest| + 1 && i > 0 && end <= |b| && b' == Splice(b, i - 1, b[i..end])
    requires cur' == cur.(text := cur.text[..|cur.text| - 1] + [rest[0]])
    ensures Cutting(b', i, starts, start, args, cur', rest[1..], goal)
  {
    hide Tokenise;
    TokeniseNext(rest, args, cur);
    hide Next;
    ShiftBytes(b, i, rest, b', end);
    hide Ahead, Splice;
    HeldLonger(b, b', starts, starts, args, start, start);
    ShiftedText(b, b', start, i, cur, rest[0], cur');
    hide Held, Reading;
  }

  lemma ShiftedText(b: seq<byte>, b': seq<byte>, start: nat, i: nat, cur: Current, c: byte, cur': Current)
    requires Reading(b, start, i, cur) && cur.Escaping() && c != 0 && |b'| == |b|
    requires cur' == cur.(text := cur.text[..|cur.text| - 1] + [c])
    requires (forall k :: 0 <= k < i - 1 ==> b'[k] == b[k]) && b'[i - 1] == c
    ensures Reading(b', start, i, cur')
  {
    assert b[start..i - 1] == cur.text[..|cur.text| - 1];
    assert b'[start..i] == b[start..i - 1] + [c];
  }

  lemma ShiftBytes(b: seq<byte>, i: nat, rest: seq<byte>, b': seq<byte>, end: nat)
    requires Ahead(b, i, rest) && rest != []
    requires end == i + |rest| + 1 && i > 0 && end <= |b| && b' == Splice(b, i - 1, b[i..end])
    ensures |b'| == |b| && (forall k :: 0 <= k < i - 1 ==> b'[k] == b[k]) && b'[i - 1] == rest[0]
    ensures Ahead(b', i, rest[1..])
  {
    assert b[i..end] == b[i..i + |rest|] + [b[i + |rest|]];
    hide *;
    SpliceReads(b, i - 1, b[i..end], end - 1);
    AheadBound(b, i, rest);
    AheadOf(b', i - 1, i, end - 1, rest);
  }

  lemma AheadBound(b: seq<byte>, i: nat, rest: seq<byte>)
    requires Ahead(b, i, rest)
    ensures NulFree(rest) && i + |rest| < 4096 && b[i..i + |rest|] == rest && b[i + |rest|] == 0
  {}

  lemma SpliceReads(b: seq<byte>, at: nat, m: seq<byte>, to: nat)
    requires to == at + |m| <= |b|
    ensures |Splice(b, at, m)| == |b| && Splice(b, at, m)[at..to] == m
    ensures forall k :: 0 <= k < at ==> Splice(b, at, m)[k] == b[k]
  {}

  lemma AheadOf(b: seq<byte>, j: nat, i: nat, to: nat, rest: seq<byte>)
    requires i == j + 1 && to <= |b| && to == j + |rest| + 1 && b[j..to] == rest + [0] && rest != []
    requires NulFree(rest) && i + |rest| < 4096
    ensures b[j] == rest[0] && Ahead(b, i, rest[1..])
  {
    var tail, k := rest[1..], i + |rest| - 1;
    assert b[j] == b[j..to][0];
    assert b[k] == b[j..to][|rest|];
    assert b[i..k] == b[j..to][1..|rest|] == tail;
  }

  /** The end of the line. */
  lemma Finish(b: seq<byte>, i: nat, starts: seq<nat>, start: nat, args: seq<seq<byte>>, cur: Current, goal: Tokens)
    requires Cutting(b, i, starts, start, args, cur, [], goal)
    ensures Answers(if cur.Quoted? then Unbalanced else Ok, b, starts, goal)
  {
    if cur.Plain? {
      HeldLonger(b, b, starts, starts, args, start, i + 1);
      HeldOneMore(b, starts, args, cur.text, i + 1);
    } else {
      HeldLonger(b, b, starts, starts, args, start, i + 1);
    }
    hide Tokenise, Held;
    if !cur.Quoted? {
      hide Reading, Ahead;
      Pointers(b, starts, if cur.Plain? then args + [cur.text] else args, i + 1);
    }
    TokeniseEnd(args, cur);
  }

  lemma TokeniseEnd(args: seq<seq<byte>>, cur: Current)
    ensures Tokenise([], args, cur) ==
      if cur.Quoted? then OpenQuote else Args(if cur.Plain? then args + [cur.text] else args)
  {}

  /** Each pointer is to the C string of its argument. */
  ghost predicate PointsTo(b: seq<byte>, starts: seq<nat>, goal: Tokens) {
    goal.Args? && |starts| == |goal.args| &&
    forall k :: 0 <= k < |starts| ==> starts[k] <= |b| && CStr(b[starts[k]..]) == goal.args[k]
  }

  lemma Pointers(b: seq<byte>, starts: seq<nat>, args: seq<seq<byte>>, limit: nat)
    requires Held(b, starts, args, limit) && |starts| == |args|
    ensures PointsTo(b, starts, Args(args))
  {
    forall k | 0 <= k < |starts| ensures starts[k] <= |b| && CStr(b[starts[k]..]) == args[k] {
      assert StandsAt(b, starts[k], args[k], limit);
      var s := b[starts[k]..];
      assert s[..|args[k]|] == b[starts[k]..starts[k] + |args[k]|];
      CStrIs(s, args[k]);
    }
  }

  lemma Begin(b: seq<byte>, line: seq<byte>)
    requires |line| < |b| && |line| < 4096 && b[..|line|] == line && b[|line|] == 0 && NulFree(line)
    ensures At(b, Mark(0, [], 0, [], Nothing, line), Tokenise(line, [], Nothing))
  {}

  lemma LengthLeft(b: seq<byte>, i: nat, rest: seq<byte>)
    requires Ahead(b, i, rest)
    ensures CStr(b[i..]) == rest
  {
    assert b[i..][..|rest|] == rest;
    CStrIs(b[i..], rest);
  }

  lemma CuttingFacts(b: seq<byte>, i: nat, starts: seq<nat>, start: nat, args: seq<seq<byte>>, cur: Current,
                     rest: seq<byte>, goal: Tokens)
    requires Cutting(b, i, starts, start, args, cur, rest, goal)
    ensures i < |b| && i < 4096 && (b[i] == 0 <==> rest == []) && (rest != [] ==> b[i] == rest[0])
    ensures |starts| <= 4 && |starts| == |args| + (if cur.Nothing? then 0 else 1)
    ensures cur.Escaping() <==> i > 0 && b[i - 1] == 92 && !cur.Nothing?
  {
    EscapingIs(b, start, i, cur);
    if rest != [] {
      AheadNext(b, i, rest);
    }
  }

  datatype Status = Ok | Unbalanced | Overrun

  ghost predicate Answers(status: Status, b: seq<byte>, argv: seq<nat>, goal: Tokens) {
    match goal
    case OpenQuote => status == Unbalanced
    case TooMany => status == Overrun
    case Args(args) => status == Ok && |argv| <= 4 && PointsTo(b, argv, goal)
  }

  /**
   * `handle_input` up to the point where the command is looked up. `Overrun` is the store of a
   * fifth pointer into `argv`, which has room for four.
   */
  method Tokenize(inbuf: array<byte>, ghost line: seq<byte>) returns (status: Status, argv: seq<nat>)
    requires |line| < 4096 == inbuf.Length
    requires inbuf[..|line|] == line && inbuf[|line|] == 0 && NulFree(line)
    modifies inbuf
    ensures Answers(status, inbuf[..], argv, Tokenise(line, [], Nothing))
  {
    argv := [];
    var inArg, inQuote := false, false;
    var i: nat := 0;
    ghost var m, goal := Mark(0, [], 0, [], Nothing, line), Tokenise(line, [], Nothing);
    Begin(inbuf[..], line);
    hide *;
    while true
      invariant At(inbuf[..], m, goal) && m.i == i && m.starts == argv
      invariant (inArg <==> !m.cur.Nothing?) && (inQuote <==> m.cur.Quoted?)
      decreases |m.rest|
    {
      MarkFacts(inbuf[..], m, goal);
      var c := inbuf[i];
      if c == 0 {
        MarkEnds(inbuf[..], m, goal);
        return if inQuote then Unbalanced else Ok, argv;
      }
      if inArg {
        i, inArg, inQuote, m := InsideArg(inbuf, i, inQuote, m, goal);
      } else if c == 32 {
        m := SkipSpace(inbuf[..], m, goal);
        i := i + 1;
      } else {
        var pointer := if c == 34 then i + 1 else i;
        m := OpenAt(inbuf[..], m, goal, pointer);
        if |argv| == 4 {
          return Overrun, argv;
        }
        inArg, inQuote := true, c == 34;
        i, argv := i + 1, argv + [pointer];
      }
    }
  }

  /** Where the loop stands. */
  datatype Mark = Mark(i: nat, starts: seq<nat>, start: nat, args: seq<seq<byte>>, cur: Current, rest: seq<byte>)

  ghost predicate At(b: seq<byte>, m: Mark, goal: Tokens) {
    Cutting(b, m.i, m.starts, m.start, m.args, m.cur, m.rest, goal)
  }

  lemma MarkFacts(b: seq<byte>, m: Mark, goal: Tokens)
    requires At(b, m, goal)
    ensures m.i < |b| && m.i < 4096 && (b[m.i] == 0 <==> m.rest == []) && (m.rest != [] ==> b[m.i] == m.rest[0])
    ensures |m.starts| <= 4
  {
    hide Cutting;
    CuttingFacts(b, m.i, m.starts, m.start, m.args, m.cur, m.rest, goal);
  }

  lemma MarkEnds(b: seq<byte>, m: Mark, goal: Tokens)
    requires At(b, m, goal) && m.rest == []
    ensures Answers(if m.cur.Quoted? then Unbalanced else Ok, b, m.starts, goal)
  {
    hide Cutting, Answers;
    Finish(b, m.i, m.starts, m.start, m.args, m.cur, goal);
  }

  lemma SkipSpace(b: seq<byte>, m: Mark, goal: Tokens) returns (m': Mark)
    requires At(b, m, goal) && m.rest != [] && m.cur.Nothing? && m.rest[0] == 32
    ensures At(b, m', goal) && m'.i == m.i + 1 && m'.starts == m.starts && m'.cur == m.cur && |m'.rest| < |m.rest|
  {
    hide Cutting;
    Skip(b, m.i, m.starts, m.start, m.args, m.cur, m.rest, goal);
    m' := m.(i := m.i + 1, start := m.i + 1, rest := m.rest[1..]);
  }

  lemma OpenAt(b: seq<byte>, m: Mark, goal: Tokens, pointer: nat) returns (m': Mark)
    requires At(b, m, goal) && m.rest != [] && m.cur.Nothing? && m.rest[0] != 32
    requires pointer == if m.rest[0] == 34 then m.i + 1 else m.i
    ensures |m.starts| == 4 ==> Answers(Overrun, b, m.starts, goal)
    ensures |m.starts| < 4 ==> At(b, m', goal)
    ensures m'.i == m.i + 1 && m'.starts == m.starts + [pointer] && |m'.rest| < |m.rest|
    ensures !m'.cur.Nothing? && (m'.cur.Quoted? <==> m.rest[0] == 34)
  {
    hide Cutting, Answers;
    var cur := OpenArg(b, m.i, m.starts, m.start, m.args, m.cur, m.rest, goal, pointer);
    m' := Mark(m.i + 1, m.starts + [pointer], pointer, m.args, cur, m.rest[1..]);
  }

  /** What a byte inside an argument is: escaped, the end of the argument, or a part of it. */
  datatype Role = EscapedByte | EndByte | PartByte

  function RoleOf(c: byte, escaping: bool, inQuote: bool): Role {
    if (c == 34 || c == 32) && escaping then EscapedByte
    else if (c == 34 && inQuote) || (c == 32 && !inQuote) then EndByte
    else PartByte
  }

  ghost predicate HasRole(cur: Current, rest: seq<byte>, role: Role) {
    rest != [] && !cur.Nothing? && role == RoleOf(rest[0], cur.Escaping(), cur.Quoted?)
  }

  lemma RoleMeans(b: seq<byte>, m: Mark, goal: Tokens, c: byte, escaping: bool)
    requires At(b, m, goal) && m.rest != [] && !m.cur.Nothing? && m.i < |b| && c == b[m.i]
    requires escaping <==> m.i > 0 && b[m.i - 1] == 92
    ensures HasRole(m.cur, m.rest, RoleOf(c, escaping, m.cur.Quoted?))
  {
    CuttingFacts(b, m.i, m.starts, m.start, m.args, m.cur, m.rest, goal);
    hide Cutting;
  }

  /** A byte inside an argument. */
  method InsideArg(inbuf: array<byte>, i: nat, inQuote: bool, ghost m: Mark, ghost goal: Tokens)
    returns (i': nat, inArg': bool, inQuote': bool, ghost m': Mark)
    requires At(inbuf[..], m, goal) && m.rest != [] && m.i == i < inbuf.Length
    requires !m.cur.Nothing? && (inQuote <==> m.cur.Quoted?)
    modifies inbuf
    ensures At(inbuf[..], m', goal) && m'.i == i' && m'.starts == m.starts && |m'.rest| < |m.rest|
    ensures (inArg' <==> !m'.cur.Nothing?) && (inQuote' <==> m'.cur.Quoted?)
  {
    hide *;
    var c, escaping := inbuf[i], i > 0 && inbuf[i - 1] == 92;
    RoleMeans(inbuf[..], m, goal, c, escaping);
    var role := RoleOf(c, escaping, inQuote);
    match role {
      case EscapedByte =>
        m' := ShiftDown(inbuf, i, m, goal);
        i', inArg', inQuote' := i, true, inQuote;
      case EndByte =>
        m' := CloseAt(inbuf, i, m, goal);
        i', inArg', inQuote' := i + 1, false, false;
      case PartByte =>
        m' := KeepByte(inbuf[..], m, goal);
        i', inArg', inQuote' := i + 1, true, inQuote;
    }
  }

  lemma NextIs(cur: Current, c: byte)
    requires !cur.Nothing? && !((c == 34 || c == 32) && cur.Escaping())
    ensures Next(cur, c) ==
      if (cur.Quoted? && c == 34) || (cur.Plain? && c == 32) then After(Some(cur.text), Nothing)
      else After(None, cur.(text := cur.text + [c]))
  {}

  lemma KeepByte(b: seq<byte>, m: Mark, goal: Tokens) returns (m': Mark)
    requires At(b, m, goal) && HasRole(m.cur, m.rest, PartByte)
    ensures At(b, m', goal) && m'.i == m.i + 1 && m'.starts == m.starts && |m'.rest| < |m.rest|
    ensures !m'.cur.Nothing? && (m'.cur.Quoted? <==> m.cur.Quoted?)
  {
    var cur := m.cur.(text := m.cur.text + [m.rest[0]]);
    NextIs(m.cur, m.rest[0]);
    hide Cutting, Next;
    Keep(b, m.i, m.starts, m.start, m.args, m.cur, m.rest, goal, cur);
    m' := m.(i := m.i + 1, cur := cur, rest := m.rest[1..]);
  }

  /** Writes the NUL behind the argument that ends at `i`. */
  method CloseAt(inbuf: array<byte>, i: nat, ghost m: Mark, ghost goal: Tokens) returns (ghost m': Mark)
    requires m.i == i < inbuf.Length && At(inbuf[..], m, goal) && HasRole(m.cur, m.rest, EndByte)
    modifies inbuf
    ensures At(inbuf[..], m', goal) && m'.i == i + 1 && m'.starts == m.starts && |m'.rest| < |m.rest|
    ensures m'.cur == Nothing
  {
    ghost var b := inbuf[..];
    m' := CloseMark(b, b[i := 0], m, goal);
    hide *;
    inbuf[i] := 0;
    assert inbuf[..] == b[i := 0];
  }

  lemma CloseMark(b: seq<byte>, b': seq<byte>, m: Mark, goal: Tokens) returns (m': Mark)
    requires m.i < |b| && b' == b[m.i := 0] && At(b, m, goal) && HasRole(m.cur, m.rest, EndByte)
    ensures At(b', m', goal) && m'.i == m.i + 1 && m'.starts == m.starts && |m'.rest| < |m.rest|
    ensures m'.cur == Nothing
  {
    Unpack(b, m, goal);
    EndMeans(m.cur, m.rest);
    m' := Mark(m.i + 1, m.starts, m.i + 1, m.args + [m.cur.text], Nothing, m.rest[1..]);
    hide *;
    Close(b, m.i, m.starts, m.start, m.args, m.cur, m.rest, goal, b');
    Pack(b', m', goal);
  }

  lemma Unpack(b: seq<byte>, m: Mark, goal: Tokens)
    requires At(b, m, goal)
    ensures Cutting(b, m.i, m.starts, m.start, m.args, m.cur, m.rest, goal)
  {
    hide Cutting;
  }

  lemma Pack(b: seq<byte>, m: Mark, goal: Tokens)
    requires Cutting(b, m.i, m.starts, m.start, m.args, m.cur, m.rest, goal)
    ensures At(b, m, goal)
  {
    hide Cutting;
  }

  lemma EndMeans(cur: Current, rest: seq<byte>)
    requires HasRole(cur, rest, EndByte)
    ensures rest != [] && !cur.Nothing? && Next(cur, rest[0]) == After(Some(cur.text), Nothing)
  {
    NextIs(cur, rest[0]);
    hide Next;
  }

  /** The `memcpy` over the backslash in front of `i`. */
  method ShiftDown(inbuf: array<byte>, i: nat, ghost m: Mark, ghost goal: Tokens) returns (ghost m': Mark)
    requires m.i == i < inbuf.Length && At(inbuf[..], m, goal) && HasRole(m.cur, m.rest, EscapedByte)
    modifies inbuf
    ensures At(inbuf[..], m', goal) && m'.i == i && m'.starts == m.starts && |m'.rest| < |m.rest|
    ensures !m'.cur.Nothing? && (m'.cur.Quoted? <==> m.cur.Quoted?)
  {
    ghost var b := inbuf[..];
    var strlen := |CStr(inbuf[..][i..])|;
    var end := i + strlen + 1;
    m' := ShiftMark(b, m, goal, strlen, end);
    hide *;
    MoveDown(inbuf, i, strlen + 1, end);
  }

  /** Copies the `n` bytes at `i` one position down. */
  method MoveDown(inbuf: array<byte>, i: nat, n: nat, ghost end: nat)
    requires 0 < i && end == i + n <= inbuf.Length
    modifies inbuf
    ensures inbuf[..] == Splice(old(inbuf[..]), i - 1, old(inbuf[..])[i..end])
  {
    hide Splice;
    assert inbuf[i..i + n] == inbuf[..][i..end];
    MemCpy(inbuf, i - 1, inbuf, i, n);
  }

  lemma ShiftMark(b: seq<byte>, m: Mark, goal: Tokens, strlen: nat, end: nat) returns (m': Mark)
    requires m.i <= |b| && At(b, m, goal) && HasRole(m.cur, m.rest, EscapedByte)
    requires strlen == |CStr(b[m.i..])| && end == m.i + strlen + 1
    ensures 0 < m.i && end <= |b|
    ensures At(Splice(b, m.i - 1, b[m.i..end]), m', goal)
    ensures m'.i == m.i && m'.starts == m.starts && |m'.rest| < |m.rest|
    ensures !m'.cur.Nothing? && (m'.cur.Quoted? <==> m.cur.Quoted?)
  {
    LengthLeft(b, m.i, m.rest);
    EscapingIs(b, m.start, m.i, m.cur);
    hide Cutting, Splice;
    var cur := m.cur.(text := m.cur.text[..|m.cur.text| - 1] + [m.rest[0]]);
    Shift(b, m.i, m.starts, m.start, m.args, m.cur, m.rest, goal, Splice(b, m.i - 1, b[m.i..end]), end, cur);
    m' := m.(cur := cur, rest := m.rest[1..]);
  }

  /** `convert_escaped_newlines`: what is converted stands before `dst`, `rest` from `src` on. */
  ghost predicate Converting(b: seq<byte>, dst: nat, src: nat, rest: seq<byte>, goal: seq<byte>) {
    dst <= src && src + |rest| < |b| && b[src..src + |rest|] == rest && b[src + |rest|] == 0 && NulFree(rest) &&
    NulFree(b[..dst]) && b[..dst] + Converted(rest) == goal
  }

  lemma ConvertingNext(b: seq<byte>, b': seq<byte>, dst: nat, dst': nat, src: nat, src': nat, rest: seq<byte>,
                       rest': seq<byte>, goal: seq<byte>, c: byte, k: nat)
    requires Converting(b, dst, src, rest, goal) && rest != [] && b' == b[dst := c]
    requires Converts(rest, c, k)
    requires dst' == dst + 1 && src' == src + k && k <= |rest| && rest' == rest[k..]
    ensures Converting(b', dst', src', rest', goal)
  {
    var done, end := b[..dst], src + |rest|;
    hide *;
    ConvertingParts(b, dst, src, end, rest, goal);
    ConvertedNext(rest, c, k);
    RestMoved(b, b', dst, src, src', end, rest, k, c);
    DoneGrows(b, b', dst, dst', c, Converted(rest'));
    NulFreeParts(done, c, rest, k);
    ConvertingIs(b', dst', src', end, rest', goal);
  }

  lemma NulFreeParts(done: seq<byte>, c: byte, rest: seq<byte>, k: nat)
    requires NulFree(done) && NulFree(rest) && c != 0 && k <= |rest|
    ensures NulFree(done + [c]) && NulFree(rest[k..])
  {}

  lemma ConvertingParts(b: seq<byte>, dst: nat, src: nat, end: nat, rest: seq<byte>, goal: seq<byte>)
    requires Converting(b, dst, src, rest, goal) && end == src + |rest|
    ensures dst <= src <= end < |b| && b[src..end] == rest && b[end] == 0 && NulFree(rest)
    ensures NulFree(b[..dst]) && b[..dst] + Converted(rest) == goal
  {
    hide Converted, NulFree;
  }

  lemma ConvertingIs(b: seq<byte>, dst: nat, src: nat, end: nat, rest: seq<byte>, goal: seq<byte>)
    requires dst <= src <= end < |b| && end == src + |rest| && b[src..end] == rest && b[end] == 0 && NulFree(rest)
    requires NulFree(b[..dst]) && b[..dst] + Converted(rest) == goal
    ensures Converting(b, dst, src, rest, goal)
  {
    hide Converted, NulFree;
  }

  lemma RestMoved(b: seq<byte>, b': seq<byte>, dst: nat, src: nat, at: nat, end: nat, rest: seq<byte>, k: nat, c: byte)
    requires dst <= src < at <= end < |b| && at == src + k && end == src + |rest|
    requires b[src..end] == rest && b' == b[dst := c]
    ensures b'[at..end] == rest[k..] && b'[end] == b[end]
  {
    assert b[at..end] == b[src..end][k..];
  }

  lemma DoneGrows(b: seq<byte>, b': seq<byte>, dst: nat, dst': nat, c: byte, more: seq<byte>)
    requires dst < |b| && dst' == dst + 1 && b' == b[dst := c]
    ensures b'[..dst'] == b[..dst] + [c]
    ensures b[..dst] + ([c] + more) == b'[..dst'] + more
  {
    assert b'[..dst'] == b[..dst] + [c];
  }

  /** The next `k` bytes of the text are converted to `c`. */
  predicate Converts(rest: seq<byte>, c: byte, k: nat) {
    rest != [] &&
    if rest[0] == 92 && |rest| > 1 && rest[1] == 110 then k == 2 && c == 10 else k == 1 && c == rest[0]
  }

  lemma ConvertsIs(rest: seq<byte>, first: byte, second: byte, c: byte, k: nat)
    requires rest != [] && first == rest[0] && second == if |rest| > 1 then rest[1] else 0
    requires if first == 92 && second == 110 then k == 2 && c == 10 else k == 1 && c == first
    ensures Converts(rest, c, k) && k <= |rest|
  {}

  lemma ConvertedNext(rest: seq<byte>, c: byte, k: nat)
    requires Converts(rest, c, k)
    ensures k <= |rest| && Converted(rest) == [c] + Converted(rest[k..]) && (NulFree(rest) ==> c != 0)
  {}

  lemma ConvertingReads(b: seq<byte>, dst: nat, src: nat, rest: seq<byte>, goal: seq<byte>)
    requires Converting(b, dst, src, rest, goal)
    ensures dst <= src < |b| && (b[src] == 0 <==> rest == [])
    ensures rest != [] ==> src + 1 < |b| && b[src] == rest[0] && b[src + 1] == if |rest| > 1 then rest[1] else 0
  {
    if rest != [] {
      assert b[src] == b[src..src + |rest|][0];
      if |rest| > 1 {
        assert b[src + 1] == b[src..src + |rest|][1];
      }
    }
  }

  lemma ConvertingStarts(b: seq<byte>)
    requires !NulFree(b)
    ensures Converting(b, 0, 0, CStr(b), Converted(CStr(b)))
  {
    assert b[..0] + Converted(CStr(b)) == Converted(CStr(b));
  }

  lemma ConvertingEnds(b: seq<byte>, b': seq<byte>, dst: nat, src: nat, goal: seq<byte>)
    requires Converting(b, dst, src, [], goal) && b' == b[dst := 0]
    ensures CStr(b') == goal
  {
    assert b'[..dst] == b[..dst] && b[..dst] + [] == b[..dst];
    CStrIs(b', goal);
  }

  /** Writes one converted byte, which takes `k` bytes of the text. */
  method ConvertByte(str: array<byte>, dst: nat, src: nat, c: byte, k: nat, ghost rest: seq<byte>,
                     ghost rest': seq<byte>, ghost goal: seq<byte>)
    requires Converting(str[..], dst, src, rest, goal) && rest != [] && dst < str.Length
    requires Converts(rest, c, k)
    requires k <= |rest| && rest' == rest[k..]
    modifies str
    ensures Converting(str[..], dst + 1, src + k, rest', goal)
  {
    ghost var b := str[..];
    hide *;
    ConvertingNext(b, b[dst := c], dst, dst + 1, src, src + k, rest, rest', goal, c, k);
    str[dst] := c;
    assert str[..] == b[dst := c];
  }

  method ConvertEscapedNewlines(str: array<byte>)
    requires !NulFree(str[..])
    modifies str
    ensures CStr(str[..]) == Converted(old(CStr(str[..])))
  {
    var src, dst := 0, 0;
    ghost var rest, goal := CStr(str[..]), Converted(CStr(str[..]));
    ConvertingStarts(str[..]);
    hide *;
    while true
      invariant Converting(str[..], dst, src, rest, goal)
      decreases |rest|
    {
      ConvertingReads(str[..], dst, src, rest, goal);
      if str[src] == 0 {
        break;
      }
      var escaped := str[src] == 92 && str[src + 1] == 110;
      var c, k := if escaped then 10 else str[src], if escaped then 2 else 1;
      ConvertsIs(rest, str[src], str[src + 1], c, k);
      ghost var rest' := rest[k..];
      ConvertByte(str, dst, src, c, k, rest, rest', goal);
      src, dst, rest := src + k, dst + 1, rest';
    }
    ghost var b := str[..];
    str[dst] := 0;
    assert str[..] == b[dst := 0];
    ConvertingEnds(b, str[..], dst, src, goal);
  }
}
