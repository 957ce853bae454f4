/**
 * The text of the settings file of cores/arduino/config/DeviceConfigFile.cpp: what its reader
 * finds, what its writer builds, and the lines both of them see.
 */
module ConfigText {
  import opened Memory
  import opened Wrappers

  // LF is 10, CR is 13, '#' is 35 and '=' is 61. A line buffer keeps 322 bytes of a line.

  predicate StartsWithKey(line: seq<byte>, key: seq<byte>) {
    |line| > |key| && line[..|key|] == key && line[|key|] == 61
  }

  /** A line that the reader takes for `key`. */
  predicate Matches(line: seq<byte>, key: seq<byte>) {
    line != [] && line[0] != 35 && StartsWithKey(line, key)
  }

  function Value(line: seq<byte>, key: seq<byte>): seq<byte>
    requires StartsWithKey(line, key)
  {
    CStr(line[|key| + 1..])
  }

  function Push(line: seq<byte>, ch: byte): seq<byte> {
    if |line| < 322 then line + [ch] else line
  }

  /**
   * The reader: `text` is still to be read, `line` is the line buffer. A line ends at LF or CR,
   * and bytes beyond the buffer are dropped.
   */
  function Scan(text: seq<byte>, line: seq<byte>, key: seq<byte>): Option<seq<byte>>
    decreases |text|
  {
    if text == [] then
      if Matches(line, key) then Some(Value(line, key)) else None
    else if text[0] == 10 || text[0] == 13 then
      if Matches(line, key) then Some(Value(line, key)) else Scan(text[1..], [], key)
    else Scan(text[1..], Push(line, text[0]), key)
  }

  function Lookup(file: seq<byte>, key: seq<byte>): Option<seq<byte>> {
    Scan(file, [], key)
  }

  lemma {:induction false} LookedUpNulFree(text: seq<byte>, line: seq<byte>, key: seq<byte>)
    ensures Scan(text, line, key).Some? ==> NulFree(Scan(text, line, key).value)
    decreases |text|
  {
    hide Matches, Push;
    if text != [] {
      LookedUpNulFree(text[1..], [], key);
      LookedUpNulFree(text[1..], Push(line, text[0]), key);
    }
  }

  function Entry(key: seq<byte>, value: seq<byte>): (e: seq<byte>)
    ensures |e| == |key| + |value| + 2
  {
    key + [61] + value + [10]
  }

  /** How far the first line of `text` reaches: to its LF or to the end. */
  function LineEnd(text: seq<byte>): (n: nat)
    ensures n <= |text| && (n < |text| ==> text[n] == 10)
  {
    if text == [] || text[0] == 10 then 0 else 1 + LineEnd(text[1..])
  }

  lemma {:induction false} LineEndFirst(text: seq<byte>, k: nat)
    requires k < LineEnd(text)
    ensures text[k] != 10
  {
    if k > 0 {
      LineEndFirst(text[1..], k - 1);
    }
  }

  /** The writer: the first line of `key` is replaced, or an entry is put at the end. */
  function Update(text: seq<byte>, key: seq<byte>, value: seq<byte>, replaced: bool): seq<byte>
    decreases |text|
  {
    if text == [] then
      if replaced then [] else Entry(key, value)
    else
      var n := LineEnd(text);
      var hit := !replaced && StartsWithKey(text[..n], key);
      var line := if hit then Entry(key, value) else if n == |text| then text else text[..n + 1];
      line + Update(if n == |text| then [] else text[n + 1..], key, value, replaced || hit)
  }

  /** The file after a save. A file of more than 65536 bytes is not read at all. */
  function Saved(file: seq<byte>, key: seq<byte>, value: seq<byte>): seq<byte> {
    Update(if |file| <= 65536 then CStr(file) else [], key, value, false)
  }

  /** The new text fits the buffer of `fileSize + keyLen + 1 + valueLen + 2 + 1` bytes. */
  lemma {:induction false} UpdateFits(text: seq<byte>, key: seq<byte>, value: seq<byte>, replaced: bool)
    ensures |Update(text, key, value, replaced)| <= |text| + if replaced then 0 else |Entry(key, value)|
    decreases |text|
  {
    hide LineEnd, StartsWithKey, Entry;
    if text != [] {
      var n := LineEnd(text);
      var hit := !replaced && StartsWithKey(text[..n], key);
      var rest := if n == |text| then [] else text[n + 1..];
      UpdateFits(rest, key, value, replaced || hit);
    }
  }

  // --- The file as a list of lines ---------------------------------------------------------------

  predicate IsLine(line: seq<byte>) {
    forall k :: 0 <= k < |line| ==> line[k] != 10 && line[k] != 13 && line[k] != 0
  }

  /** What the writer and the reader take for one line, whatever else is in it. */
  predicate LfFree(line: seq<byte>) {
    forall k :: 0 <= k < |line| ==> line[k] != 10
  }

  predicate Unbroken(line: seq<byte>) {
    forall k :: 0 <= k < |line| ==> line[k] != 10 && line[k] != 13
  }

  predicate AllLines(lines: seq<seq<byte>>) {
    forall k :: 0 <= k < |lines| ==> IsLine(lines[k])
  }

  /** The text of some lines, each ended by LF. */
  function Unlines(lines: seq<seq<byte>>): seq<byte> {
    if lines == [] then [] else lines[0] + [10] + Unlines(lines[1..])
  }

  predicate Clean(text: seq<byte>) {
    forall k :: 0 <= k < |text| ==> text[k] != 13 && text[k] != 0
  }

  /** The complete lines of a text, and what follows the last LF. */
  function Lines(text: seq<byte>): (lines: seq<seq<byte>>)
    decreases |text|
  {
    var n := LineEnd(text);
    if n == |text| then [] else [text[..n]] + Lines(text[n + 1..])
  }

  function Tail(text: seq<byte>): (tail: seq<byte>)
    decreases |text|
  {
    var n := LineEnd(text);
    if n == |text| then text else Tail(text[n + 1..])
  }

  /** A text that is empty or ends with LF, without CR and NUL. */
  predicate Terminated(text: seq<byte>) {
    Clean(text) && Tail(text) == []
  }

  lemma FirstLine(text: seq<byte>, n: nat)
    requires Clean(text) && n == LineEnd(text)
    ensures IsLine(text[..n])
    ensures n < |text| ==> Clean(text[n + 1..]) && text == text[..n] + [10] + text[n + 1..]
  {
    hide LineEnd;
    forall k | 0 <= k < n ensures text[k] != 10 {
      LineEndFirst(text, k);
    }
  }

  lemma {:induction false} LinesAndTail(text: seq<byte>)
    requires Clean(text)
    ensures AllLines(Lines(text)) && IsLine(Tail(text)) && text == Unlines(Lines(text)) + Tail(text)
    decreases |text|
  {
    var n := LineEnd(text);
    FirstLine(text, n);
    if n < |text| {
      var line, rest := text[..n], text[n + 1..];
      LinesAndTail(rest);
      var lines, tail := Lines(rest), Tail(rest);
      assert Lines(text) == [line] + lines && Tail(text) == tail;
      hide *;
      UnlinesCons(line, lines, tail);
      ConsLine(line, lines);
    } else {
      assert text[..n] == text;
      assert Unlines([]) + text == text;
    }
  }

  lemma ConsLine(line: seq<byte>, lines: seq<seq<byte>>)
    requires IsLine(line) && AllLines(lines)
    ensures AllLines([line] + lines)
  {}

  lemma UnlinesCons(line: seq<byte>, lines: seq<seq<byte>>, tail: seq<byte>)
    ensures Unlines([line] + lines) + tail == line + [10] + (Unlines(lines) + tail)
  {
    assert ([line] + lines)[1..] == lines;
  }

  /** Terminated texts are the empty one and those that end with LF. */
  lemma {:induction false} TerminatedIs(text: seq<byte>)
    requires Clean(text)
    ensures Terminated(text) <==> text == [] || text[|text| - 1] == 10
    decreases |text|
  {
    var n := LineEnd(text);
    if n < |text| {
      TerminatedIs(text[n + 1..]);
    } else if n > 0 {
      LineEndFirst(text, n - 1);
    }
  }

  lemma {:induction false} UnlinesParts(lines: seq<seq<byte>>, tail: seq<byte>)
    requires AllLines(lines) && IsLine(tail)
    ensures var text := Unlines(lines) + tail;
      Clean(text) && Lines(text) == lines && Tail(text) == tail
  {
    if lines == [] {
      assert Unlines(lines) + tail == tail;
      LineEndAll(tail);
    } else {
      var line, more := lines[0], lines[1..];
      UnlinesParts(more, tail);
      var rest := Unlines(more) + tail;
      UnlinesCons(line, more, tail);
      assert lines == [line] + more;
      PartsOfCons(line, rest);
    }
  }

  lemma PartsOfCons(line: seq<byte>, rest: seq<byte>)
    requires IsLine(line) && Clean(rest)
    ensures var text := line + [10] + rest;
      Clean(text) && Lines(text) == [line] + Lines(rest) && Tail(text) == Tail(rest)
  {
    LineEndIs(line, rest);
    hide LineEnd;
    var text, n := line + [10] + rest, |line|;
    assert text[..n] == line && text[n + 1..] == rest;
  }

  lemma {:induction false} LineEndAll(line: seq<byte>)
    requires LfFree(line)
    ensures LineEnd(line) == |line|
  {
    if line != [] {
      LineEndAll(line[1..]);
    }
  }

  /** What the line buffer keeps of a line. */
  function Kept(line: seq<byte>): seq<byte> {
    Cut(line, 322)
  }

  /** The value of the first line of `key`. */
  function Find(lines: seq<seq<byte>>, key: seq<byte>): Option<seq<byte>> {
    if lines == [] then None
    else if Matches(Kept(lines[0]), key) then Some(Value(Kept(lines[0]), key))
    else Find(lines[1..], key)
  }

  /** The lines with the first one of `key` replaced, or a new one at the end. */
  function Put(lines: seq<seq<byte>>, key: seq<byte>, value: seq<byte>): seq<seq<byte>> {
    if lines == [] then [key + [61] + value]
    else if StartsWithKey(lines[0], key) then [key + [61] + value] + lines[1..]
    else [lines[0]] + Put(lines[1..], key, value)
  }

  // --- Reader and writer see the same lines ----------------------------------------------------

  lemma {:induction false} LineEndIs(line: seq<byte>, rest: seq<byte>)
    requires LfFree(line)
    ensures LineEnd(line + [10] + rest) == |line|
  {
    if line != [] {
      LineEndIs(line[1..], rest);
      assert (line + [10] + rest)[1..] == line[1..] + [10] + rest;
    }
  }

  lemma {:induction false} ScanLineTo(line: seq<byte>, end: byte, rest: seq<byte>, sofar: seq<byte>, key: seq<byte>)
    requires Unbroken(line) && (end == 10 || end == 13)
    ensures Scan(line + [end] + rest, Kept(sofar), key) ==
      if Matches(Kept(sofar + line), key) then Some(Value(Kept(sofar + line), key)) else Scan(rest, [], key)
    decreases |line|
  {
    var t := line + [end] + rest;
    if line == [] {
      assert sofar + line == sofar;
      assert t[1..] == rest;
    } else {
      assert t[1..] == line[1..] + [end] + rest;
      assert Push(Kept(sofar), line[0]) == Kept(sofar + [line[0]]);
      assert sofar + line == sofar + [line[0]] + line[1..];
      ScanLineTo(line[1..], end, rest, sofar + [line[0]], key);
    }
  }

  lemma ScanLine(line: seq<byte>, rest: seq<byte>, sofar: seq<byte>, key: seq<byte>)
    requires IsLine(line)
    ensures Scan(line + [10] + rest, Kept(sofar), key) ==
      if Matches(Kept(sofar + line), key) then Some(Value(Kept(sofar + line), key)) else Scan(rest, [], key)
  {
    ScanLineTo(line, 10, rest, sofar, key);
  }

  lemma {:induction false} ScanTail(tail: seq<byte>, sofar: seq<byte>, key: seq<byte>)
    requires Unbroken(tail)
    ensures Scan(tail, Kept(sofar), key) ==
      if Matches(Kept(sofar + tail), key) then Some(Value(Kept(sofar + tail), key)) else None
    decreases |tail|
  {
    if tail == [] {
      assert sofar + tail == sofar;
    } else {
      assert Push(Kept(sofar), tail[0]) == Kept(sofar + [tail[0]]);
      assert sofar + tail == sofar + [tail[0]] + tail[1..];
      ScanTail(tail[1..], sofar + [tail[0]], key);
    }
  }

  /** Some lines, each behind it the byte that ends it. */
  function Broken(lines: seq<seq<byte>>, ends: seq<byte>): seq<byte>
    requires |ends| == |lines|
  {
    if lines == [] then [] else lines[0] + [ends[0]] + Broken(lines[1..], ends[1..])
  }

  /**
   * The reader on every text: it finds the first line of the key, whether lines end with LF or CR, the
   * unfinished last line included.
   */
  lemma {:induction false} LookupIsFirst(lines: seq<seq<byte>>, ends: seq<byte>, tail: seq<byte>, key: seq<byte>)
    requires |ends| == |lines| && Unbroken(tail)
    requires forall k :: 0 <= k < |lines| ==> Unbroken(lines[k]) && (ends[k] == 10 || ends[k] == 13)
    ensures Lookup(Broken(lines, ends) + tail, key) == Find(lines + [tail], key)
  {
    if lines == [] {
      assert Broken(lines, ends) + tail == tail && lines + [tail] == [tail] && [] + tail == tail;
      ScanTail(tail, [], key);
    } else {
      var line, rest := lines[0], Broken(lines[1..], ends[1..]) + tail;
      assert Broken(lines, ends) + tail == line + [ends[0]] + rest;
      assert (lines + [tail])[1..] == lines[1..] + [tail];
      LookupIsFirst(lines[1..], ends[1..], tail, key);
      ScanLineTo(line, ends[0], rest, [], key);
      assert [] + line == line;
    }
  }

  lemma {:induction false} UnlinesBroken(lines: seq<seq<byte>>, ends: seq<byte>)
    requires |ends| == |lines| && forall k :: 0 <= k < |ends| ==> ends[k] == 10
    ensures Unlines(lines) == Broken(lines, ends)
  {
    if lines != [] {
      UnlinesBroken(lines[1..], ends[1..]);
    }
  }

  lemma LookupIsFind(lines: seq<seq<byte>>, tail: seq<byte>, key: seq<byte>)
    requires AllLines(lines) && IsLine(tail)
    ensures Lookup(Unlines(lines) + tail, key) == Find(lines + [tail], key)
  {
    var ends: seq<byte> := seq(|lines|, _ => 10);
    UnlinesBroken(lines, ends);
    LookupIsFirst(lines, ends, tail, key);
  }

  lemma {:induction false} UpdateReplaced(text: seq<byte>, key: seq<byte>, value: seq<byte>)
    ensures Update(text, key, value, true) == text
    decreases |text|
  {
    if text != [] {
      var n := LineEnd(text);
      var rest := if n == |text| then [] else text[n + 1..];
      UpdateKeeps(text, n, rest, key, value);
      hide *;
      UpdateReplaced(rest, key, value);
    }
  }

  lemma UpdateKeeps(text: seq<byte>, n: nat, rest: seq<byte>, key: seq<byte>, value: seq<byte>)
    requires text != [] && n == LineEnd(text) && rest == if n == |text| then [] else text[n + 1..]
    ensures var line := if n == |text| then text else text[..n + 1];
      text == line + rest && Update(text, key, value, true) == line + Update(rest, key, value, true)
  {
    hide LineEnd, StartsWithKey, Entry;
  }

  predicate HasKey(lines: seq<seq<byte>>, key: seq<byte>) {
    exists k :: 0 <= k < |lines| && StartsWithKey(lines[k], key)
  }

  /** The writer on every text: what it makes of some lines and an unfinished one. */
  lemma {:induction false} UpdateIsPut(lines: seq<seq<byte>>, tail: seq<byte>, key: seq<byte>, value: seq<byte>)
    requires LfFree(tail) && forall k :: 0 <= k < |lines| ==> LfFree(lines[k])
    ensures Update(Unlines(lines) + tail, key, value, false) ==
      if HasKey(lines, key) then Unlines(Put(lines, key, value)) + tail
      else Unlines(lines) + UpdateTail(tail, key, value)
  {
    if lines == [] {
      assert Unlines(lines) + tail == tail;
      UpdateTailIs(tail, key, value);
    } else {
      var line, more := lines[0], lines[1..];
      var rest := Unlines(more) + tail;
      assert lines == [line] + more;
      UnlinesCons(line, more, tail);
      UpdateStep(line, rest, key, value);
      hide Unlines, Update, StartsWithKey, HasKey, Put, LineEnd, UpdateTail, Entry;
      if StartsWithKey(line, key) {
        PutHere(lines, tail, key, value);
      } else {
        UpdateIsPut(more, tail, key, value);
        PutLater(lines, tail, key, value);
      }
    }
  }

  lemma UpdateStep(line: seq<byte>, rest: seq<byte>, key: seq<byte>, value: seq<byte>)
    requires LfFree(line)
    ensures Update(line + [10] + rest, key, value, false) ==
      if StartsWithKey(line, key) then Entry(key, value) + rest
      else line + [10] + Update(rest, key, value, false)
  {
    LineEndIs(line, rest);
    hide LineEnd;
    var t, n := line + [10] + rest, |line|;
    assert t[..n] == line && t[n + 1..] == rest && t[..n + 1] == line + [10];
    UpdateReplaced(rest, key, value);
  }

  lemma UpdateTailIs(tail: seq<byte>, key: seq<byte>, value: seq<byte>)
    requires LfFree(tail)
    ensures Update(tail, key, value, false) == UpdateTail(tail, key, value)
  {
    LineEndAll(tail);
    assert tail[..|tail|] == tail;
  }

  function UpdateTail(tail: seq<byte>, key: seq<byte>, value: seq<byte>): seq<byte> {
    if StartsWithKey(tail, key) then Entry(key, value) else tail + Entry(key, value)
  }

  lemma PutHere(lines: seq<seq<byte>>, tail: seq<byte>, key: seq<byte>, value: seq<byte>)
    requires lines != [] && StartsWithKey(lines[0], key)
    ensures HasKey(lines, key)
    ensures Unlines(Put(lines, key, value)) + tail == Entry(key, value) + (Unlines(lines[1..]) + tail)
  {
    assert ([key + [61] + value] + lines[1..])[1..] == lines[1..];
  }

  lemma PutLater(lines: seq<seq<byte>>, tail: seq<byte>, key: seq<byte>, value: seq<byte>)
    requires lines != [] && !StartsWithKey(lines[0], key)
    ensures HasKey(lines, key) <==> HasKey(lines[1..], key)
    ensures Unlines(Put(lines, key, value)) + tail == lines[0] + [10] + (Unlines(Put(lines[1..], key, value)) + tail)
    ensures Unlines(lines) + UpdateTail(tail, key, value) ==
      lines[0] + [10] + (Unlines(lines[1..]) + UpdateTail(tail, key, value))
  {
    var line, more := lines[0], lines[1..];
    assert lines == [line] + more;
    HasKeyLater(line, more, key);
    var put := Put(more, key, value);
    assert Put(lines, key, value) == [line] + put;
    hide Unlines, UpdateTail, StartsWithKey;
    UnlinesCons(line, put, tail);
    UnlinesCons(line, more, UpdateTail(tail, key, value));
  }

  lemma HasKeyLater(line: seq<byte>, more: seq<seq<byte>>, key: seq<byte>)
    ensures HasKey([line] + more, key) <==> StartsWithKey(line, key) || HasKey(more, key)
  {
    var lines := [line] + more;
    assert lines[0] == line && forall k :: 1 <= k < |lines| ==> lines[k] == more[k - 1];
    if HasKey(more, key) {
      var k :| 0 <= k < |more| && StartsWithKey(more[k], key);
      assert StartsWithKey(lines[k + 1], key);
    }
  }

  // --- Keys and values -----------------------------------------------------------------------------

  predicate ValidKey(key: seq<byte>) {
    IsLine(key) && (key == [] || key[0] != 35) && |key| < 322 && forall k :: 0 <= k < |key| ==> key[k] != 61
  }

  predicate ValidValue(key: seq<byte>, value: seq<byte>) {
    IsLine(value) && |key| + 1 + |value| <= 322
  }

  lemma MatchesIs(line: seq<byte>, key: seq<byte>)
    requires ValidKey(key)
    ensures Matches(Kept(line), key) <==> StartsWithKey(line, key)
  {
    var n := |key|;
    if |line| > n {
      assert line[..n] == Kept(line)[..n] && line[n] == Kept(line)[n];
      if StartsWithKey(line, key) && n > 0 {
        assert line[0] == line[..n][0] == key[0];
      }
    }
  }

  lemma OneKeyPerLine(line: seq<byte>, key: seq<byte>, key': seq<byte>)
    requires ValidKey(key) && ValidKey(key') && StartsWithKey(line, key) && StartsWithKey(line, key')
    ensures key == key'
  {
    if |key| < |key'| {
      EqualsInside(line, key, key');
    } else if |key'| < |key| {
      EqualsInside(line, key', key);
    }
  }

  lemma EqualsInside(line: seq<byte>, key: seq<byte>, longer: seq<byte>)
    requires StartsWithKey(line, key) && StartsWithKey(line, longer) && |key| < |longer|
    ensures longer[|key|] == 61
  {
    assert line[..|longer|][|key|] == line[|key|];
  }

  lemma EntryLine(key: seq<byte>, value: seq<byte>)
    requires ValidKey(key) && ValidValue(key, value)
    ensures var line := key + [61] + value;
      IsLine(line) && StartsWithKey(line, key) && Kept(line) == line && Value(line, key) == value
  {
    var line := key + [61] + value;
    assert line[|key| + 1..] == value;
    CStrAll(value);
  }

  lemma {:induction false} FindPut(lines: seq<seq<byte>>, key: seq<byte>, value: seq<byte>, key': seq<byte>)
    requires ValidKey(key) && ValidValue(key, value) && ValidKey(key')
    ensures Find(Put(lines, key, value), key') == if key' == key then Some(value) else Find(lines, key')
  {
    hide Kept, StartsWithKey, Matches, Value, ValidKey;
    var line := key + [61] + value;
    EntryLine(key, value);
    MatchesIs(line, key');
    if key != key' && StartsWithKey(line, key') {
      OneKeyPerLine(line, key, key');
    }
    if lines != [] {
      MatchesIs(lines[0], key');
      if StartsWithKey(lines[0], key) {
        if key != key' && StartsWithKey(lines[0], key') {
          OneKeyPerLine(lines[0], key, key');
        }
        assert Put(lines, key, value)[1..] == lines[1..];
      } else {
        FindPut(lines[1..], key, value, key');
        assert Put(lines, key, value)[1..] == Put(lines[1..], key, value);
      }
    }
  }

  /** How many lines a key has. */
  function CountKey(lines: seq<seq<byte>>, key: seq<byte>): nat {
    if lines == [] then 0 else (if StartsWithKey(lines[0], key) then 1 else 0) + CountKey(lines[1..], key)
  }

  /** The lines of other keys, and all lines of no key: comments, for one. */
  function Others(lines: seq<seq<byte>>, key: seq<byte>): seq<seq<byte>> {
    if lines == [] then []
    else (if StartsWithKey(lines[0], key) then [] else [lines[0]]) + Others(lines[1..], key)
  }

  lemma {:induction false} PutKeepsOthers(lines: seq<seq<byte>>, key: seq<byte>, value: seq<byte>, key': seq<byte>)
    requires ValidKey(key) && ValidValue(key, value) && ValidKey(key') && AllLines(lines)
    ensures AllLines(Put(lines, key, value))
    ensures Others(Put(lines, key, value), key) == Others(lines, key)
    ensures CountKey(Put(lines, key, value), key') ==
      if key' == key && CountKey(lines, key) == 0 then 1 else CountKey(lines, key')
  {
    hide StartsWithKey, ValidKey;
    var line := key + [61] + value;
    EntryLine(key, value);
    if key != key' && StartsWithKey(line, key') {
      OneKeyPerLine(line, key, key');
    }
    if lines != [] {
      if StartsWithKey(lines[0], key) {
        if key != key' && StartsWithKey(lines[0], key') {
          OneKeyPerLine(lines[0], key, key');
        }
        assert Put(lines, key, value)[1..] == lines[1..];
      } else {
        PutKeepsOthers(lines[1..], key, value, key');
        assert Put(lines, key, value)[1..] == Put(lines[1..], key, value);
      }
    }
  }

  // --- Saving and loading -------------------------------------------------------------------------

  lemma SavedText(file: seq<byte>, key: seq<byte>, value: seq<byte>)
    requires Clean(file) && |file| <= 65536
    ensures var lines, tail := Lines(file), Tail(file);
      AllLines(lines) && IsLine(tail) && file == Unlines(lines) + tail &&
      Saved(file, key, value) ==
        if HasKey(lines, key) then Unlines(Put(lines, key, value)) + tail
        else Unlines(lines) + UpdateTail(tail, key, value)
  {
    CStrAll(file);
    LinesAndTail(file);
    UpdateIsPut(Lines(file), Tail(file), key, value);
  }

  /**
   * A save into a terminated file of at most 65536 bytes: the key then reads as the value, every
   * other key as before, all other lines stay as they are and in order, the file stays
   * terminated, and the key has a line of its own.
   */
  lemma SaveThenLoad(file: seq<byte>, key: seq<byte>, value: seq<byte>, key': seq<byte>)
    requires Terminated(file) && |file| <= 65536
    requires ValidKey(key) && ValidValue(key, value) && ValidKey(key')
    ensures var file' := Saved(file, key, value);
      Terminated(file') &&
      Lookup(file', key') == (if key' == key then Some(value) else Lookup(file, key')) &&
      Others(Lines(file'), key) == Others(Lines(file), key) &&
      CountKey(Lines(file'), key') ==
        (if key' == key && CountKey(Lines(file), key) == 0 then 1 else CountKey(Lines(file), key'))
  {
    hide *;
    var lines := Lines(file);
    TerminatedParts(file);
    SavedText(file, key, value);
    var put := Put(lines, key, value);
    SavedTerminated(file, key, value);
    PutKeepsOthers(lines, key, value, key');
    UnlinesParts(put, []);
    NoTail(put);
    NoTail(lines);
    LookupOfLines(put, key');
    LookupOfLines(lines, key');
    FindPut(lines, key, value, key');
    TerminatedIsUnlines(put);
  }

  lemma TerminatedParts(file: seq<byte>)
    requires Terminated(file)
    ensures Clean(file) && Tail(file) == []
  {}

  lemma NoTail(lines: seq<seq<byte>>)
    ensures Unlines(lines) + [] == Unlines(lines)
  {}

  lemma TerminatedIsUnlines(lines: seq<seq<byte>>)
    requires AllLines(lines)
    ensures Terminated(Unlines(lines))
  {
    UnlinesParts(lines, []);
    NoTail(lines);
  }

  lemma SavedTerminated(file: seq<byte>, key: seq<byte>, value: seq<byte>)
    requires Terminated(file) && |file| <= 65536
    ensures Saved(file, key, value) == Unlines(Put(Lines(file), key, value))
  {
    hide Put, Unlines, Lines, Tail, StartsWithKey, Saved, HasKey, Entry;
    SavedText(file, key, value);
    var lines := Lines(file);
    NoTail(Put(lines, key, value));
    if !HasKey(lines, key) {
      PutAtEnd(lines, key, value);
      assert UpdateTail([], key, value) == Entry(key, value) by { StartsWithNothing(key); }
    }
  }

  lemma StartsWithNothing(key: seq<byte>)
    ensures !StartsWithKey([], key)
  {}

  lemma {:induction false} PutAtEnd(lines: seq<seq<byte>>, key: seq<byte>, value: seq<byte>)
    requires !HasKey(lines, key)
    ensures Put(lines, key, value) == lines + [key + [61] + value]
    ensures Unlines(Put(lines, key, value)) == Unlines(lines) + Entry(key, value)
  {
    hide StartsWithKey;
    if lines == [] {
      assert Put(lines, key, value)[1..] == [];
    } else {
      var line, more := lines[0], lines[1..];
      assert lines == [line] + more;
      HasKeyLater(line, more, key);
      PutAtEnd(more, key, value);
      assert Put(lines, key, value)[1..] == Put(more, key, value);
    }
  }

  lemma LookupOfLines(lines: seq<seq<byte>>, key: seq<byte>)
    requires AllLines(lines)
    ensures Lookup(Unlines(lines), key) == Find(lines, key)
  {
    hide Lookup, Unlines;
    NoTail(lines);
    LookupIsFind(lines, [], key);
    FindEmptyTail(lines, key);
  }

  lemma {:induction false} FindEmptyTail(lines: seq<seq<byte>>, key: seq<byte>)
    ensures Find(lines + [[]], key) == Find(lines, key)
  {
    if lines != [] {
      FindEmptyTail(lines[1..], key);
      assert (lines + [[]])[1..] == lines[1..] + [[]];
    } else {
      assert lines + [[]] == [[]];
    }
  }

  lemma {:induction false} FindNone(lines: seq<seq<byte>>, key: seq<byte>)
    requires ValidKey(key) && !HasKey(lines, key)
    ensures Find(lines, key) == None
  {
    hide StartsWithKey, Kept, Matches;
    if lines != [] {
      var line, more := lines[0], lines[1..];
      assert lines == [line] + more;
      HasKeyLater(line, more, key);
      MatchesIs(line, key);
      FindNone(more, key);
    }
  }

  lemma {:induction false} FindInFront(lines: seq<seq<byte>>, tail: seq<byte>, key: seq<byte>)
    requires Find(lines, key).Some?
    ensures Find(lines + [tail], key) == Find(lines, key)
  {
    var more := lines[1..];
    assert (lines + [tail])[0] == lines[0] && (lines + [tail])[1..] == more + [tail];
    if !Matches(Kept(lines[0]), key) {
      FindInFront(more, tail, key);
    }
  }

  /** An entry written behind an unfinished line is not an entry. */
  lemma GluedIsNoEntry(tail: seq<byte>, key: seq<byte>, value: seq<byte>)
    requires tail != [] && !StartsWithKey(tail, key) && ValidKey(key)
    ensures !StartsWithKey(tail + key + [61] + value, key)
  {
    var line, n := tail + key + [61] + value, |key|;
    if n < |tail| {
      assert line[..n] == tail[..n] && line[n] == tail[n];
    } else {
      assert line[n] == key[n - |tail|];
    }
  }

  lemma GluedLines(lines: seq<seq<byte>>, tail: seq<byte>, key: seq<byte>, value: seq<byte>)
    ensures Unlines(lines) + (tail + Entry(key, value)) == Unlines(lines + [tail + key + [61] + value])
  {
    var line := tail + key + [61] + value;
    UnlinesAppend(lines, line);
    assert line + [10] == tail + Entry(key, value);
  }

  lemma {:induction false} UnlinesAppend(lines: seq<seq<byte>>, line: seq<byte>)
    ensures Unlines(lines + [line]) == Unlines(lines) + (line + [10])
  {
    if lines != [] {
      assert (lines + [line])[1..] == lines[1..] + [line];
      UnlinesAppend(lines[1..], line);
    } else {
      assert ([line])[1..] == [];
      assert lines + [line] == [line];
    }
  }

  /**
   * For a file without CR and NUL the saved value can be read back exactly when the file is
   * terminated or the key already has a line, be it the unfinished last one.
   */
  lemma SaveLoadsExactly(file: seq<byte>, key: seq<byte>, value: seq<byte>)
    requires Clean(file) && |file| <= 65536 && ValidKey(key) && ValidValue(key, value)
    ensures Lookup(Saved(file, key, value), key) == Some(value) <==>
      Terminated(file) || HasKey(Lines(file), key) || StartsWithKey(Tail(file), key)
  {
    hide *;
    var lines, tail := Lines(file), Tail(file);
    SavedText(file, key, value);
    var put := Put(lines, key, value);
    PutKeepsOthers(lines, key, value, key);
    FindPut(lines, key, value, key);
    if HasKey(lines, key) {
      LookupIsFind(put, tail, key);
      FindInFront(put, tail, key);
    } else if StartsWithKey(tail, key) || tail == [] {
      UpdateTailEntry(tail, key, value);
      PutAtEnd(lines, key, value);
      LookupOfLines(put, key);
      TailOfTerminated(file);
    } else {
      UpdateTailGlued(tail, key, value);
      GluedLines(lines, tail, key, value);
      GluedLookup(lines, tail, key, value);
      TailOfTerminated(file);
    }
  }

  lemma TailOfTerminated(file: seq<byte>)
    requires Clean(file)
    ensures Terminated(file) <==> Tail(file) == []
  {}

  lemma UpdateTailEntry(tail: seq<byte>, key: seq<byte>, value: seq<byte>)
    requires StartsWithKey(tail, key) || tail == []
    ensures UpdateTail(tail, key, value) == Entry(key, value)
  {}

  lemma UpdateTailGlued(tail: seq<byte>, key: seq<byte>, value: seq<byte>)
    requires !StartsWithKey(tail, key)
    ensures UpdateTail(tail, key, value) == tail + Entry(key, value)
  {}

  lemma GluedLookup(lines: seq<seq<byte>>, tail: seq<byte>, key: seq<byte>, value: seq<byte>)
    requires AllLines(lines) && IsLine(tail) && ValidKey(key) && ValidValue(key, value)
    requires tail != [] && !StartsWithKey(tail, key) && !HasKey(lines, key)
    ensures Lookup(Unlines(lines + [tail + key + [61] + value]), key) == None
  {
    var line := tail + key + [61] + value;
    GluedIsNoEntry(tail, key, value);
    var all := lines + [line];
    assert IsLine(line);
    hide Lookup, Unlines, StartsWithKey, Find;
    LookupOfLines(all, key);
    FindNone(all, key);
  }

  // --- Other keys of an unfinished file -----------------------------------------------------------

  /**
   * The entry is glued to an unfinished line, and what comes of it is read as a line of `key'`,
   * one that the file had no complete line of and whose unfinished one was not yet cut off.
   */
  predicate Spoils(file: seq<byte>, key: seq<byte>, value: seq<byte>, key': seq<byte>) {
    var lines, tail := Lines(file), Tail(file);
    tail != [] && !HasKey(lines, key) && !StartsWithKey(tail, key) &&
    Find(lines, key') == None && |tail| < 322 && StartsWithKey(tail + key + [61] + value, key')
  }

  lemma {:induction false} FindBehind(lines: seq<seq<byte>>, line: seq<byte>, key: seq<byte>)
    requires ValidKey(key)
    ensures Find(lines + [line], key) ==
      if Find(lines, key).Some? then Find(lines, key)
      else if StartsWithKey(line, key) then Some(Value(Kept(line), key)) else None
    ensures StartsWithKey(line, key) ==> StartsWithKey(Kept(line), key)
  {
    hide StartsWithKey, Kept, Value;
    MatchesIs(line, key);
    if lines == [] {
      assert [] + [line] == [line] && [line][1..] == [];
    } else {
      FindBehind(lines[1..], line, key);
      assert (lines + [line])[0] == lines[0] && (lines + [line])[1..] == lines[1..] + [line];
    }
  }

  lemma {:induction false} PutInFront(lines: seq<seq<byte>>, tail: seq<byte>, key: seq<byte>, value: seq<byte>)
    ensures Put(lines + [tail], key, value) ==
      if HasKey(lines, key) then Put(lines, key, value) + [tail]
      else if StartsWithKey(tail, key) then lines + [key + [61] + value]
      else lines + [tail, key + [61] + value]
  {
    hide StartsWithKey;
    var all := lines + [tail];
    if lines == [] {
      assert all == [tail] && all[1..] == [];
      assert [tail] + [key + [61] + value] == [tail, key + [61] + value];
    } else {
      var line, more := lines[0], lines[1..];
      assert all[0] == line && all[1..] == more + [tail];
      assert lines == [line] + more;
      HasKeyLater(line, more, key);
      PutInFront(more, tail, key, value);
    }
  }

  lemma KeptStarts(line: seq<byte>, key: seq<byte>)
    requires |key| < 322 && StartsWithKey(line, key)
    ensures StartsWithKey(Kept(line), key)
  {
    var n := |key|;
    assert Kept(line)[..n] == line[..n] && Kept(line)[n] == line[n];
  }

  /** The value of a line as the reader sees it. */
  lemma ValueSeen(line: seq<byte>, key: seq<byte>)
    requires |key| < 322 && IsLine(line) && StartsWithKey(line, key)
    ensures StartsWithKey(Kept(line), key)
    ensures Value(Kept(line), key) == if |line| <= 322 then line[|key| + 1..] else line[|key| + 1..322]
  {
    KeptStarts(line, key);
    hide StartsWithKey;
    assert NulFree(Kept(line)[|key| + 1..]);
    CStrAll(Kept(line)[|key| + 1..]);
  }

  /** A longer line of the key has another value, unless the line buffer is full already. */
  lemma GluedValue(tail: seq<byte>, entry: seq<byte>, line: seq<byte>, key: seq<byte>)
    requires |key| < 322 && IsLine(tail) && IsLine(line) && line == tail + entry && entry != []
    requires StartsWithKey(tail, key)
    ensures StartsWithKey(line, key) && StartsWithKey(Kept(tail), key) && StartsWithKey(Kept(line), key)
    ensures Value(Kept(line), key) == Value(Kept(tail), key) <==> |tail| >= 322
  {
    var n := |key|;
    assert line[..n] == tail[..n] && line[n] == tail[n];
    ValueSeen(tail, key);
    ValueSeen(line, key);
    hide StartsWithKey, Kept, Value;
    if |tail| >= 322 {
      assert line[n + 1..322] == tail[n + 1..322];
      assert tail[n + 1..322] == if |tail| <= 322 then tail[n + 1..] else tail[n + 1..322];
    }
  }

  /**
   * A save into any file without CR and NUL: another key keeps its value exactly unless the
   * entry spoils it.
   */
  lemma OthersKeptExactly(file: seq<byte>, key: seq<byte>, value: seq<byte>, key': seq<byte>)
    requires Clean(file) && |file| <= 65536
    requires ValidKey(key) && ValidValue(key, value) && ValidKey(key') && key' != key
    ensures Lookup(Saved(file, key, value), key') == Lookup(file, key') <==> !Spoils(file, key, value, key')
  {
    hide *;
    var lines, tail := Lines(file), Tail(file);
    SavedText(file, key, value);
    LookupIsFind(lines, tail, key');
    FindPut(lines + [tail], key, value, key');
    PutInFront(lines, tail, key, value);
    SpoilsOnlyGlued(file, key, value, key');
    if HasKey(lines, key) {
      PutKeepsOthers(lines, key, value, key');
      LookupIsFind(Put(lines, key, value), tail, key');
    } else if StartsWithKey(tail, key) {
      UpdateTailEntry(tail, key, value);
      LastLine(lines, key, value, key');
    } else if tail == [] {
      UpdateTailEntry(tail, key, value);
      LastLine(lines, key, value, key');
      FindEmptyTail(lines, key');
      FindPut(lines, key, value, key');
      PutAtEnd(lines, key, value);
    } else {
      UpdateTailGlued(tail, key, value);
      GluedLines(lines, tail, key, value);
      GluedOther(lines, tail, key, value, key');
      SpoilsGlued(file, key, value, key');
    }
  }

  lemma SpoilsOnlyGlued(file: seq<byte>, key: seq<byte>, value: seq<byte>, key': seq<byte>)
    ensures HasKey(Lines(file), key) || StartsWithKey(Tail(file), key) || Tail(file) == [] ==>
      !Spoils(file, key, value, key')
  {}

  lemma SpoilsGlued(file: seq<byte>, key: seq<byte>, value: seq<byte>, key': seq<byte>)
    requires !HasKey(Lines(file), key) && !StartsWithKey(Tail(file), key) && Tail(file) != []
    ensures Spoils(file, key, value, key') <==>
      Find(Lines(file), key') == None && |Tail(file)| < 322 && StartsWithKey(Tail(file) + key + [61] + value, key')
  {}

  lemma LastLine(lines: seq<seq<byte>>, key: seq<byte>, value: seq<byte>, key': seq<byte>)
    requires AllLines(lines) && ValidKey(key) && ValidValue(key, value)
    ensures Lookup(Unlines(lines) + Entry(key, value), key') == Find(lines + [key + [61] + value], key')
  {
    var line := key + [61] + value;
    EntryLine(key, value);
    assert AllLines(lines + [line]);
    UnlinesAppend(lines, line);
    hide Unlines, Lookup, Find;
    LookupOfLines(lines + [line], key');
  }

  lemma GluedOther(lines: seq<seq<byte>>, tail: seq<byte>, key: seq<byte>, value: seq<byte>, key': seq<byte>)
    requires AllLines(lines) && IsLine(tail) && ValidKey(key) && ValidValue(key, value) && ValidKey(key')
    ensures var line := tail + key + [61] + value;
      Lookup(Unlines(lines + [line]), key') == Find(lines + [tail], key') <==>
        !(Find(lines, key') == None && |tail| < 322 && StartsWithKey(line, key'))
  {
    var line, entry := tail + key + [61] + value, key + [61] + value;
    assert line == tail + entry && IsLine(entry) && IsLine(line);
    assert AllLines(lines + [line]);
    FindBehind(lines, tail, key');
    FindBehind(lines, line, key');
    if StartsWithKey(tail, key') {
      GluedValue(tail, entry, line, key');
    }
    hide Lookup, Unlines, Find, Kept;
    LookupOfLines(lines + [line], key');
  }

  /** A lone unfinished line of `key'`, as in "a=1": its value then goes on with the entry, as in "1b=2". */
  lemma UnfinishedLineSpoiled(tail: seq<byte>, key: seq<byte>, value: seq<byte>, key': seq<byte>)
    requires IsLine(tail) && StartsWithKey(tail, key') && |tail + key + [61] + value| <= 322
    requires ValidKey(key) && ValidValue(key, value) && ValidKey(key') && key' != key
    ensures |key'| + 1 <= |tail|
    ensures Lookup(tail, key') == Some(tail[|key'| + 1..])
    ensures Lookup(Saved(tail, key, value), key') == Some(tail[|key'| + 1..] + key + [61] + value)
  {
    var line := tail + key + [61] + value;
    OnlyLine(tail, key, key');
    LineLonger(tail, key, value, key', line);
    hide *;
    SavedText(tail, key, value);
    LookupIsFind([], tail, key');
    UpdateTailGlued(tail, key, value);
    GluedLines([], tail, key, value);
    NoLines(tail, line);
    LookupOfLines([line], key');
    OneLineFound(tail, key');
    OneLineFound(line, key');
  }

  lemma NoLines(tail: seq<byte>, line: seq<byte>)
    ensures Unlines([]) + tail == tail && [] + [tail] == [tail] && [] + [line] == [line] && |tail| >= 0
    ensures forall s: seq<byte> :: Unlines([]) + s == s
  {}

  lemma LineLonger(tail: seq<byte>, key: seq<byte>, value: seq<byte>, key': seq<byte>, line: seq<byte>)
    requires IsLine(tail) && StartsWithKey(tail, key') && line == tail + key + [61] + value && |line| <= 322
    requires ValidKey(key) && ValidValue(key, value)
    ensures |tail| <= 322 && IsLine(line) && AllLines([line]) && AllLines([])
    ensures StartsWithKey(line, key') && line[|key'| + 1..] == tail[|key'| + 1..] + key + [61] + value
  {
    assert line[..|key'|] == tail[..|key'|] && line[|key'|] == tail[|key'|];
  }

  lemma OnlyLine(tail: seq<byte>, key: seq<byte>, key': seq<byte>)
    requires IsLine(tail) && StartsWithKey(tail, key') && ValidKey(key) && ValidKey(key') && key' != key
    requires |tail| <= 322
    ensures Clean(tail) && |tail| <= 65536 && Lines(tail) == [] && Tail(tail) == tail && tail != []
    ensures !StartsWithKey(tail, key) && !HasKey([], key)
  {
    LineEndAll(tail);
    if StartsWithKey(tail, key) {
      OneKeyPerLine(tail, key, key');
    }
  }

  lemma OneLineFound(line: seq<byte>, key: seq<byte>)
    requires ValidKey(key) && IsLine(line) && StartsWithKey(line, key) && |line| <= 322
    ensures Find([line], key) == Some(line[|key| + 1..])
  {
    MatchesIs(line, key);
    CStrAll(line[|key| + 1..]);
  }

  // --- Values that cannot be read back --------------------------------------------------------------

  /** The bytes of a value before its first CR or LF. */
  function FirstPart(value: seq<byte>): (p: seq<byte>)
    ensures p <= value && (p == value || value[|p|] == 10 || value[|p|] == 13)
    ensures NulFree(value) ==> IsLine(p)
  {
    if value == [] || value[0] == 10 || value[0] == 13 then [] else [value[0]] + FirstPart(value[1..])
  }

  /** What a value reads as: up to its first CR or LF, and as far as the line buffer keeps it. */
  function Readable(key: seq<byte>, value: seq<byte>): seq<byte>
    requires |key| < 322
  {
    var p := FirstPart(value);
    if |key| + 1 + |p| <= 322 then p else p[..321 - |key|]
  }

  lemma {:induction false} ScanPast(lines: seq<seq<byte>>, rest: seq<byte>, key: seq<byte>)
    requires AllLines(lines) && ValidKey(key) && !HasKey(lines, key)
    ensures Scan(Unlines(lines) + rest, [], key) == Scan(rest, [], key)
  {
    if lines == [] {
      assert Unlines(lines) + rest == rest;
    } else {
      var line, more := lines[0], lines[1..];
      assert lines == [line] + more;
      HasKeyLater(line, more, key);
      MatchesIs(line, key);
      assert [] + line == line;
      ScanLine(line, Unlines(more) + rest, [], key);
      hide Scan, StartsWithKey;
      UnlinesCons(line, more, rest);
      ScanPast(more, rest, key);
    }
  }

  lemma {:induction false} EntryInPut(lines: seq<seq<byte>>, key: seq<byte>, value: seq<byte>)
    returns (front: seq<seq<byte>>, after: seq<byte>)
    requires AllLines(lines)
    ensures AllLines(front) && !HasKey(front, key)
    ensures Unlines(Put(lines, key, value)) == Unlines(front) + (Entry(key, value) + after)
  {
    hide StartsWithKey;
    if lines == [] || StartsWithKey(lines[0], key) {
      var put, entry := Put(lines, key, value), key + [61] + value;
      front, after := [], Unlines(put[1..]);
      assert put[0] == entry;
    } else {
      var line, more := lines[0], lines[1..];
      var f;
      f, after := EntryInPut(more, key, value);
      front := [line] + f;
      HasKeyLater(line, f, key);
      assert Put(lines, key, value)[1..] == Put(more, key, value);
      assert front[1..] == f;
    }
  }

  /** Whatever the value, this is what its entry reads as. */
  lemma EntryReads(key: seq<byte>, value: seq<byte>, after: seq<byte>)
    requires ValidKey(key) && NulFree(value)
    ensures Scan(Entry(key, value) + after, [], key) == Some(Readable(key, value))
  {
    var p := FirstPart(value);
    var line := key + [61] + p;
    var end := if p == value then 10 else value[|p|];
    var rest := if p == value then after else value[|p| + 1..] + [10] + after;
    EntryParts(key, value, p, end, after, rest);
    KeyLine(key, value, p, line);
    hide *;
    ScanLineTo(line, end, rest, [], key);
  }

  lemma EntryParts(key: seq<byte>, value: seq<byte>, p: seq<byte>, end: byte, after: seq<byte>, rest: seq<byte>)
    requires p <= value && if p == value then end == 10 && rest == after
      else end == value[|p|] && rest == value[|p| + 1..] + [10] + after
    ensures Entry(key, value) + after == key + [61] + p + [end] + rest
  {
    if p != value {
      assert value == p + [end] + value[|p| + 1..];
    }
  }

  lemma KeyLine(key: seq<byte>, value: seq<byte>, p: seq<byte>, line: seq<byte>)
    requires ValidKey(key) && NulFree(value) && p == FirstPart(value) && line == key + [61] + p
    ensures IsLine(line) && [] + line == line && Kept([]) == []
    ensures Matches(Kept(line), key) && Value(Kept(line), key) == Readable(key, value)
  {
    IsKeyLine(key, p, line);
    KeptNothing();
    hide *;
    MatchesIs(line, key);
    ValueSeen(line, key);
    ReadableIs(key, value, line);
  }

  lemma IsKeyLine(key: seq<byte>, p: seq<byte>, line: seq<byte>)
    requires ValidKey(key) && IsLine(p) && line == key + [61] + p
    ensures |key| < 322 && IsLine(line) && StartsWithKey(line, key) && [] + line == line
  {}

  lemma KeptNothing()
    ensures Kept([]) == []
  {}

  lemma ReadableIs(key: seq<byte>, value: seq<byte>, line: seq<byte>)
    requires |key| < 322 && line == key + [61] + FirstPart(value)
    ensures Readable(key, value) == if |line| <= 322 then line[|key| + 1..] else line[|key| + 1..322]
  {
    hide FirstPart;
    assert line[|key| + 1..] == FirstPart(value);
    if |line| > 322 {
      assert line[|key| + 1..322] == line[|key| + 1..][..321 - |key|];
    }
  }

  lemma SavedReadsAs(file: seq<byte>, key: seq<byte>, value: seq<byte>)
    requires Terminated(file) && |file| <= 65536 && ValidKey(key) && NulFree(value)
    ensures Lookup(Saved(file, key, value), key) == Some(Readable(key, value))
  {
    var lines := Lines(file);
    hide *;
    TerminatedParts(file);
    SavedText(file, key, value);
    SavedTerminated(file, key, value);
    LookupIs(Saved(file, key, value), key);
    var front, after := EntryInPut(lines, key, value);
    ScanPast(front, Entry(key, value) + after, key);
    EntryReads(key, value, after);
  }

  lemma LookupIs(file: seq<byte>, key: seq<byte>)
    ensures Lookup(file, key) == Scan(file, [], key)
  {}

  /**
   * For a terminated file the saved value can be read back exactly when it has no CR and LF and
   * fits the line buffer together with its key.
   */
  lemma ValueReadBackExactly(file: seq<byte>, key: seq<byte>, value: seq<byte>)
    requires Terminated(file) && |file| <= 65536 && ValidKey(key) && NulFree(value)
    ensures Lookup(Saved(file, key, value), key) == Some(value) <==> ValidValue(key, value)
  {
    SavedReadsAs(file, key, value);
    hide Lookup, Saved, Terminated, ValidKey;
    if ValidValue(key, value) {
      assert FirstPart(value) == value;
    }
  }

  /** A file that is too large to be read is replaced by the one entry. */
  lemma LargeFileForgets(file: seq<byte>, key: seq<byte>, value: seq<byte>, key': seq<byte>)
    requires |file| > 65536 && ValidKey(key) && ValidValue(key, value) && ValidKey(key')
    ensures var file' := Saved(file, key, value);
      Terminated(file') && Lines(file') == [key + [61] + value] &&
      Lookup(file', key') == if key' == key then Some(value) else None
  {
    var lines := [key + [61] + value];
    EntryLine(key, value);
    assert Put([], key, value) == lines;
    PutAtEnd([], key, value);
    assert Unlines([]) + Entry(key, value) == Entry(key, value);
    hide *;
    SavedLarge(file, key, value);
    UnlinesParts(lines, []);
    NoTail(lines);
    TerminatedIsUnlines(lines);
    LookupOfLines(lines, key');
    FindPut([], key, value, key');
    FindNone([], key');
  }

  lemma SavedLarge(file: seq<byte>, key: seq<byte>, value: seq<byte>)
    requires |file| > 65536
    ensures Saved(file, key, value) == Entry(key, value)
  {
    assert Update([], key, value, false) == Entry(key, value);
  }

  // --- Runs of saves ------------------------------------------------------------------------------

  datatype Save = Save(key: seq<byte>, value: seq<byte>)

  predicate AllValid(saves: seq<Save>) {
    forall k :: 0 <= k < |saves| ==> ValidKey(saves[k].key) && ValidValue(saves[k].key, saves[k].value)
  }

  function AfterSaves(file: seq<byte>, saves: seq<Save>): seq<byte>
    decreases |saves|
  {
    if saves == [] then file else AfterSaves(Saved(file, saves[0].key, saves[0].value), saves[1..])
  }

  /** No save of the run finds a file that is too large. */
  predicate StaysSmall(file: seq<byte>, saves: seq<Save>)
    decreases |saves|
  {
    saves == [] || (|file| <= 65536 && StaysSmall(Saved(file, saves[0].key, saves[0].value), saves[1..]))
  }

  /** The value of the last save of `key`, or `before`. */
  function LastSaved(saves: seq<Save>, key: seq<byte>, before: Option<seq<byte>>): Option<seq<byte>>
    decreases |saves|
  {
    if saves == [] then before
    else LastSaved(saves[1..], key, if saves[0].key == key then Some(saves[0].value) else before)
  }

  /** Whatever the sizes, a run keeps the file terminated and every key on at most one line. */
  lemma {:induction false} RunKeepsShape(file: seq<byte>, saves: seq<Save>, key: seq<byte>)
    requires Terminated(file) && CountKey(Lines(file), key) <= 1 && ValidKey(key) && AllValid(saves)
    ensures Terminated(AfterSaves(file, saves)) && CountKey(Lines(AfterSaves(file, saves)), key) <= 1
    decreases |saves|
  {
    hide Terminated, ValidKey, ValidValue, CountKey, Lines, Saved;
    if saves != [] {
      var s := saves[0];
      if |file| <= 65536 {
        SaveThenLoad(file, s.key, s.value, key);
      } else {
        LargeFileForgets(file, s.key, s.value, key);
        OneLineCount(s.key + [61] + s.value, key);
      }
      RunKeepsShape(Saved(file, s.key, s.value), saves[1..], key);
    }
  }

  lemma OneLineCount(line: seq<byte>, key: seq<byte>)
    ensures CountKey([line], key) <= 1
  {
    assert [line][1..] == [];
  }

  /** As long as the file stays small, every key reads as the value last saved for it. */
  lemma {:induction false} RunReadsLast(file: seq<byte>, saves: seq<Save>, key: seq<byte>)
    requires Terminated(file) && ValidKey(key) && AllValid(saves) && StaysSmall(file, saves)
    ensures Lookup(AfterSaves(file, saves), key) == LastSaved(saves, key, Lookup(file, key))
    decreases |saves|
  {
    hide Terminated, ValidKey, ValidValue, CountKey, Lines, Saved, Lookup, Others;
    if saves != [] {
      var s := saves[0];
      SaveThenLoad(file, s.key, s.value, key);
      RunReadsLast(Saved(file, s.key, s.value), saves[1..], key);
    }
  }
}
