/**
 * Values with CR or LF in the settings file: what they do to other keys, and what becomes of later
 * saves. The reader of cores/arduino/config/DeviceConfigFile.cpp ends a line at CR or LF, its
 * writer at LF only.
 */
module ConfigValues {
  import opened Memory
  import opened Wrappers
  import opened ConfigText

  // --- Reading on ------------------------------------------------------------------------------------

  /** A text whose last line ends with LF: what follows it is read if it has no line of the key. */
  lemma {:induction false} ScanOn(text: seq<byte>, line: seq<byte>, after: seq<byte>, key: seq<byte>)
    ensures Scan(text + [10] + after, line, key) ==
      if Scan(text, line, key).Some? then Scan(text, line, key) else Scan(after, [], key)
    decreases |text|
  {
    var whole := text + [10] + after;
    hide Matches, Value, Push;
    if text == [] {
      assert whole[1..] == after;
    } else {
      assert whole[1..] == text[1..] + [10] + after;
      ScanOn(text[1..], [], after, key);
      ScanOn(text[1..], Push(line, text[0]), after, key);
    }
  }

  predicate Ended(text: seq<byte>) {
    text == [] || text[|text| - 1] == 10
  }

  /** The LF at the end of a text does not change what is found in it. */
  lemma ScanEnded(text: seq<byte>, after: seq<byte>, key: seq<byte>)
    requires Ended(text)
    ensures Scan(text + after, [], key) ==
      if Scan(text, [], key).Some? then Scan(text, [], key) else Scan(after, [], key)
  {
    if text == [] {
      assert text + after == after;
    } else {
      var most := text[..|text| - 1];
      assert text == most + [10] + [] && text + after == most + [10] + after;
      ScanOn(most, [], [], key);
      ScanOn(most, [], after, key);
    }
    hide Scan;
    NothingFound(key);
  }

  lemma NothingFound(key: seq<byte>)
    ensures Scan([], [], key) == None
  {}

  // --- Where the entry is written ---------------------------------------------------------------------

  /**
   * A text cut at the first line that the writer takes for the key's: the complete lines in front
   * of it, that line without its LF if there is one, and the rest.
   */
  datatype Place = Place(front: seq<byte>, line: Option<seq<byte>>, back: seq<byte>)

  function PlaceOf(text: seq<byte>, key: seq<byte>): Place
    decreases |text|
  {
    var n := LineEnd(text);
    if n == |text| then Place([], None, [])
    else if StartsWithKey(text[..n], key) then Place([], Some(text[..n]), text[n + 1..])
    else
      var p := PlaceOf(text[n + 1..], key);
      Place(text[..n] + [10] + p.front, p.line, p.back)
  }

  function Front(text: seq<byte>, key: seq<byte>): seq<byte> {
    PlaceOf(text, key).front
  }

  function Old(line: Option<seq<byte>>): seq<byte> {
    match line case None => [] case Some(l) => l + [10]
  }

  lemma LineAhead(text: seq<byte>, n: nat)
    requires n == LineEnd(text) < |text|
    ensures text == text[..n] + [10] + text[n + 1..] && (Tail(text) == [] <==> Tail(text[n + 1..]) == [])
  {
    hide LineEnd;
  }

  lemma Regroup(a: seq<byte>, b: seq<byte>, c: seq<byte>, d: seq<byte>)
    ensures a + b + (c + d) == a + (b + (c + d)) && a + b + c == a + (b + c)
  {}

  /** The parts make up a text that is empty or ends with LF. */
  lemma {:induction false} PlaceParts(text: seq<byte>, key: seq<byte>)
    requires Tail(text) == []
    ensures var p := PlaceOf(text, key);
      text == p.front + (Old(p.line) + p.back) && Ended(p.front) &&
      (p.line == None ==> p.back == []) && (p.line.Some? ==> StartsWithKey(p.line.value, key))
    decreases |text|
  {
    var n := LineEnd(text);
    if n < |text| {
      LineAhead(text, n);
      hide LineEnd, StartsWithKey, Tail;
      var line, more := text[..n], text[n + 1..];
      if StartsWithKey(line, key) {
        assert text == [] + (line + [10] + more);
      } else {
        PlaceParts(more, key);
        var p := PlaceOf(more, key);
        Regroup(line + [10], p.front, Old(p.line), p.back);
        EndedBehind(line, p.front);
      }
    }
  }

  lemma EndedBehind(line: seq<byte>, front: seq<byte>)
    requires Ended(front)
    ensures Ended(line + [10] + front)
  {}

  /** A save replaces the line or, without one, puts its own at the end. */
  lemma {:induction false} UpdateInPlace(text: seq<byte>, key: seq<byte>, value: seq<byte>)
    requires Tail(text) == []
    ensures var p := PlaceOf(text, key);
      Update(text, key, value, false) == p.front + (Entry(key, value) + p.back)
    decreases |text|
  {
    var n := LineEnd(text);
    if n == |text| {
      assert [] + (Entry(key, value) + []) == Entry(key, value);
    } else {
      LineAhead(text, n);
      UpdateLine(text, n, key, value);
      hide LineEnd, StartsWithKey, Tail, Update, Entry;
      var line, more := text[..n], text[n + 1..];
      if StartsWithKey(line, key) {
        assert [] + (Entry(key, value) + more) == Entry(key, value) + more;
      } else {
        UpdateInPlace(more, key, value);
        var p := PlaceOf(more, key);
        Regroup(line + [10], p.front, Entry(key, value), p.back);
      }
    }
  }

  lemma UpdateLine(text: seq<byte>, n: nat, key: seq<byte>, value: seq<byte>)
    requires n == LineEnd(text) < |text|
    ensures Update(text, key, value, false) ==
      if StartsWithKey(text[..n], key) then Entry(key, value) + text[n + 1..]
      else text[..n] + [10] + Update(text[n + 1..], key, value, false)
  {
    UpdateReplaced(text[n + 1..], key, value);
    hide LineEnd, StartsWithKey, Entry;
    assert text[..n + 1] == text[..n] + [10];
  }

  // --- What a save leaves behind -----------------------------------------------------------------------

  /** The bytes of a value behind its first CR or LF. */
  function Behind(value: seq<byte>): seq<byte> {
    var p := FirstPart(value);
    if p == value then [] else value[|p| + 1..]
  }

  /** For another key the entry is as good as what stands behind the first CR or LF of its value. */
  lemma EntryReadsOther(key: seq<byte>, value: seq<byte>, after: seq<byte>, key': seq<byte>)
    requires ValidKey(key) && ValidKey(key') && key' != key && NulFree(value)
    ensures Scan(Entry(key, value) + after, [], key') ==
      if Scan(Behind(value), [], key').Some? then Scan(Behind(value), [], key') else Scan(after, [], key')
  {
    var p := FirstPart(value);
    var line := key + [61] + p;
    var end := if p == value then 10 else value[|p|];
    var rest := if p == value then after else value[|p| + 1..] + [10] + after;
    EntryParts(key, value, p, end, after, rest);
    IsKeyLine(key, p, line);
    NoOtherKey(line, key, key');
    KeptNothing();
    NothingFound(key');
    if p != value {
      ScanOn(value[|p| + 1..], [], after, key');
    }
    hide Scan, Entry, FirstPart, Matches, Kept, ValidKey, IsLine, NulFree;
    ScanLineTo(line, end, rest, [], key');
  }

  lemma NoOtherKey(line: seq<byte>, key: seq<byte>, key': seq<byte>)
    requires ValidKey(key) && ValidKey(key') && key' != key && StartsWithKey(line, key)
    ensures !Matches(Kept(line), key')
  {
    MatchesIs(line, key');
    if StartsWithKey(line, key') {
      OneKeyPerLine(line, key, key');
    }
  }

  /**
   * For every NUL-free text that is empty or ends with LF, with or without CR, and every value:
   * what any key reads as after a save.
   */
  lemma SavedReads(file: seq<byte>, key: seq<byte>, value: seq<byte>, key': seq<byte>)
    requires NulFree(file) && Tail(file) == [] && |file| <= 65536
    requires ValidKey(key) && ValidKey(key') && NulFree(value)
    ensures var p := PlaceOf(file, key);
      Lookup(Saved(file, key, value), key') ==
        if Scan(p.front, [], key').Some? then Scan(p.front, [], key')
        else if key' == key then Some(Readable(key, value))
        else if Scan(Behind(value), [], key').Some? then Scan(Behind(value), [], key')
        else Scan(p.back, [], key')
  {
    var p := PlaceOf(file, key);
    CStrAll(file);
    PlaceParts(file, key);
    UpdateInPlace(file, key, value);
    assert Saved(file, key, value) == p.front + (Entry(key, value) + p.back);
    hide *;
    LookupIs(p.front + (Entry(key, value) + p.back), key');
    ScanEnded(p.front, Entry(key, value) + p.back, key');
    if key' == key {
      EntryReads(key, value, p.back);
    } else {
      EntryReadsOther(key, value, p.back, key');
    }
  }

  /** And what it reads as before the save, in a text without CR. */
  lemma UnsavedReads(file: seq<byte>, key: seq<byte>, key': seq<byte>)
    requires Terminated(file) && ValidKey(key) && ValidKey(key') && key' != key
    ensures var p := PlaceOf(file, key);
      Lookup(file, key') ==
        if Scan(p.front, [], key').Some? then Scan(p.front, [], key') else Scan(p.back, [], key')
  {
    var p := PlaceOf(file, key);
    TerminatedParts(file);
    PlaceParts(file, key);
    hide *;
    OldIsLine(file, key, p);
    LookupIs(file, key');
    ScanEnded(p.front, Old(p.line) + p.back, key');
    OldReadsOther(p.line, p.back, key, key');
  }

  lemma {:induction false} OldHasNoLf(text: seq<byte>, key: seq<byte>)
    ensures var p := PlaceOf(text, key); p.line.Some? ==> 10 !in p.line.value
    decreases |text|
  {
    var n := LineEnd(text);
    if n < |text| {
      forall k | 0 <= k < n ensures text[k] != 10 {
        LineEndFirst(text, k);
      }
      hide LineEnd, StartsWithKey;
      if !StartsWithKey(text[..n], key) {
        OldHasNoLf(text[n + 1..], key);
      }
    }
  }

  lemma OldIsLine(file: seq<byte>, key: seq<byte>, p: Place)
    requires Clean(file) && p == PlaceOf(file, key) && file == p.front + (Old(p.line) + p.back)
    ensures p.line.Some? ==> IsLine(p.line.value)
  {
    OldHasNoLf(file, key);
    if p.line.Some? {
      var l, n := p.line.value, |p.front|;
      forall k | 0 <= k < |l| ensures l[k] != 13 && l[k] != 0 && l[k] != 10 {
        assert file[n + k] == l[k];
      }
    }
    hide PlaceOf;
  }

  lemma OldReadsOther(line: Option<seq<byte>>, back: seq<byte>, key: seq<byte>, key': seq<byte>)
    requires ValidKey(key) && ValidKey(key') && key' != key
    requires line.Some? ==> StartsWithKey(line.value, key) && IsLine(line.value)
    ensures Scan(Old(line) + back, [], key') == Scan(back, [], key')
  {
    match line
    case None => assert [] + back == back;
    case Some(l) =>
      NoOtherKey(l, key, key');
      KeptNothing();
      assert [] + l == l;
      hide Scan, Matches, Kept, StartsWithKey, ValidKey;
      ScanLineTo(l, 10, back, [], key');
  }

  /**
   * A save of any value leaves another key alone in every terminated file, exactly if nothing
   * behind the first CR or LF of the value reads as a line of that key.
   */
  lemma OthersSafeExactly(key: seq<byte>, value: seq<byte>, key': seq<byte>)
    requires ValidKey(key) && ValidKey(key') && key' != key && NulFree(value)
    ensures (forall file | Terminated(file) && |file| <= 65536 ::
        Lookup(Saved(file, key, value), key') == Lookup(file, key')) <==>
      Scan(Behind(value), [], key') == None
  {
    hide Terminated, Lookup, Saved, Scan, Behind, ValidKey, PlaceOf;
    if Scan(Behind(value), [], key') == None {
      forall file | Terminated(file) && |file| <= 65536
        ensures Lookup(Saved(file, key, value), key') == Lookup(file, key')
      {
        CleanSavedReads(file, key, value, key');
        UnsavedReads(file, key, key');
      }
    } else {
      EmptyFile(key, key');
      CleanSavedReads([], key, value, key');
    }
  }

  lemma CleanSavedReads(file: seq<byte>, key: seq<byte>, value: seq<byte>, key': seq<byte>)
    requires Terminated(file) && |file| <= 65536 && ValidKey(key) && ValidKey(key') && NulFree(value)
    ensures var p := PlaceOf(file, key);
      Lookup(Saved(file, key, value), key') ==
        if Scan(p.front, [], key').Some? then Scan(p.front, [], key')
        else if key' == key then Some(Readable(key, value))
        else if Scan(Behind(value), [], key').Some? then Scan(Behind(value), [], key')
        else Scan(p.back, [], key')
  {
    assert NulFree(file) && Tail(file) == [];
    hide *;
    SavedReads(file, key, value, key');
  }

  lemma EmptyFile(key: seq<byte>, key': seq<byte>)
    ensures Terminated([]) && PlaceOf([], key) == Place([], None, []) && Lookup([], key') == None
    ensures Scan([], [], key') == None
  {}

  lemma {:induction false} FirstPartIs(p: seq<byte>, end: byte, more: seq<byte>)
    requires IsLine(p) && (end == 10 || end == 13)
    ensures FirstPart(p + [end] + more) == p
  {
    var value := p + [end] + more;
    if p != [] {
      assert value[1..] == p[1..] + [end] + more;
      FirstPartIs(p[1..], end, more);
    }
  }

  lemma BehindIs(p: seq<byte>, end: byte, more: seq<byte>)
    requires IsLine(p) && (end == 10 || end == 13)
    ensures Behind(p + [end] + more) == more
  {
    FirstPartIs(p, end, more);
    hide FirstPart;
  }

  lemma LineReads(line: seq<byte>, key: seq<byte>, value: seq<byte>)
    requires ValidKey(key) && IsLine(line) && StartsWithKey(line, key) && Kept(line) == line && Value(line, key) == value
    ensures Scan(line, [], key) == Some(value)
  {
    MatchesIs(line, key);
    KeptNothing();
    assert [] + line == line;
    hide Scan, Kept, Matches, Value, StartsWithKey, ValidKey;
    ScanTail(line, [], key);
  }

  /** A value, a CR or LF, and a line of another key. */
  function WithLine(value: seq<byte>, end: byte, key': seq<byte>, value': seq<byte>): seq<byte> {
    value + [end] + (key' + [61] + value')
  }

  lemma WithLineReads(key: seq<byte>, value: seq<byte>, end: byte, key': seq<byte>, value': seq<byte>)
    requires ValidKey(key) && ValidValue(key, value) && ValidKey(key') && ValidValue(key', value')
    requires end == 10 || end == 13
    ensures var whole := WithLine(value, end, key', value');
      NulFree(whole) && (end == 13 ==> 10 !in whole) && |whole| <= 1000 &&
      Scan(Behind(whole), [], key') == Some(value')
  {
    assert IsLine(value);
    BehindIs(value, end, key' + [61] + value');
    EntryLine(key', value');
    hide Behind, Scan, Kept, StartsWithKey;
    LineReads(key' + [61] + value', key', value');
  }

  /** Such a value, saved for the one key, sets the other: "1", CR or LF, "b=2" saved for a sets b. */
  lemma LineBehindSets(key: seq<byte>, value: seq<byte>, end: byte, key': seq<byte>, value': seq<byte>)
    requires ValidKey(key) && ValidValue(key, value) && ValidKey(key') && ValidValue(key', value') && key' != key
    requires end == 10 || end == 13
    ensures Lookup([], key') == None
    ensures Lookup(Saved([], key, WithLine(value, end, key', value')), key') == Some(value')
  {
    EmptyFile(key, key');
    hide *;
    WithLineReads(key, value, end, key', value');
    CleanSavedReads([], key, WithLine(value, end, key', value'), key');
  }

  // --- Lines that a CR has hidden from the writer ----------------------------------------------------------

  /**
   * In a text that ends with LF but may have CR: a key can be saved, whatever the value, exactly if
   * the reader finds no line of it in front of the place where the entry is written. (The key leaves
   * room in the line buffer for a value that is not empty.)
   */
  lemma SavableExactly(file: seq<byte>, key: seq<byte>)
    requires NulFree(file) && Tail(file) == [] && |file| <= 65536
    requires ValidKey(key) && |key| + 2 <= 322
    ensures (forall value | ValidValue(key, value) :: Lookup(Saved(file, key, value), key) == Some(value)) <==>
      Scan(Front(file, key), [], key) == None
  {
    hide Lookup, Saved, Scan, ValidKey, PlaceOf, Tail, Readable;
    var found := Scan(Front(file, key), [], key);
    forall value | ValidValue(key, value)
      ensures Lookup(Saved(file, key, value), key) == if found.Some? then found else Some(value)
    {
      SavedReads(file, key, value, key);
      ReadableAll(key, value);
    }
    if found.Some? {
      var other: seq<byte> := if found.value == [] then [49] else [];
      assert ValidValue(key, other);
      assert Lookup(Saved(file, key, other), key) != Some(other);
    }
  }

  lemma ReadableAll(key: seq<byte>, value: seq<byte>)
    requires |key| < 322 && ValidValue(key, value)
    ensures Readable(key, value) == value
  {}

  /**
   * With a CR that is for good: later saves of the other key are accepted and written, but the
   * reader goes on to find the hidden line in front of them.
   */
  lemma CrSetsForGood(key: seq<byte>, value: seq<byte>, key': seq<byte>, value': seq<byte>, later: seq<byte>)
    requires ValidKey(key) && ValidValue(key, value) && ValidKey(key') && ValidValue(key', value') && key' != key
    requires ValidValue(key', later)
    ensures var file := Saved([], key, WithLine(value, 13, key', value'));
      NulFree(file) && Tail(file) == [] && |file| <= 65536 &&
      Lookup(file, key') == Some(value') &&
      Lookup(Saved(file, key', later), key') == Some(value')
  {
    var whole := WithLine(value, 13, key', value');
    var file := Entry(key, whole);
    hide *;
    WithLineReads(key, value, 13, key', value');
    LineBehindSets(key, value, 13, key', value');
    SavedIntoNothing(key, whole);
    NotTheWriters(key, whole, key', file);
    ValueNulFree(key', later);
    SavedReads(file, key', later, key');
    LookupIs(file, key');
  }

  lemma ValueNulFree(key: seq<byte>, value: seq<byte>)
    requires ValidValue(key, value)
    ensures NulFree(value)
  {}

  lemma SavedIntoNothing(key: seq<byte>, value: seq<byte>)
    ensures Saved([], key, value) == Entry(key, value)
  {}

  /** For the writer the entry is one line, and not one of the other key. */
  lemma NotTheWriters(key: seq<byte>, whole: seq<byte>, key': seq<byte>, file: seq<byte>)
    requires ValidKey(key) && ValidKey(key') && key' != key && NulFree(whole) && 10 !in whole && |whole| <= 1000
    requires file == Entry(key, whole)
    ensures NulFree(file) && Tail(file) == [] && |file| <= 65536
    ensures PlaceOf(file, key') == Place(file, None, [])
  {
    var line := key + [61] + whole;
    assert file == line + [10] + [];
    LineEndIs(line, []);
    assert file[..|line|] == line && file[|line| + 1..] == [];
    assert StartsWithKey(line, key);
    if StartsWithKey(line, key') {
      OneKeyPerLine(line, key, key');
    }
    hide StartsWithKey;
    assert LineEnd([]) == 0 && Tail([]) == [] && PlaceOf([], key') == Place([], None, []);
  }
}
