/**
 * Reading and rewriting the settings file: the loops of
 * cores/arduino/config/DeviceConfigFile.cpp. Allocation and file writes succeed.
 */
module ConfigFile {
  import opened Memory
  import opened Wrappers
  import opened ConfigText

  /** The numbers of the settings that have a key in the file; the others are in the EEPROM. */
  function FileKey(setting: int): (key: Option<seq<byte>>)
    ensures key.Some? ==> ValidKey(key.value)
  {
    match setting
    case 14 => // send_interval
      Some([115, 101, 110, 100, 95, 105, 110, 116, 101, 114, 118, 97, 108])
    case 15 => // publish_topic
      Some([112, 117, 98, 108, 105, 115, 104, 95, 116, 111, 112, 105, 99])
    case 16 => // subscribe_topic
      Some([115, 117, 98, 115, 99, 114, 105, 98, 101, 95, 116, 111, 112, 105, 99])
    case _ => None
  }

  lemma FileKeysAre()
    ensures Spells(FileKey(14).value, "send_interval") && Spells(FileKey(15).value, "publish_topic")
    ensures Spells(FileKey(16).value, "subscribe_topic")
    ensures forall setting :: FileKey(setting).Some? <==> 14 <= setting <= 16
  {}

  class File {
    var mounted: bool
    var exists_: bool
    var content: seq<byte>

    /** What reading the file yields: nothing when it cannot be opened. */
    function Text(): seq<byte>
      reads this
    {
      if mounted && exists_ then content else []
    }

    constructor (mounted: bool)
      ensures this.mounted == mounted && content == [] && !exists_
    {
      this.mounted, exists_, content := mounted, false, [];
    }

    /** Whether the line buffer holds a line of `key`, which then goes to `buffer`. */
    static method TakeLine(line: array<byte>, linePos: nat, key: seq<byte>, buffer: array<byte>, bufferSize: nat)
      returns (found: nat)
      requires linePos < line.Length && line != buffer && 0 < bufferSize <= buffer.Length
      modifies line, buffer
      ensures line[..linePos] == old(line[..linePos])
      ensures var l := old(line[..linePos]);
        if !Matches(l, key) then found == 0 && buffer[..] == old(buffer[..])
        else var v := Clipped(Value(l, key), bufferSize);
          found == |v| + 1 && buffer[..] == Splice(old(buffer[..]), 0, v + [0])
    {
      found := 0;
      ghost var l := line[..linePos];
      line[linePos] := 0;
      LineTest(line[..], linePos, key);
      if linePos > 0 && line[0] != 35 && linePos >= |key| + 1 && line[..|key|] == key && line[|key|] == 61 {
        ValueOfLine(line[..], linePos, key);
        var valStart := |key| + 1;
        var val := CStr(line[..][valStart..]);
        var copyLen := if |val| < bufferSize - 1 then |val| else bufferSize - 1;
        hide *;
        Store(buffer, 0, val[..copyLen] + [0]);
        ClippedIs(val, bufferSize, copyLen);
        found := copyLen + 1;
      }
    }

    /** `read_key_from_file`: the line loop, with the last line read even without its LF. */
    method ReadKey(key: seq<byte>, buffer: array<byte>, bufferSize: nat) returns (found: int)
      requires ValidKey(key) && 0 < bufferSize <= buffer.Length
      modifies buffer
      ensures found == match Lookup(Text(), key) case None => 0 case Some(v) => |Clipped(v, bufferSize)| + 1
      ensures buffer[..] == Splice(old(buffer[..]), 0,
        match Lookup(Text(), key) case None => [0] case Some(v) => Clipped(v, bufferSize) + [0])
    {
      hide Matches, Value, Clipped, Splice;
      if !mounted || !exists_ {
        ScanStart(key);
        Store(buffer, 0, [0]);
        return 0;
      }
      var line := new byte[323];
      var linePos, pos := 0, 0;
      found := 0;
      ghost var was := buffer[..];
      while pos < |content|
        invariant 0 <= pos <= |content| && 0 <= linePos <= 322 && buffer[..] == was
        invariant Scan(content[pos..], line[..linePos], key) == Lookup(content, key)
        decreases |content| - pos
      {
        var ch := content[pos];
        ScanNext(content, pos, line[..linePos], key);
        hide Scan, Lookup;
        pos := pos + 1;
        if ch == 10 || ch == 13 {
          if linePos > 0 {
            found := TakeLine(line, linePos, key, buffer, bufferSize);
            if found > 0 {
              return;
            }
            linePos := 0;
          } else {
            NothingMatchesNothing(key);
          }
          assert line[..linePos] == [];
        } else if linePos < 322 {
          ghost var before := line[..linePos];
          line[linePos] := ch;
          linePos := linePos + 1;
          assert line[..linePos] == before + [ch];
        }
      }
      assert content[pos..] == [];
      ScanStop(line[..linePos], key);
      hide Scan, Lookup;
      if linePos > 0 {
        found := TakeLine(line, linePos, key, buffer, bufferSize);
        if found > 0 {
          return;
        }
      } else {
        NothingMatchesNothing(key);
      }
      Store(buffer, 0, [0]);
      return 0;
    }

    /**
     * `write_key_to_file`: builds the new text line by line in a buffer of the size computed up
     * front, then rewrites the file.
     */
    method WriteKey(key: seq<byte>, value: seq<byte>) returns (rc: int)
      requires NulFree(key) && NulFree(value)
      modifies this
      ensures mounted == old(mounted)
      ensures rc == if mounted then 0 else -1
      ensures Text() == if mounted then Saved(old(Text()), key, value) else old(Text())
      ensures !mounted ==> content == old(content) && exists_ == old(exists_)
    {
      if !mounted {
        return -1;
      }
      var fileSize, existing := 0, [];
      if exists_ {
        fileSize := |content|;
        if 0 < fileSize <= 65536 {
          existing := CStr(content);
        }
      }
      if |content| == 0 { assert CStr(content) == []; }
      assert Saved(Text(), key, value) == Update(existing, key, value, false);
      UpdateFits(existing, key, value, false);
      var newSize := fileSize + |key| + 1 + |value| + 2 + 1;
      var newContent := new byte[newSize];
      newContent[0] := 0;
      var built := BuildLines(existing, key, value, newContent);
      exists_ := true;
      content := CStr(newContent[..]);
      return 0;
    }

    /** The loop over the existing lines, and the entry that goes at the end if none was replaced. */
    static method BuildLines(existing: seq<byte>, key: seq<byte>, value: seq<byte>, newContent: array<byte>)
      returns (len: nat)
      requires NulFree(existing) && NulFree(key) && NulFree(value)
      requires |Update(existing, key, value, false)| < newContent.Length && newContent[0] == 0
      modifies newContent
      ensures CStr(newContent[..]) == Update(existing, key, value, false)
    {
      ghost var goal := Update(existing, key, value, false);
      var replaced, lineStart := false, 0;
      len := 0;
      assert existing[0..] == existing;
      assert Building(newContent[..], len, existing, lineStart, key, value, replaced, goal);
      hide *;
      while lineStart < |existing|
        invariant 0 <= lineStart <= |existing|
        invariant Building(newContent[..], len, existing, lineStart, key, value, replaced, goal)
        decreases |existing| - lineStart
      {
        var lineEnd := FindLineEnd(existing, lineStart);
        var lineLen := lineEnd - lineStart;
        var atEof := lineEnd == |existing|;
        var next := if atEof then |existing| else lineEnd + 1;
        var hit := !replaced && lineLen >= |key| + 1 && StartsWithKey(existing[lineStart..lineEnd], key);
        var piece := if hit then Entry(key, value) else existing[lineStart..next];
        ghost var b := newContent[..];
        BuildRound(b, len, existing, lineStart, lineEnd, next, key, value, replaced, hit, piece, goal);
        var len' := StrCat(newContent, len, piece);
        BuildNext(b, newContent[..], len, len', piece, existing, next, key, value, replaced || hit, goal);
        len := len';
        replaced := replaced || hit;
        lineStart := next;
      }
      BuildEnd(newContent[..], len, existing, lineStart, key, value, replaced, goal);
      if !replaced {
        ghost var b := newContent[..];
        var len' := StrCat(newContent, len, Entry(key, value));
        Built(newContent[..], len', goal);
        len := len';
      } else {
        Built(newContent[..], len, goal);
      }
    }

    static method FindLineEnd(text: seq<byte>, from: nat) returns (end: nat)
      requires from <= |text|
      ensures end == from + LineEnd(text[from..])
    {
      end := from;
      while end < |text| && text[end] != 10
        invariant from <= end <= |text|
        invariant end + LineEnd(text[end..]) == from + LineEnd(text[from..])
      {
        assert text[end..][1..] == text[end + 1..];
        end := end + 1;
      }
    }

    /** `strcat` behind the `len` bytes that are there. */
    static method StrCat(a: array<byte>, len: nat, s: seq<byte>) returns (len': nat)
      requires len + |s| < a.Length && a[..][len] == 0 && NulFree(s)
      modifies a
      ensures len' == len + |s| && |a[..]| == |old(a[..])|
      ensures a[..][..len'] == old(a[..])[..len] + s && a[..][len'] == 0
    {
      Store(a, len, s + [0]);
      len' := len + |s|;
    }
  }

  /** The text built so far, and what is still to be built from the lines at `from`. */
  ghost predicate Building(a: seq<byte>, len: nat, text: seq<byte>, from: nat, key: seq<byte>, value: seq<byte>,
                           replaced: bool, goal: seq<byte>) {
    len <= |goal| < |a| && from <= |text| && a[len] == 0 && NulFree(a[..len]) &&
    NulFree(text) && NulFree(key) && NulFree(value) &&
    a[..len] + Update(text[from..], key, value, replaced) == goal
  }

  lemma BuildRound(a: seq<byte>, len: nat, text: seq<byte>, from: nat, end: nat, next: nat,
                   key: seq<byte>, value: seq<byte>, replaced: bool, hit: bool, piece: seq<byte>, goal: seq<byte>)
    requires Building(a, len, text, from, key, value, replaced, goal) && from < |text|
    requires end == from + LineEnd(text[from..]) && next == (if end == |text| then |text| else end + 1)
    requires hit <==> !replaced && end - from >= |key| + 1 && StartsWithKey(text[from..end], key)
    requires piece == if hit then Entry(key, value) else text[from..next]
    ensures from < next <= |text| && len + |piece| <= |goal| < |a| && a[len] == 0 && NulFree(piece)
    ensures a[..len] + (piece + Update(text[next..], key, value, replaced || hit)) == goal
  {
    hide Update, LineEnd;
    UpdateRound(text, from, end, key, value, replaced);
    assert |goal| == len + |piece| + |Update(text[next..], key, value, replaced || hit)|;
  }

  lemma BuildNext(a: seq<byte>, a': seq<byte>, len: nat, len': nat, piece: seq<byte>, text: seq<byte>, next: nat,
                  key: seq<byte>, value: seq<byte>, replaced: bool, goal: seq<byte>)
    requires len' == len + |piece| <= |goal| < |a'| == |a| && next <= |text|
    requires NulFree(text) && NulFree(key) && NulFree(value) && NulFree(piece) && NulFree(a[..len])
    requires a'[..len'] == a[..len] + piece && a'[len'] == 0
    requires a[..len] + (piece + Update(text[next..], key, value, replaced)) == goal
    ensures Building(a', len', text, next, key, value, replaced, goal)
  {
    hide Update;
    Assoc(a[..len], piece, Update(text[next..], key, value, replaced));
  }

  lemma BuildEnd(a: seq<byte>, len: nat, text: seq<byte>, from: nat, key: seq<byte>, value: seq<byte>,
                 replaced: bool, goal: seq<byte>)
    requires Building(a, len, text, from, key, value, replaced, goal) && from == |text|
    ensures len < |a| && a[len] == 0 && NulFree(a[..len]) && NulFree(Entry(key, value))
    ensures goal == a[..len] + if replaced then [] else Entry(key, value)
    ensures len + (if replaced then 0 else |Entry(key, value)|) < |a|
  {
    assert text[from..] == [];
  }

  lemma Built(a: seq<byte>, len: nat, goal: seq<byte>)
    requires len < |a| && a[len] == 0 && a[..len] == goal && NulFree(goal)
    ensures CStr(a) == goal
  {
    CStrIs(a, goal);
  }

  /** As much of a value as fits a buffer of `size` bytes together with its NUL. */
  function Clipped(value: seq<byte>, size: nat): (v: seq<byte>)
    requires size > 0
    ensures |v| < size
  {
    Cut(value, size - 1)
  }

  lemma {:induction false} CStrEnded(s: seq<byte>, rest: seq<byte>)
    ensures CStr(s + [0] + rest) == CStr(s)
  {
    if s != [] {
      assert (s + [0] + rest)[1..] == s[1..] + [0] + rest;
      CStrEnded(s[1..], rest);
    }
  }

  lemma ValueOfLine(line: seq<byte>, linePos: nat, key: seq<byte>)
    requires linePos < |line| && line[linePos] == 0 && StartsWithKey(line[..linePos], key)
    ensures CStr(line[|key| + 1..]) == Value(line[..linePos], key)
  {
    var n := |key| + 1;
    assert line[n..] == line[..linePos][n..] + [0] + line[linePos + 1..];
    CStrEnded(line[..linePos][n..], line[linePos + 1..]);
  }

  lemma LineTest(line: seq<byte>, linePos: nat, key: seq<byte>)
    requires linePos < |line|
    ensures Matches(line[..linePos], key) <==>
      linePos > 0 && line[0] != 35 && linePos >= |key| + 1 && line[..|key|] == key && line[|key|] == 61
  {
    if linePos >= |key| + 1 {
      assert line[..linePos][..|key|] == line[..|key|];
    }
  }

  lemma ClippedIs(value: seq<byte>, size: nat, n: nat)
    requires size > 0 && n == if |value| < size - 1 then |value| else size - 1
    ensures value[..n] == Clipped(value, size)
  {}

  lemma NothingMatchesNothing(key: seq<byte>)
    ensures !Matches([], key)
  {}

  lemma ScanStart(key: seq<byte>)
    ensures Lookup([], key) == None
  {}

  lemma ScanStop(line: seq<byte>, key: seq<byte>)
    ensures Scan([], line, key) == if Matches(line, key) then Some(Value(line, key)) else None
  {}

  lemma ScanNext(text: seq<byte>, pos: nat, line: seq<byte>, key: seq<byte>)
    requires pos < |text|
    ensures Scan(text[pos..], line, key) ==
      if text[pos] == 10 || text[pos] == 13 then
        (if Matches(line, key) then Some(Value(line, key)) else Scan(text[pos + 1..], [], key))
      else Scan(text[pos + 1..], Push(line, text[pos]), key)
  {
    assert text[pos..][1..] == text[pos + 1..];
  }

  lemma UpdateRound(text: seq<byte>, from: nat, end: nat, key: seq<byte>, value: seq<byte>, replaced: bool)
    requires from < |text| && end == from + LineEnd(text[from..])
    ensures end <= |text|
    ensures var hit := !replaced && StartsWithKey(text[from..end], key);
      var next := if end == |text| then |text| else end + 1;
      Update(text[from..], key, value, replaced) ==
        (if hit then Entry(key, value) else text[from..next]) + Update(text[next..], key, value, replaced || hit)
  {
    hide LineEnd, Entry, StartsWithKey;
    var rest, n := text[from..], LineEnd(text[from..]);
    assert rest[..n] == text[from..end];
    if n == |rest| {
      assert text[end..] == [] && text[from..end] == rest;
    } else {
      assert rest[n + 1..] == text[end + 1..];
      assert rest[..n + 1] == text[from..end + 1];
    }
  }
}
