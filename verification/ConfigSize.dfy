/**
 * How large the settings file can get: with a fixed set of keys a small file stays small, so that
 * no save finds a file that is too large to be read.
 */
module ConfigSize {
  import opened Memory
  import opened Wrappers
  import opened ConfigText

  /** How many bytes the lines of a key take, each with its LF. */
  function KeyLength(lines: seq<seq<byte>>, key: seq<byte>): nat {
    if lines == [] then 0
    else (if StartsWithKey(lines[0], key) then |lines[0]| + 1 else 0) + KeyLength(lines[1..], key)
  }

  /** By how much the lines of these keys may still grow: a valid line has at most 323 bytes. */
  function Growth(lines: seq<seq<byte>>, keys: seq<seq<byte>>): (n: nat)
    ensures n <= 323 * |keys|
  {
    if keys == [] then 0
    else
      var n := KeyLength(lines, keys[0]);
      (if n < 323 then 323 - n else 0) + Growth(lines, keys[1..])
  }

  ghost predicate Distinct(keys: seq<seq<byte>>) {
    forall i, j :: 0 <= i < j < |keys| ==> keys[i] != keys[j]
  }

  ghost predicate ValidKeys(keys: seq<seq<byte>>) {
    Distinct(keys) && forall i :: 0 <= i < |keys| ==> ValidKey(keys[i])
  }

  ghost predicate OneLineEach(lines: seq<seq<byte>>, keys: seq<seq<byte>>) {
    forall i :: 0 <= i < |keys| ==> CountKey(lines, keys[i]) <= 1
  }

  /** Whatever is saved for these keys, the file will not become larger than `limit`. */
  ghost predicate Bounded(file: seq<byte>, keys: seq<seq<byte>>, limit: nat) {
    Terminated(file) && OneLineEach(Lines(file), keys) && |file| + Growth(Lines(file), keys) <= limit
  }

  lemma {:induction false} PutLength(lines: seq<seq<byte>>, key: seq<byte>, value: seq<byte>)
    requires CountKey(lines, key) <= 1
    ensures |Unlines(Put(lines, key, value))| + KeyLength(lines, key) == |Unlines(lines)| + |Entry(key, value)|
    ensures KeyLength(Put(lines, key, value), key) == |Entry(key, value)|
  {
    var line := key + [61] + value;
    assert StartsWithKey(line, key) && |line| + 1 == |Entry(key, value)|;
    hide StartsWithKey;
    if lines == [] {
      assert Put(lines, key, value)[1..] == [];
    } else if StartsWithKey(lines[0], key) {
      assert Put(lines, key, value)[1..] == lines[1..];
      NoKeyNoLength(lines[1..], key);
    } else {
      PutLength(lines[1..], key, value);
      assert Put(lines, key, value)[1..] == Put(lines[1..], key, value);
    }
  }

  lemma {:induction false} NoKeyNoLength(lines: seq<seq<byte>>, key: seq<byte>)
    requires CountKey(lines, key) == 0
    ensures KeyLength(lines, key) == 0
  {
    if lines != [] {
      NoKeyNoLength(lines[1..], key);
    }
  }

  lemma {:induction false} PutLengthOther(lines: seq<seq<byte>>, key: seq<byte>, value: seq<byte>, key': seq<byte>)
    requires ValidKey(key) && ValidKey(key') && key' != key
    ensures KeyLength(Put(lines, key, value), key') == KeyLength(lines, key')
  {
    var line := key + [61] + value;
    assert StartsWithKey(line, key);
    NotBoth(line, key, key');
    hide StartsWithKey, ValidKey;
    if lines == [] {
      assert Put(lines, key, value)[1..] == [];
    } else if StartsWithKey(lines[0], key) {
      NotBoth(lines[0], key, key');
      assert Put(lines, key, value)[1..] == lines[1..];
    } else {
      PutLengthOther(lines[1..], key, value, key');
      assert Put(lines, key, value)[1..] == Put(lines[1..], key, value);
    }
  }

  lemma NotBoth(line: seq<byte>, key: seq<byte>, key': seq<byte>)
    requires ValidKey(key) && ValidKey(key') && key' != key && StartsWithKey(line, key)
    ensures !StartsWithKey(line, key')
  {
    if StartsWithKey(line, key') {
      OneKeyPerLine(line, key, key');
    }
  }

  lemma {:induction false} GrowthElsewhere(lines: seq<seq<byte>>, key: seq<byte>, value: seq<byte>, keys: seq<seq<byte>>)
    requires ValidKey(key) && ValidKeys(keys) && key !in keys
    ensures Growth(Put(lines, key, value), keys) == Growth(lines, keys)
  {
    hide KeyLength, Put, ValidKey;
    if keys != [] {
      PutLengthOther(lines, key, value, keys[0]);
      GrowthElsewhere(lines, key, value, keys[1..]);
    }
  }

  /** What a save adds to the file it takes from the growth that is left. */
  lemma {:induction false} GrowthUsed(lines: seq<seq<byte>>, key: seq<byte>, value: seq<byte>, keys: seq<seq<byte>>)
    requires ValidKeys(keys) && key in keys && ValidValue(key, value) && CountKey(lines, key) <= 1
    ensures |Unlines(Put(lines, key, value))| + Growth(Put(lines, key, value), keys) <=
      |Unlines(lines)| + Growth(lines, keys)
  {
    hide KeyLength, Put, ValidKey, Unlines, CountKey;
    if keys[0] == key {
      assert key !in keys[1..];
      PutLength(lines, key, value);
      GrowthElsewhere(lines, key, value, keys[1..]);
    } else {
      assert key in keys[1..];
      PutLengthOther(lines, key, value, keys[0]);
      GrowthUsed(lines, key, value, keys[1..]);
    }
  }

  /** A save of one of the keys keeps the bound. */
  lemma SavedBounded(file: seq<byte>, key: seq<byte>, value: seq<byte>, keys: seq<seq<byte>>, limit: nat)
    requires Bounded(file, keys, limit) && limit <= 65536
    requires ValidKeys(keys) && key in keys && ValidValue(key, value)
    ensures Bounded(Saved(file, key, value), keys, limit)
  {
    hide Terminated, ValidKey, ValidValue, CountKey, Lines, Saved, Growth, Others;
    var lines := Lines(file);
    forall i | 0 <= i < |keys| ensures CountKey(Lines(Saved(file, key, value)), keys[i]) <= 1 {
      SaveThenLoad(file, key, value, keys[i]);
    }
    SaveThenLoad(file, key, value, key);
    LinesOfSaved(file, key, value);
    GrowthUsed(lines, key, value, keys);
  }

  lemma LinesOfSaved(file: seq<byte>, key: seq<byte>, value: seq<byte>)
    requires Terminated(file) && |file| <= 65536 && ValidKey(key) && ValidValue(key, value)
    ensures Lines(Saved(file, key, value)) == Put(Lines(file), key, value)
    ensures |Saved(file, key, value)| == |Unlines(Put(Lines(file), key, value))| && |file| == |Unlines(Lines(file))|
  {
    hide *;
    TerminatedParts(file);
    SavedText(file, key, value);
    SavedTerminated(file, key, value);
    PutKeepsOthers(Lines(file), key, value, key);
    UnlinesParts(Put(Lines(file), key, value), []);
    NoTail(Put(Lines(file), key, value));
    NoTail(Lines(file));
  }

  /** So a file that is small to begin with stays small in every run of saves of the keys. */
  lemma {:induction false} RunStaysSmall(file: seq<byte>, saves: seq<Save>, keys: seq<seq<byte>>)
    requires Bounded(file, keys, 65536) && ValidKeys(keys) && AllValid(saves)
    requires forall k :: 0 <= k < |saves| ==> saves[k].key in keys
    ensures StaysSmall(file, saves) && Bounded(AfterSaves(file, saves), keys, 65536)
    decreases |saves|
  {
    hide Terminated, ValidKey, ValidValue, Saved, Growth, OneLineEach;
    if saves != [] {
      SavedBounded(file, saves[0].key, saves[0].value, keys, 65536);
      RunStaysSmall(Saved(file, saves[0].key, saves[0].value), saves[1..], keys);
    }
  }

  lemma SmallIsBounded(file: seq<byte>, keys: seq<seq<byte>>)
    requires Terminated(file) && OneLineEach(Lines(file), keys) && |file| + 323 * |keys| <= 65536
    ensures Bounded(file, keys, 65536)
  {
    hide Terminated, OneLineEach;
  }
}
