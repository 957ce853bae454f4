/**
 * The settings store of cores/arduino/config/DeviceConfig.cpp: profiles map each setting to
 * secure-element zones or to the settings file.
 */
module DeviceConfig {
  import opened Memory
  import opened Wrappers
  import opened SecureElement
  import opened EEPROMInterface
  import CT = ConfigText
  import CF = ConfigFile
  import CS = ConfigSize

  // --- The profile table ---------------------------------------------------------------------------

  /**
   * Three zone numbers and their sizes. Zone 255 marks an unused entry, zone 254 a setting that
   * is kept in the file.
   */
  datatype ZoneMapping = ZoneMapping(z0: int, z1: int, z2: int, s0: nat, s1: nat, s2: nat) {
    function Zone(i: nat): int {
      if i == 0 then z0 else if i == 1 then z1 else z2
    }

    function Size(i: nat): nat {
      if i == 0 then s0 else if i == 1 then s1 else s2
    }
  }

  /** The zone sizes as the profile table's own header gives them. */
  function TableSize(zone: int): nat {
    match zone
    case 0 => 976
    case 2 => 192
    case 3 => 120
    case 5 => 584
    case 6 => 680
    case 7 => 784
    case 8 => 880
    case 10 => 88
    case _ => 0
  }

  function Unused(): ZoneMapping {
    ZoneMapping(255, 255, 255, 0, 0, 0)
  }

  function Zone(z: int): ZoneMapping {
    ZoneMapping(z, 255, 255, TableSize(z), 0, 0)
  }

  function Zone2(z1: int, z2: int): ZoneMapping {
    ZoneMapping(z1, z2, 255, TableSize(z1), TableSize(z2), 0)
  }

  function Zone3(z1: int, z2: int, z3: int): ZoneMapping {
    ZoneMapping(z1, z2, z3, TableSize(z1), TableSize(z2), TableSize(z3))
  }

  function FileZone(size: nat): ZoneMapping {
    ZoneMapping(254, 255, 255, size, 0, 0)
  }

  /** Profiles 0 to 8, settings 0 to 16, in the order of the source's enumerations. */
  function Mapping(profile: int, setting: int): ZoneMapping {
    if profile == 0 then Unused()
    else match setting
      case 0 => Zone(3)
      case 1 => Zone(10)
      case 2 => (if profile == 1 || profile == 2 then Zone(5) else if profile == 3 then Zone(2) else Unused())
      case 3 => (if profile == 1 then Zone(6) else if profile == 2 then Zone(2) else Unused())
      case 4 => (if profile == 1 then Zone(7) else if profile == 2 then Zone(6) else Unused())
      case 5 => (if profile == 2 then Zone3(0, 7, 8) else if profile == 3 then Zone2(5, 0) else Unused())
      case 6 => (if profile == 3 then Zone2(6, 7) else Unused())
      case 7 => (if profile == 3 then Zone(8) else Unused())
      case 8 => (if profile == 4 || profile == 5 then Zone(5) else Unused())
      case 9 => (if profile == 6 || profile == 8 then Zone(5) else if profile == 7 then Zone(2) else Unused())
      case 10 => (if profile == 6 || profile == 8 then Zone(2) else if profile == 7 then Zone(5) else Unused())
      case 11 => (if 6 <= profile <= 8 then Zone(6) else Unused())
      case 12 => (if profile == 6 || profile == 8 then Zone(7) else Unused())
      case 13 => (if profile == 5 || profile == 7 then Zone3(0, 7, 8) else Unused())
      case 14 => FileZone(16)
      case 15 => (if 1 <= profile <= 3 then FileZone(256) else Unused())
      case 16 => (if 1 <= profile <= 3 then FileZone(256) else Unused())
      case _ => Unused()
  }

  /** Which setting of a profile a zone belongs to. */
  function Owner(profile: int, zone: int): int {
    match zone
    case 3 => 0
    case 10 => 1
    case 5 => (if profile <= 2 then 2 else if profile == 3 then 5 else if profile <= 5 then 8
               else if profile == 7 then 10 else 9)
    case 2 => (if profile == 2 then 3 else if profile == 3 then 2 else if profile == 7 then 9 else 10)
    case 6 => (if profile == 1 then 3 else if profile == 2 then 4 else if profile == 3 then 6 else 11)
    case 7 => (if profile == 1 then 4 else if profile == 2 then 5 else if profile == 3 then 6
               else if profile == 5 || profile == 7 then 13 else 12)
    case 8 => (if profile == 2 then 5 else if profile == 3 then 7 else 13)
    case 0 => (if profile == 2 || profile == 3 then 5 else 13)
    case _ => -1
  }

  predicate InZones(m: ZoneMapping) {
    m.z0 != 255 && m.z0 != 254
  }

  /** How many of the three entries are used: those before the first 255. */
  function Used(m: ZoneMapping): (n: nat) {
    if m.z0 == 255 then 0 else if m.z1 == 255 then 1 else if m.z2 == 255 then 2 else 3
  }

  /** The used entries are different zones of the secure element with their real sizes. */
  predicate WellMapped(m: ZoneMapping) {
    (forall i :: 0 <= i < Used(m) ==> m.Size(i) == ZoneSize(m.Zone(i)) != 0) &&
    (forall i, j :: 0 <= i < j < Used(m) ==> m.Zone(i) != m.Zone(j))
  }

  predicate OwnedBy(profile: int, m: ZoneMapping, setting: int) {
    forall i :: 0 <= i < Used(m) ==> Owner(profile, m.Zone(i)) == setting
  }

  predicate Sound(profile: int, m: ZoneMapping, setting: int) {
    WellMapped(m) && OwnedBy(profile, m, setting)
  }

  lemma ZoneSound(profile: int, z: int, setting: int)
    requires ZoneSize(z) != 0 && Owner(profile, z) == setting
    ensures Sound(profile, Zone(z), setting)
  {
    hide Owner;
  }

  lemma Zone2Sound(profile: int, z1: int, z2: int, setting: int)
    requires ZoneSize(z1) != 0 && ZoneSize(z2) != 0 && z1 != z2
    requires Owner(profile, z1) == setting && Owner(profile, z2) == setting
    ensures Sound(profile, Zone2(z1, z2), setting)
  {
    hide Owner;
  }

  lemma Zone3Sound(profile: int, z1: int, z2: int, z3: int, setting: int)
    requires ZoneSize(z1) != 0 && ZoneSize(z2) != 0 && ZoneSize(z3) != 0 && z1 != z2 && z2 != z3 && z1 != z3
    requires Owner(profile, z1) == setting && Owner(profile, z2) == setting && Owner(profile, z3) == setting
    ensures Sound(profile, Zone3(z1, z2, z3), setting)
  {
    hide Owner;
  }

  /** No two settings of a profile share a zone, and every zone is mapped with its real size. */
  lemma TableIsSound(profile: int, setting: int)
    requires 0 <= profile <= 8 && InZones(Mapping(profile, setting))
    ensures Sound(profile, Mapping(profile, setting), setting)
  {
    hide Sound, TableSize;
    match setting
    case 5 =>
      if profile == 2 {
        Zone3Sound(profile, 0, 7, 8, setting);
      } else {
        Zone2Sound(profile, 5, 0, setting);
      }
    case 6 => Zone2Sound(profile, 6, 7, setting);
    case 13 => Zone3Sound(profile, 0, 7, 8, setting);
    case _ => ZoneSound(profile, Mapping(profile, setting).z0, setting);
  }

  /** The settings that a profile offers, with the bytes that each can hold. */
  function Capacities(profile: int): map<int, nat> {
    match profile
    case 1 => map[0 := 120, 1 := 88, 2 := 584, 3 := 680, 4 := 784, 14 := 16, 15 := 256, 16 := 256]
    case 2 => map[0 := 120, 1 := 88, 2 := 584, 3 := 192, 4 := 680, 5 := 2640, 14 := 16, 15 := 256, 16 := 256]
    case 3 => map[0 := 120, 1 := 88, 2 := 192, 5 := 1560, 6 := 1464, 7 := 880, 14 := 16, 15 := 256, 16 := 256]
    case 4 => map[0 := 120, 1 := 88, 8 := 584, 14 := 16]
    case 5 => map[0 := 120, 1 := 88, 8 := 584, 13 := 2640, 14 := 16]
    case 6 => map[0 := 120, 1 := 88, 9 := 584, 10 := 192, 11 := 680, 12 := 784, 14 := 16]
    case 7 => map[0 := 120, 1 := 88, 9 := 192, 10 := 584, 11 := 680, 13 := 2640, 14 := 16]
    case 8 => map[0 := 120, 1 := 88, 9 := 584, 10 := 192, 11 := 680, 12 := 784, 14 := 16]
    case _ => map[]
  }

  lemma CapacitiesAre(profile: int, setting: int)
    requires 0 <= profile <= 8
    ensures var m := Mapping(profile, setting);
      (setting in Capacities(profile) <==> m.z0 != 255) &&
      (setting in Capacities(profile) ==> Capacities(profile)[setting] == m.s0 + m.s1 + m.s2) &&
      (InFile(m) <==> setting in Capacities(profile) && 14 <= setting <= 16)
  {}

  // --- Zones as one string of bytes ------------------------------------------------------------

  type Zones = map<int, seq<byte>>

  ghost predicate AllZones(flat: Zones) {
    forall z :: ZoneSize(z) != 0 ==> z in flat && |flat[z]| == ZoneSize(z)
  }

  /** The bytes of a setting from its entry `i` on. */
  ghost function Bytes(flat: Zones, m: ZoneMapping, i: nat): seq<byte>
    requires WellMapped(m) && i <= Used(m) && AllZones(flat)
    decreases 3 - i
  {
    if i == Used(m) then [] else flat[m.Zone(i)] + Bytes(flat, m, i + 1)
  }

  /** `data` written over the entries from `i` on. */
  ghost function Written(flat: Zones, m: ZoneMapping, i: nat, data: seq<byte>): (flat': Zones)
    requires WellMapped(m) && i <= Used(m) && AllZones(flat)
    ensures AllZones(flat')
    decreases 3 - i
  {
    if i == Used(m) || data == [] then flat
    else
      var z := m.Zone(i);
      var k := if |data| > m.Size(i) then m.Size(i) else |data|;
      Written(flat[z := Splice(flat[z], 0, data[..k])], m, i + 1, data[k..])
  }

  function MaxLen(m: ZoneMapping, i: nat): nat
    requires WellMapped(m) && i <= Used(m)
    decreases 3 - i
  {
    if i == Used(m) then 0 else m.Size(i) + MaxLen(m, i + 1)
  }

  lemma {:induction false} BytesLength(flat: Zones, m: ZoneMapping, i: nat)
    requires WellMapped(m) && i <= Used(m) && AllZones(flat)
    ensures |Bytes(flat, m, i)| == MaxLen(m, i)
    decreases 3 - i
  {
    if i < Used(m) {
      BytesLength(flat, m, i + 1);
    }
  }

  /** A write leaves every zone alone that it is not mapped to. */
  lemma {:induction false} WrittenElsewhere(flat: Zones, m: ZoneMapping, i: nat, data: seq<byte>, z: int)
    requires WellMapped(m) && i <= Used(m) && AllZones(flat) && ZoneSize(z) != 0
    requires forall j :: i <= j < Used(m) ==> m.Zone(j) != z
    ensures Written(flat, m, i, data)[z] == flat[z]
    decreases 3 - i
  {
    if i < Used(m) && data != [] {
      var y := m.Zone(i);
      var k := if |data| > m.Size(i) then m.Size(i) else |data|;
      WrittenElsewhere(flat[y := Splice(flat[y], 0, data[..k])], m, i + 1, data[k..], z);
    }
  }

  lemma {:induction false} BytesSame(flat: Zones, flat': Zones, m: ZoneMapping, i: nat)
    requires WellMapped(m) && i <= Used(m) && AllZones(flat) && AllZones(flat')
    requires forall j :: i <= j < Used(m) ==> flat'[m.Zone(j)] == flat[m.Zone(j)]
    ensures Bytes(flat', m, i) == Bytes(flat, m, i)
    decreases 3 - i
  {
    if i < Used(m) {
      BytesSame(flat, flat', m, i + 1);
    }
  }

  /** A write replaces the first bytes of the setting, whatever zones they are spread over. */
  lemma {:induction false} WrittenBytes(flat: Zones, m: ZoneMapping, i: nat, data: seq<byte>)
    requires WellMapped(m) && i <= Used(m) && AllZones(flat) && |data| <= MaxLen(m, i)
    ensures |data| <= |Bytes(flat, m, i)|
    ensures Bytes(Written(flat, m, i, data), m, i) == Splice(Bytes(flat, m, i), 0, data)
    decreases 3 - i
  {
    BytesLength(flat, m, i);
    if i < Used(m) && data != [] {
      var z, k := m.Zone(i), if |data| > m.Size(i) then m.Size(i) else |data|;
      var head, tail := data[..k], data[k..];
      var mid := flat[z := Splice(flat[z], 0, head)];
      WrittenBytes(mid, m, i + 1, tail);
      BytesSame(flat, mid, m, i + 1);
      WrittenElsewhere(mid, m, i + 1, tail, z);
      hide Written, Bytes;
      SplicePair(flat[z], Bytes(flat, m, i + 1), head, tail, data);
      assert Bytes(flat, m, i) == flat[z] + Bytes(flat, m, i + 1) by { BytesStep(flat, m, i); }
      BytesStep(Written(flat, m, i, data), m, i);
      WrittenStep(flat, m, i, data, mid, tail);
    }
  }

  lemma BytesStep(flat: Zones, m: ZoneMapping, i: nat)
    requires WellMapped(m) && i < Used(m) && AllZones(flat)
    ensures Bytes(flat, m, i) == flat[m.Zone(i)] + Bytes(flat, m, i + 1)
  {}

  lemma WrittenStep(flat: Zones, m: ZoneMapping, i: nat, data: seq<byte>, mid: Zones, tail: seq<byte>)
    requires WellMapped(m) && i < Used(m) && AllZones(flat) && data != []
    requires var k := if |data| > m.Size(i) then m.Size(i) else |data|;
      mid == flat[m.Zone(i) := Splice(flat[m.Zone(i)], 0, data[..k])] && tail == data[k..]
    ensures Written(flat, m, i, data) == Written(mid, m, i + 1, tail)
  {}

  lemma SplicePair(a: seq<byte>, b: seq<byte>, head: seq<byte>, tail: seq<byte>, data: seq<byte>)
    requires data == head + tail && |head| <= |a| && |tail| <= |b| && (tail != [] ==> |head| == |a|)
    ensures Splice(a, 0, head) + Splice(b, 0, tail) == Splice(a + b, 0, data)
  {}

  // --- The store as a map from settings to strings ------------------------------------------------

  /** What the settings are kept in: the zones' bytes and the text of the file. */
  datatype Config = Config(flat: Zones, file: seq<byte>)

  predicate InFile(m: ZoneMapping) {
    m.z0 == 254
  }

  lemma FileSettings(profile: int, setting: int)
    requires InFile(Mapping(profile, setting))
    ensures CF.FileKey(setting).Some?
  {}

  lemma FileKeysDiffer(s: int, s': int)
    requires CF.FileKey(s).Some? && CF.FileKey(s') == CF.FileKey(s)
    ensures s == s'
  {}

  function Key(profile: int, setting: int): (key: seq<byte>)
    requires InFile(Mapping(profile, setting))
    ensures CT.ValidKey(key)
  {
    FileSettings(profile, setting);
    CF.FileKey(setting).value
  }

  /** The string that is stored for a setting, if any. */
  ghost function Value(profile: int, c: Config, setting: int): Option<seq<byte>>
    requires 0 <= profile <= 8 && AllZones(c.flat)
  {
    var m := Mapping(profile, setting);
    if InFile(m) then CT.Lookup(c.file, Key(profile, setting))
    else if !InZones(m) then None
    else ZoneValue(profile, c.flat, setting)
  }

  ghost function ZoneValue(profile: int, flat: Zones, setting: int): Option<seq<byte>>
    requires 0 <= profile <= 8 && AllZones(flat) && InZones(Mapping(profile, setting))
  {
    TableIsSound(profile, setting);
    Ended(Bytes(flat, Mapping(profile, setting), 0))
  }

  /** The C string in a block that holds a NUL. */
  function Ended(b: seq<byte>): Option<seq<byte>> {
    if NulFree(b) then None else Some(CStr(b))
  }

  /** Whether a save is accepted; values for the file are not checked. */
  predicate Accepts(profile: int, setting: int, value: seq<byte>)
    requires 0 <= profile <= 8
  {
    var m := Mapping(profile, setting);
    InFile(m) || (InZones(m) && (TableIsSound(profile, setting); |value| + 1 <= MaxLen(m, 0)))
  }

  ghost function Saved(profile: int, c: Config, setting: int, value: seq<byte>): (c': Config)
    requires 0 <= profile <= 8 && AllZones(c.flat)
    ensures AllZones(c'.flat)
  {
    var m := Mapping(profile, setting);
    if !Accepts(profile, setting, value) then c
    else if InFile(m) then c.(file := CT.Saved(c.file, Key(profile, setting), value))
    else TableIsSound(profile, setting); c.(flat := Written(c.flat, m, 0, value + [0]))
  }

  /** The conditions on the file and the value under which a setting in the file is saved well. */
  ghost predicate FileSaveOk(profile: int, c: Config, setting: int, value: seq<byte>) {
    CT.Terminated(c.file) &&
    (InFile(Mapping(profile, setting)) ==>
      |c.file| <= 65536 && CT.ValidValue(Key(profile, setting), value))
  }

  lemma SaveInZones(profile: int, flat: Zones, s: int, value: seq<byte>, s': int)
    requires 0 <= profile <= 8 && AllZones(flat) && NulFree(value)
    requires InZones(Mapping(profile, s)) && InZones(Mapping(profile, s')) && Accepts(profile, s, value)
    ensures Sound(profile, Mapping(profile, s), s)
    ensures ZoneValue(profile, Written(flat, Mapping(profile, s), 0, value + [0]), s') ==
      if s' == s then Some(value) else ZoneValue(profile, flat, s')
  {
    TableIsSound(profile, s);
    TableIsSound(profile, s');
    var m, m', data := Mapping(profile, s), Mapping(profile, s'), value + [0];
    hide Mapping, Owner, Written, Bytes;
    if s' == s {
      BytesLength(flat, m, 0);
      WrittenBytes(flat, m, 0, data);
      EndedSplice(Bytes(flat, m, 0), value);
    } else {
      forall j | 0 <= j < Used(m') ensures Written(flat, m, 0, data)[m'.Zone(j)] == flat[m'.Zone(j)] {
        WrittenElsewhere(flat, m, 0, data, m'.Zone(j));
      }
      BytesSame(flat, Written(flat, m, 0, data), m', 0);
    }
  }

  lemma EndedSplice(b: seq<byte>, value: seq<byte>)
    requires NulFree(value) && |value| < |b|
    ensures Ended(Splice(b, 0, value + [0])) == Some(value)
  {
    var b' := Splice(b, 0, value + [0]);
    assert b'[|value|] == 0 && b'[..|value|] == value;
    CStrIs(b', value);
  }

  lemma SaveInFileRefines(profile: int, c: Config, s: int, value: seq<byte>, s': int)
    requires 0 <= profile <= 8 && AllZones(c.flat) && InFile(Mapping(profile, s)) && FileSaveOk(profile, c, s, value)
    ensures var c' := c.(file := CT.Saved(c.file, Key(profile, s), value));
      CT.Terminated(c'.file) &&
      Value(profile, c', s') == if s' == s then Some(value) else Value(profile, c, s')
  {
    var key := Key(profile, s);
    if InFile(Mapping(profile, s')) {
      var key' := Key(profile, s');
      if key == key' {
        FileKeysDiffer(s, s');
      }
      hide *;
      OneFileSave(c.file, key, value, key');
      FileValue(profile, c, s');
      FileValue(profile, c.(file := CT.Saved(c.file, key, value)), s');
    } else {
      hide Mapping, CT.Saved;
      OneFileSave(c.file, key, value, key);
    }
  }

  lemma FileValue(profile: int, c: Config, s: int)
    requires 0 <= profile <= 8 && AllZones(c.flat) && InFile(Mapping(profile, s))
    ensures Value(profile, c, s) == CT.Lookup(c.file, Key(profile, s))
  {}

  lemma OneFileSave(file: seq<byte>, key: seq<byte>, value: seq<byte>, key': seq<byte>)
    requires CT.Terminated(file) && |file| <= 65536
    requires CT.ValidKey(key) && CT.ValidValue(key, value) && CT.ValidKey(key')
    ensures CT.Terminated(CT.Saved(file, key, value))
    ensures CT.Lookup(CT.Saved(file, key, value), key') ==
      if key' == key then Some(value) else CT.Lookup(file, key')
  {
    hide *;
    CT.SaveThenLoad(file, key, value, key');
  }

  lemma SaveInZonesRefines(profile: int, c: Config, s: int, value: seq<byte>, s': int)
    requires 0 <= profile <= 8 && AllZones(c.flat) && NulFree(value)
    requires InZones(Mapping(profile, s)) && Accepts(profile, s, value)
    ensures Saved(profile, c, s, value).file == c.file
    ensures Value(profile, Saved(profile, c, s, value), s') ==
      if s' == s then Some(value) else Value(profile, c, s')
  {
    hide Mapping, Written, Bytes, Accepts, ZoneValue;
    if InZones(Mapping(profile, s')) {
      SaveInZones(profile, c.flat, s, value, s');
    }
  }

  /** One save: the setting now has the value, no other setting is disturbed. */
  lemma SaveRefinesMap(profile: int, c: Config, s: int, value: seq<byte>, s': int)
    requires 0 <= profile <= 8 && AllZones(c.flat) && NulFree(value) && FileSaveOk(profile, c, s, value)
    ensures Value(profile, Saved(profile, c, s, value), s') ==
      if s' == s && Accepts(profile, s, value) then Some(value) else Value(profile, c, s')
    ensures CT.Terminated(Saved(profile, c, s, value).file)
  {
    if Accepts(profile, s, value) {
      if InFile(Mapping(profile, s)) {
        SaveInFileRefines(profile, c, s, value, s');
        hide Value, Mapping;
      } else {
        SaveInZonesRefines(profile, c, s, value, s');
        hide Value, Mapping;
      }
    } else {
      hide Value, Mapping;
    }
  }

  // --- Runs ---------------------------------------------------------------------------------------

  datatype SaveCall = SaveCall(setting: int, value: seq<byte>)

  ghost function AfterCalls(profile: int, c: Config, calls: seq<SaveCall>): (c': Config)
    requires 0 <= profile <= 8 && AllZones(c.flat)
    ensures AllZones(c'.flat)
    decreases |calls|
  {
    if calls == [] then c
    else AfterCalls(profile, Saved(profile, c, calls[0].setting, calls[0].value), calls[1..])
  }

  ghost predicate CallsOk(profile: int, c: Config, calls: seq<SaveCall>)
    requires 0 <= profile <= 8 && AllZones(c.flat)
    decreases |calls|
  {
    calls == [] ||
    (NulFree(calls[0].value) && FileSaveOk(profile, c, calls[0].setting, calls[0].value) &&
     CallsOk(profile, Saved(profile, c, calls[0].setting, calls[0].value), calls[1..]))
  }

  /** The value of the last accepted save of a setting, or `before`. */
  function LastAccepted(profile: int, calls: seq<SaveCall>, s: int, before: Option<seq<byte>>): Option<seq<byte>>
    requires 0 <= profile <= 8
    decreases |calls|
  {
    if calls == [] then before
    else
      var hit := calls[0].setting == s && Accepts(profile, s, calls[0].value);
      LastAccepted(profile, calls[1..], s, if hit then Some(calls[0].value) else before)
  }

  /** After any run of saves every setting has the value of the last save of it that was accepted. */
  lemma {:induction false} RunRefinesMap(profile: int, c: Config, calls: seq<SaveCall>, s: int)
    requires 0 <= profile <= 8 && AllZones(c.flat) && CallsOk(profile, c, calls)
    ensures Value(profile, AfterCalls(profile, c, calls), s) ==
      LastAccepted(profile, calls, s, Value(profile, c, s))
    decreases |calls|
  {
    hide Value, Saved, Accepts, FileSaveOk;
    if calls != [] {
      SaveRefinesMap(profile, c, calls[0].setting, calls[0].value, s);
      RunRefinesMap(profile, Saved(profile, c, calls[0].setting, calls[0].value), calls[1..], s);
    }
  }

  /** The keys of the three settings that are kept in the file. */
  function FileKeys(): seq<seq<byte>> {
    [CF.FileKey(14).value, CF.FileKey(15).value, CF.FileKey(16).value]
  }

  lemma FileKeysValid()
    ensures CS.ValidKeys(FileKeys()) && |FileKeys()| == 3
  {
    forall i, j | 0 <= i < j < 3 ensures FileKeys()[i] != FileKeys()[j] {
      if FileKeys()[i] == FileKeys()[j] {
        FileKeysDiffer(14 + i, 14 + j);
      }
    }
  }

  lemma KeyIsFileKey(profile: int, setting: int)
    requires InFile(Mapping(profile, setting))
    ensures Key(profile, setting) in FileKeys()
  {
    assert setting == 14 || setting == 15 || setting == 16;
    hide CF.FileKey;
    var keys := FileKeys();
    assert Key(profile, setting) == keys[setting - 14];
  }

  /** The values that a caller has to see to: no NUL and, for the file, no CR, LF or excess length. */
  ghost predicate CallsValid(profile: int, calls: seq<SaveCall>) {
    forall i :: 0 <= i < |calls| ==>
      NulFree(calls[i].value) &&
      (InFile(Mapping(profile, calls[i].setting)) ==>
        CT.ValidValue(Key(profile, calls[i].setting), calls[i].value))
  }

  /** In a run of such saves the file stays well formed, and small if it was small enough before. */
  lemma {:induction false} CallsStayOk(profile: int, c: Config, calls: seq<SaveCall>)
    requires 0 <= profile <= 8 && AllZones(c.flat) && CallsValid(profile, calls)
    requires CS.Bounded(c.file, FileKeys(), 65536)
    ensures CallsOk(profile, c, calls)
    decreases |calls|
  {
    if calls != [] {
      var call := calls[0];
      FirstCallOk(profile, c, call);
      hide Saved, FileSaveOk, CS.Bounded, Mapping, Key, FileKeys;
      CallsStayOk(profile, Saved(profile, c, call.setting, call.value), calls[1..]);
    }
  }

  lemma FirstCallOk(profile: int, c: Config, call: SaveCall)
    requires 0 <= profile <= 8 && AllZones(c.flat) && NulFree(call.value)
    requires InFile(Mapping(profile, call.setting)) ==> CT.ValidValue(Key(profile, call.setting), call.value)
    requires CS.Bounded(c.file, FileKeys(), 65536)
    ensures FileSaveOk(profile, c, call.setting, call.value)
    ensures CS.Bounded(Saved(profile, c, call.setting, call.value).file, FileKeys(), 65536)
  {
    hide CS.Growth, CS.OneLineEach, Mapping, FileKeys, CT.ValidValue;
    if InFile(Mapping(profile, call.setting)) {
      FileKeysValid();
      KeyIsFileKey(profile, call.setting);
      hide CS.Bounded, CT.Saved, CF.FileKey;
      CS.SavedBounded(c.file, Key(profile, call.setting), call.value, FileKeys(), 65536);
    }
  }

  /**
   * The same from conditions on the first file and the values alone: it is empty or ends with LF,
   * has no CR or NUL, at most one line for each of the three keys, and room for three lines.
   */
  lemma ValidRunRefinesMap(profile: int, c: Config, calls: seq<SaveCall>, s: int)
    requires 0 <= profile <= 8 && AllZones(c.flat) && CallsValid(profile, calls)
    requires CT.Terminated(c.file) && CS.OneLineEach(CT.Lines(c.file), FileKeys()) && |c.file| + 969 <= 65536
    ensures Value(profile, AfterCalls(profile, c, calls), s) ==
      LastAccepted(profile, calls, s, Value(profile, c, s))
  {
    FileKeysValid();
    hide Value, CS.Bounded, CallsOk, CallsValid, FileKeys;
    CS.SmallIsBounded(c.file, FileKeys());
    CallsStayOk(profile, c, calls);
    RunRefinesMap(profile, c, calls, s);
  }

  /**
   * What reading a setting in the file returns after any such run: the length of the last value
   * accepted, cut to the buffer, and of its NUL, or 0 if there was none.
   */
  lemma RunReadsLength(profile: int, c: Config, calls: seq<SaveCall>, s: int, n: nat)
    requires 0 <= profile <= 8 && AllZones(c.flat) && CallsOk(profile, c, calls) && InFile(Mapping(profile, s)) && n > 0
    ensures Length(profile, AfterCalls(profile, c, calls), s, n) ==
      match LastAccepted(profile, calls, s, CT.Lookup(c.file, Key(profile, s)))
      case None => 0
      case Some(v) => (if |v| < n then |v| else n - 1) + 1
  {
    RunRefinesMap(profile, c, calls, s);
    hide AfterCalls, CallsOk, LastAccepted, CT.Lookup;
  }

  // --- Damaged zones --------------------------------------------------------------------------------

  /** Where the bytes of entry `i` begin in the setting, and how many of its first `n` bytes the entry has. */
  function Start(m: ZoneMapping, i: nat): nat {
    if i == 0 then 0 else if i == 1 then m.s0 else if i == 2 then m.s0 + m.s1 else m.s0 + m.s1 + m.s2
  }

  function Share(m: ZoneMapping, i: nat, n: nat): nat {
    if n <= Start(m, i) then 0 else if n - Start(m, i) > m.Size(i) then m.Size(i) else n - Start(m, i)
  }

  function Portion(m: ZoneMapping, i: nat, data: seq<byte>): (p: seq<byte>)
    ensures |p| == Share(m, i, |data|)
  {
    if |data| <= Start(m, i) then [] else data[Start(m, i)..][..Share(m, i, |data|)]
  }

  /** The first `n` bytes of a zone can be read. */
  ghost predicate Intact(s: Snapshot, zone: int, n: nat) {
    0 <= zone < |s.env| && (s.secure ==> RangeValid(s.env[zone], ZoneSize(zone), n))
  }

  /** The first `n` bytes of a setting can be read, whichever zones they are in. */
  ghost predicate AllIntact(s: Snapshot, m: ZoneMapping, n: nat) {
    forall i :: 0 <= i < Used(m) && Share(m, i, n) > 0 ==> Intact(s, m.Zone(i), Share(m, i, n))
  }

  /** `data` has replaced the first bytes of a zone. */
  ghost predicate ZoneStored(s: Snapshot, s': Snapshot, zone: int, data: seq<byte>) {
    0 <= zone < |s.env| == |s'.env| == |s.plain| == |s'.plain| &&
    if s.secure then SecureWrite(s.env[zone], s'.env[zone], true, ZoneSize(zone), data, 0)
    else |data| <= |s.plain[zone]| && s'.plain[zone] == Splice(s.plain[zone], 0, data)
  }

  /** The portions of `data` before entry `i` are stored, and no other zone is touched. */
  ghost predicate StoredUpTo(s: Snapshot, s': Snapshot, m: ZoneMapping, i: nat, data: seq<byte>) {
    |s.plain| == |s.env| == |s'.plain| == |s'.env| == 11 && s'.secure == s.secure &&
    (forall j :: 0 <= j < i && j < Used(m) && Share(m, j, |data|) > 0 ==>
      Intact(s, m.Zone(j), Share(m, j, |data|)) && ZoneStored(s, s', m.Zone(j), Portion(m, j, data))) &&
    (forall z :: 0 <= z < 11 && (forall j :: 0 <= j < i && j < Used(m) && Share(m, j, |data|) > 0 ==> m.Zone(j) != z) ==>
      s'.plain[z] == s.plain[z] && s'.env[z] == s.env[z])
  }

  /** Zones that the setting is not mapped to are as before. */
  ghost predicate OthersKept(s: Snapshot, s': Snapshot, m: ZoneMapping) {
    |s.plain| == |s.env| == |s'.plain| == |s'.env| == 11 &&
    forall z :: 0 <= z < 11 && (forall j :: 0 <= j < Used(m) ==> m.Zone(j) != z) ==>
      s'.plain[z] == s.plain[z] && s'.env[z] == s.env[z]
  }

  /**
   * A save of the string `v` into zones, damaged or not: rejected if it is too long, otherwise a
   * success exactly if every envelope to be replaced is intact, unless a store fails.
   */
  ghost predicate SavedInZones(s: Snapshot, s': Snapshot, reliable: bool, m: ZoneMapping, v: seq<byte>, rc: int) {
    WellMapped(m) &&
    if |v| + 1 > MaxLen(m, 0) then rc == -1 && s' == s
    else
      (rc == 0 || rc == -1) && OthersKept(s, s', m) && (reliable || rc == 0 ==> (rc == 0 <==> AllIntact(s, m, |v| + 1))) &&
      if rc == 0 then StoredUpTo(s, s', m, 3, v + [0]) else StoppedAt(s, s', reliable, m, v + [0])
  }

  /** The portions before some entry are stored, and the write to its zone has failed. */
  ghost predicate StoppedAt(s: Snapshot, s': Snapshot, reliable: bool, m: ZoneMapping, data: seq<byte>) {
    exists i, mid :: 0 <= i < Used(m) && StoredUpTo(s, mid, m, i, data) &&
      Wrote(mid, s', reliable, m.Zone(i), Portion(m, i, data), -1)
  }

  lemma StoredNone(s: Snapshot, m: ZoneMapping, data: seq<byte>)
    requires |s.plain| == |s.env| == 11
    ensures StoredUpTo(s, s, m, 0, data)
  {}

  lemma ZoneOfOthers(m: ZoneMapping, i: nat, j: nat)
    requires WellMapped(m) && j < i < Used(m)
    ensures m.Zone(j) != m.Zone(i)
  {}

  /** One more zone is written, or the save ends there. */
  lemma StoreNext(s: Snapshot, s': Snapshot, s'': Snapshot, reliable: bool, m: ZoneMapping, i: nat, data: seq<byte>,
                  portion: seq<byte>, rc: int)
    requires WellMapped(m) && i < Used(m) && Start(m, i) < |data| && portion == Portion(m, i, data)
    requires StoredUpTo(s, s', m, i, data) && Wrote(s', s'', reliable, m.Zone(i), portion, rc)
    ensures rc == 0 || rc == -1
    ensures rc == 0 ==> StoredUpTo(s, s'', m, i + 1, data)
    ensures rc != 0 && reliable ==> !AllIntact(s, m, |data|)
    ensures rc != 0 ==> StoppedAt(s, s'', reliable, m, data)
    ensures OthersKept(s, s'', m)
  {
    forall j | 0 <= j < i ensures m.Zone(j) != m.Zone(i) {
      ZoneOfOthers(m, i, j);
    }
    hide SecureWrite, Splice, RangeValid;
    SecureStored(s', s'', reliable, m.Zone(i), portion, rc);
    assert s'.plain[m.Zone(i)] == s.plain[m.Zone(i)] && s'.env[m.Zone(i)] == s.env[m.Zone(i)];
  }

  lemma StoreRound(m: ZoneMapping, i: nat, data: seq<byte>, at: nat, n: nat, next: nat)
    requires i < 3 && at == Start(m, i) < |data| && next == at + n
    requires n == if |data| - at > m.Size(i) then m.Size(i) else |data| - at
    ensures data[at..next] == Portion(m, i, data)
    ensures next == if Start(m, i + 1) < |data| then Start(m, i + 1) else |data|
  {
    assert data[at..][..n] == data[at..next];
  }

  lemma ZonesSaved(s: Snapshot, s': Snapshot, reliable: bool, m: ZoneMapping, v: seq<byte>, cstr: seq<byte>, rc: int)
    requires WellMapped(m) && |v| + 1 <= MaxLen(m, 0) && cstr == v + [0] && (rc == 0 || rc == -1) && OthersKept(s, s', m)
    requires if rc == 0 then StoredUpTo(s, s', m, 3, cstr) else StoppedAt(s, s', reliable, m, cstr)
    requires reliable || rc == 0 ==> (rc == 0 <==> AllIntact(s, m, |cstr|))
    ensures SavedInZones(s, s', reliable, m, v, rc)
  {
    hide StoredUpTo, StoppedAt, AllIntact, OthersKept, WellMapped;
  }

  lemma StartsAtZero(m: ZoneMapping)
    ensures Start(m, 0) == 0
  {}

  lemma StoreEnd(s: Snapshot, s': Snapshot, m: ZoneMapping, i: nat, data: seq<byte>)
    requires WellMapped(m) && i <= Used(m) && StoredUpTo(s, s', m, i, data) && (i == Used(m) || |data| <= Start(m, i))
    ensures AllIntact(s, m, |data|) && StoredUpTo(s, s', m, 3, data) && OthersKept(s, s', m)
  {
    hide Intact, ZoneStored;
    forall j | i <= j < Used(m) ensures Share(m, j, |data|) == 0 {
      assert Start(m, i) <= Start(m, j);
    }
  }

  lemma SecureStored(s: Snapshot, s': Snapshot, reliable: bool, zone: int, data: seq<byte>, rc: int)
    requires Wrote(s, s', reliable, zone, data, rc)
    ensures rc == 0 ==> Intact(s, zone, |data|) && ZoneStored(s, s', zone, data)
    ensures rc != 0 ==> rc == -1 && (!reliable || !Intact(s, zone, |data|))
  {}

  /** `piece` is the first bytes of a zone. */
  ghost predicate ZoneRead(s: Snapshot, zone: int, piece: seq<byte>) {
    0 <= zone < |s.env| == |s.plain| &&
    if s.secure then exists whole :: Holds(s.env[zone], ZoneSize(zone), |piece|, whole) && piece == whole[..|piece|]
    else |piece| <= |s.plain[zone]| && piece == s.plain[zone][..|piece|]
  }

  /** The portions of `bytes` before entry `i` are what the zones hold. */
  ghost predicate ReadUpTo(s: Snapshot, m: ZoneMapping, i: nat, bytes: seq<byte>) {
    forall j :: 0 <= j < i && j < Used(m) && Share(m, j, |bytes|) > 0 ==>
      Intact(s, m.Zone(j), Share(m, j, |bytes|)) && ZoneRead(s, m.Zone(j), Portion(m, j, bytes))
  }

  /** A read of the first `n` bytes of a zone to position `at` of a buffer. */
  ghost predicate PieceRead(s: Snapshot, s': Snapshot, reliable: bool, zone: int, n: nat, before: seq<byte>, at: nat,
                            after: seq<byte>, piece: seq<byte>, r: int) {
    if Intact(s, zone, n) then
      r == n == |piece| && s' == s && ZoneRead(s, zone, piece) && at + n <= |before| && after == Splice(before, at, piece)
    else r == -1 && after == before && ZoneRepaired(s, s', reliable, zone, n)
  }

  /** After a failed read of the first `n` bytes of a zone. */
  ghost predicate ZoneRepaired(s: Snapshot, s': Snapshot, reliable: bool, zone: int, n: nat) {
    0 <= zone < |s.env| == |s'.env| && n <= ZoneSize(zone) &&
    RepairTried(s.env[zone], s'.env[zone], reliable, ZoneSize(zone), n) &&
    forall z :: 0 <= z < |s.env| && z != zone ==> s'.env[z] == s.env[z]
  }

  /** `bytes` are read from the entries before some entry, and the first `n` need a damaged envelope of its zone. */
  ghost predicate ReadStopped(s: Snapshot, s': Snapshot, reliable: bool, m: ZoneMapping, n: nat, before: seq<byte>,
                              after: seq<byte>, bytes: seq<byte>) {
    |bytes| <= |before| && after == Splice(before, 0, bytes) &&
    exists i :: 0 <= i < Used(m) && |bytes| == Start(m, i) && ReadUpTo(s, m, i, bytes) &&
      !Intact(s, m.Zone(i), Share(m, i, n)) && ZoneRepaired(s, s', reliable, m.Zone(i), Share(m, i, n))
  }

  /**
   * A read of up to `n` bytes of a setting in zones, damaged or not, into a buffer that was `before`:
   * it fails exactly if an envelope of the range is damaged, which is then repaired; otherwise the
   * buffer gets `bytes`, and a NUL at its end.
   */
  ghost predicate ReadFromZones(s: Snapshot, s': Snapshot, reliable: bool, m: ZoneMapping, n: nat, before: seq<byte>,
                                after: seq<byte>, bytes: seq<byte>, r: int) {
    WellMapped(m) && 0 < n <= |before| &&
    var k := if n < MaxLen(m, 0) then n else MaxLen(m, 0);
    if AllIntact(s, m, k) then
      r == |bytes| == k && s' == s && ReadUpTo(s, m, 3, bytes) && after == Splice(before, 0, bytes)[n - 1 := 0]
    else r == -1 && ReadStopped(s, s', reliable, m, k, before, after, bytes)
  }

  lemma PlainPiece(s: Snapshot, s': Snapshot, reliable: bool, zone: int, n: nat, before: seq<byte>, at: nat,
                   after: seq<byte>, r: int)
    returns (piece: seq<byte>)
    requires !s.secure && |s.env| == |s.plain| && PlainRead(s, s', zone, 0, n, before, at, after, r)
    ensures PieceRead(s, s', reliable, zone, n, before, at, after, piece, r)
  {
    piece := s.plain[zone][0..n];
    hide Splice;
  }

  lemma SecurePiece(s: Snapshot, s': Snapshot, reliable: bool, zone: int, n: nat, before: seq<byte>, at: nat,
                    after: seq<byte>, r: int) returns (piece: seq<byte>)
    requires s.secure && s'.secure && |s.env| == |s.plain| && (r != -1 ==> s'.plain == s.plain)
    requires SecureRead(s.env, s'.env, reliable, zone, 0, n, before, at, after, r)
    ensures PieceRead(s, s', reliable, zone, n, before, at, after, piece, r)
  {
    hide RangeValid, Splice;
    if RangeValid(s.env[zone], ZoneSize(zone), n) {
      var whole :| Holds(s.env[zone], ZoneSize(zone), n, whole) && 0 <= n && at + (n - 0) <= |before| &&
        after == Splice(before, at, whole[0..n]);
      piece := whole[..n];
      assert whole[0..n] == piece;
    } else {
      piece := [];
    }
  }

  lemma {:induction false} MaxLenIs(m: ZoneMapping, i: nat)
    requires WellMapped(m) && i <= Used(m)
    ensures Start(m, i) + MaxLen(m, i) == Start(m, Used(m))
    decreases 3 - i
  {
    if i < Used(m) {
      MaxLenIs(m, i + 1);
    }
  }

  /** All the zones' bytes that fit are read, but the NUL is not there yet. */
  ghost predicate AllRead(s: Snapshot, s': Snapshot, m: ZoneMapping, n: nat, before: seq<byte>, after: seq<byte>,
                          bytes: seq<byte>) {
    WellMapped(m) && |bytes| <= n <= |before| && s' == s && after == Splice(before, 0, bytes) && ReadUpTo(s, m, 3, bytes) &&
    |bytes| == (if n < MaxLen(m, 0) then n else MaxLen(m, 0)) && AllIntact(s, m, |bytes|)
  }

  lemma ReadFinished(s: Snapshot, s': Snapshot, reliable: bool, m: ZoneMapping, n: nat, before: seq<byte>,
                     after: seq<byte>, bytes: seq<byte>, r: int)
    requires WellMapped(m) && 0 < n <= |before|
    requires r == -1 ==> Stopped(s, s', reliable, m, n, MaxLen(m, 0), before, after, bytes)
    requires r != -1 ==>
      r == |bytes| && exists b :: AllRead(s, s', m, n, before, b, bytes) && after == b[n - 1 := 0]
    ensures ReadFromZones(s, s', reliable, m, n, before, after, bytes, r)
  {
    hide AllIntact, ReadUpTo, WellMapped, ReadStopped;
  }

  /**
   * A read of a setting in the file: the value as far as it fits, a NUL and the length of both, or
   * the empty string and 0.
   */
  ghost predicate ReadFromText(value: Option<seq<byte>>, n: nat, before: seq<byte>, after: seq<byte>, r: int) {
    0 < n <= |before| &&
    match value
    case None => r == 0 && after == Splice(before, 0, [0])
    case Some(v) => r == |CF.Clipped(v, n)| + 1 && after == Splice(before, 0, CF.Clipped(v, n) + [0])
  }

  /** The loop over the zones has read `bytes` from the entries before number `i`. */
  ghost predicate Reading(s: Snapshot, s': Snapshot, m: ZoneMapping, i: nat, n: nat, before: seq<byte>, b: seq<byte>,
                          bytes: seq<byte>) {
    i <= 3 && s' == s && |bytes| == (if Start(m, i) < n then Start(m, i) else n) && n <= |before| &&
    b == Splice(before, 0, bytes) && ReadUpTo(s, m, i, bytes)
  }

  lemma ReadingStart(s: Snapshot, m: ZoneMapping, n: nat, before: seq<byte>)
    requires n <= |before|
    ensures Reading(s, s, m, 0, n, before, before, [])
  {}

  lemma ReadingFits(s: Snapshot, s': Snapshot, m: ZoneMapping, i: nat, n: nat, before: seq<byte>, b: seq<byte>,
                    bytes: seq<byte>)
    requires Reading(s, s', m, i, n, before, b, bytes)
    ensures s' == s && |b| == |before| >= n
  {}

  ghost predicate Stopped(s: Snapshot, s': Snapshot, reliable: bool, m: ZoneMapping, n: nat, max: nat, before: seq<byte>,
                          after: seq<byte>, bytes: seq<byte>) {
    var k := if n < max then n else max;
    !AllIntact(s, m, k) && ReadStopped(s, s', reliable, m, k, before, after, bytes)
  }

  lemma ReadRound(s: Snapshot, s': Snapshot, m: ZoneMapping, i: nat, n: nat, max: nat, bytes: seq<byte>, piece: seq<byte>,
                  toRead: nat, before: seq<byte>, b: seq<byte>, b': seq<byte>, reliable: bool, r: int)
    requires WellMapped(m) && i < Used(m) && |bytes| < n && max == MaxLen(m, 0) && Reading(s, s, m, i, n, before, b, bytes)
    requires toRead == if n - |bytes| > m.Size(i) then m.Size(i) else n - |bytes|
    requires PieceRead(s, s', reliable, m.Zone(i), toRead, b, |bytes|, b', piece, r)
    ensures r == -1 || r == toRead == |piece|
    ensures r == -1 ==> Stopped(s, s', reliable, m, n, max, before, b', bytes)
    ensures r != -1 ==> Reading(s, s', m, i + 1, n, before, b', bytes + piece)
  {
    ShareIs(m, i, n, max, |bytes|, toRead);
    hide Intact, ZoneRead, WellMapped, Share, Used, ZoneRepaired, ReadUpTo, Stopped, Splice, Start;
    if r != -1 {
      SpliceOn(before, bytes, piece, b, |bytes|, b');
      ReadGrows(s, m, i, bytes, piece);
    } else {
      StoppedHere(s, s', reliable, m, i, n, max, before, b', bytes, toRead);
    }
  }

  lemma StoppedHere(s: Snapshot, s': Snapshot, reliable: bool, m: ZoneMapping, i: nat, n: nat, max: nat, before: seq<byte>,
                    after: seq<byte>, bytes: seq<byte>, toRead: nat)
    requires i < Used(m) && |bytes| == Start(m, i) && |bytes| <= |before| && after == Splice(before, 0, bytes)
    requires ReadUpTo(s, m, i, bytes) && Share(m, i, if n < max then n else max) == toRead > 0
    requires !Intact(s, m.Zone(i), toRead) && ZoneRepaired(s, s', reliable, m.Zone(i), toRead)
    ensures Stopped(s, s', reliable, m, n, max, before, after, bytes)
  {
    hide Intact, ZoneRepaired, ReadUpTo, Share, Start, Splice;
  }

  lemma SpliceOn(before: seq<byte>, bytes: seq<byte>, piece: seq<byte>, b: seq<byte>, at: nat, b': seq<byte>)
    requires at == |bytes| && at + |piece| <= |before| && b == Splice(before, 0, bytes) && b' == Splice(b, at, piece)
    ensures b' == Splice(before, 0, bytes + piece)
  {}

  lemma ShareIs(m: ZoneMapping, i: nat, n: nat, max: nat, at: nat, toRead: nat)
    requires WellMapped(m) && i < Used(m) && max == MaxLen(m, 0) && at < n && at == if Start(m, i) < n then Start(m, i) else n
    requires toRead == if n - at > m.Size(i) then m.Size(i) else n - at
    ensures Share(m, i, if n < max then n else max) == toRead > 0 && toRead <= m.Size(i)
    ensures at == Start(m, i) && at + toRead == if Start(m, i + 1) < n then Start(m, i + 1) else n
    ensures i + 1 <= 3
  {
    MaxLenIs(m, 0);
    assert Start(m, i + 1) <= Start(m, Used(m));
  }

  lemma ReadGrows(s: Snapshot, m: ZoneMapping, i: nat, bytes: seq<byte>, piece: seq<byte>)
    requires WellMapped(m) && i < Used(m) && |bytes| == Start(m, i) && ReadUpTo(s, m, i, bytes)
    requires 0 < |piece| <= m.Size(i) && Intact(s, m.Zone(i), |piece|) && ZoneRead(s, m.Zone(i), piece)
    ensures ReadUpTo(s, m, i + 1, bytes + piece)
  {
    hide Intact, ZoneRead;
    var all := bytes + piece;
    forall j | 0 <= j < i + 1 && Share(m, j, |all|) > 0
      ensures Intact(s, m.Zone(j), Share(m, j, |all|)) && ZoneRead(s, m.Zone(j), Portion(m, j, all))
    {
      if j < i {
        assert Start(m, j) + m.Size(j) <= Start(m, i);
        assert Portion(m, j, all) == Portion(m, j, bytes);
      } else {
        assert Portion(m, j, all) == piece;
      }
    }
  }

  lemma ReadEnd(s: Snapshot, s': Snapshot, m: ZoneMapping, i: nat, n: nat, before: seq<byte>, b: seq<byte>, bytes: seq<byte>)
    requires WellMapped(m) && i <= Used(m) && (i == Used(m) || |bytes| == n) && 0 < n
    requires Reading(s, s', m, i, n, before, b, bytes)
    ensures AllRead(s, s', m, n, before, b, bytes)
  {
    MaxLenIs(m, 0);
    assert Start(m, i) <= Start(m, Used(m));
    hide Intact, ZoneRead, Splice;
    forall j | i <= j < Used(m) ensures Share(m, j, |bytes|) == 0 {
      assert Start(m, i) <= Start(m, j);
    }
  }

  /** `bytes` is what a zone holds, all of it intact. */
  ghost predicate ZoneHolds(s: Snapshot, zone: int, bytes: seq<byte>) {
    0 <= zone < |s.env| == |s.plain| &&
    if s.secure then Holds(s.env[zone], ZoneSize(zone), ZoneSize(zone), bytes) else bytes == s.plain[zone]
  }

  ghost predicate SnapshotHolds(s: Snapshot, flat: Zones) {
    AllZones(flat) && forall z :: ZoneSize(z) != 0 ==> ZoneHolds(s, z, flat[z])
  }

  lemma WholeZoneRead(s: Snapshot, zone: int, bytes: seq<byte>, piece: seq<byte>)
    requires ZoneHolds(s, zone, bytes) && |bytes| == ZoneSize(zone) && ZoneRead(s, zone, piece)
    ensures |piece| <= |bytes| && piece == bytes[..|piece|]
  {
    if s.secure {
      var n := |piece|;
      var whole :| Holds(s.env[zone], ZoneSize(zone), n, whole) && piece == whole[..n];
      HoldsLess(s.env[zone], ZoneSize(zone), n, bytes);
      HoldsAgree(s.env[zone], ZoneSize(zone), n, whole, bytes, 0, n);
    }
  }

  lemma WholeZoneIntact(s: Snapshot, zone: int, bytes: seq<byte>, n: nat)
    requires ZoneHolds(s, zone, bytes) && n <= ZoneSize(zone)
    ensures Intact(s, zone, n)
  {}

  /** Reading intact zones yields the first bytes of the setting. */
  lemma {:induction false} BytesRead(s: Snapshot, flat: Zones, m: ZoneMapping, i: nat, bytes: seq<byte>)
    requires WellMapped(m) && i <= Used(m) && SnapshotHolds(s, flat) && ReadUpTo(s, m, 3, bytes)
    requires |bytes| <= Start(m, Used(m))
    ensures Start(m, i) <= |bytes| ==> bytes[Start(m, i)..] <= Bytes(flat, m, i)
    decreases 3 - i
  {
    if i < Used(m) && Start(m, i) < |bytes| {
      BytesRead(s, flat, m, i + 1, bytes);
      assert ZoneRead(s, m.Zone(i), Portion(m, i, bytes));
      BytesReadRound(s, flat, m, i, i + 1, bytes);
    }
  }

  lemma BytesReadRound(s: Snapshot, flat: Zones, m: ZoneMapping, i: nat, next: nat, bytes: seq<byte>)
    requires WellMapped(m) && i < Used(m) && next == i + 1 && SnapshotHolds(s, flat) && Start(m, i) < |bytes|
    requires ZoneRead(s, m.Zone(i), Portion(m, i, bytes))
    requires Start(m, next) <= |bytes| ==> bytes[Start(m, next)..] <= Bytes(flat, m, next)
    ensures bytes[Start(m, i)..] <= Bytes(flat, m, i)
  {
    var piece, z := Portion(m, i, bytes), flat[m.Zone(i)];
    WholeZoneRead(s, m.Zone(i), z, piece);
    BytesStep(flat, m, i);
    var rest := PortionSplits(m, i, next, bytes);
    hide *;
    PrefixOfBoth(piece, rest, z, Bytes(flat, m, next));
  }

  lemma PortionSplits(m: ZoneMapping, i: nat, next: nat, bytes: seq<byte>) returns (rest: seq<byte>)
    requires i < 3 && next == i + 1 && Start(m, i) < |bytes|
    ensures bytes[Start(m, i)..] == Portion(m, i, bytes) + rest
    ensures if |Portion(m, i, bytes)| != m.Size(i) then rest == []
      else Start(m, next) <= |bytes| && rest == bytes[Start(m, next)..]
  {
    var k, n := Start(m, i), |Portion(m, i, bytes)|;
    rest := bytes[k..][n..];
  }

  lemma PrefixOfBoth(a: seq<byte>, b: seq<byte>, c: seq<byte>, d: seq<byte>)
    requires a <= c && (if |a| == |c| then b <= d else b == [])
    ensures a + b <= c + d
  {}

  lemma HealthyIntact(s: Snapshot, flat: Zones, m: ZoneMapping, n: nat)
    requires WellMapped(m) && SnapshotHolds(s, flat)
    ensures AllIntact(s, m, n)
  {
    forall i | 0 <= i < Used(m) && Share(m, i, n) > 0 ensures Intact(s, m.Zone(i), Share(m, i, n)) {
      WholeZoneIntact(s, m.Zone(i), flat[m.Zone(i)], Share(m, i, n));
    }
  }

  /** The result of a read: the length of what the buffer gets. */
  ghost function Length(profile: int, c: Config, setting: int, n: nat): nat
    requires 0 <= profile <= 8 && AllZones(c.flat) && n > 0
  {
    var m := Mapping(profile, setting);
    if InZones(m) then TableIsSound(profile, setting); (if n < MaxLen(m, 0) then n else MaxLen(m, 0))
    else match Value(profile, c, setting) case None => 0 case Some(v) => |CF.Clipped(v, n)| + 1
  }

  lemma HealthyRead(s: Snapshot, s': Snapshot, reliable: bool, c: Config, profile: int, setting: int, n: nat, before: seq<byte>,
                    after: seq<byte>, bytes: seq<byte>, r: int)
    requires 0 <= profile <= 8 && InZones(Mapping(profile, setting)) && SnapshotHolds(s, c.flat)
    requires ReadFromZones(s, s', reliable, Mapping(profile, setting), n, before, after, bytes, r)
    ensures s' == s && r == Length(profile, c, setting, n)
    ensures Shown(after[..n], Value(profile, c, setting), false)
  {
    var m := Mapping(profile, setting);
    TableIsSound(profile, setting);
    hide Mapping, Ended, Bytes, ReadFromZones, SnapshotHolds, Shown, WellMapped;
    HealthyMappedRead(s, s', reliable, c.flat, m, n, before, after, bytes, r);
  }

  lemma HealthyMappedRead(s: Snapshot, s': Snapshot, reliable: bool, flat: Zones, m: ZoneMapping, n: nat, before: seq<byte>,
                          after: seq<byte>, bytes: seq<byte>, r: int)
    requires WellMapped(m) && SnapshotHolds(s, flat) && ReadFromZones(s, s', reliable, m, n, before, after, bytes, r)
    ensures s' == s && |after| >= n > 0 && r == if n < MaxLen(m, 0) then n else MaxLen(m, 0)
    ensures Shown(after[..n], Ended(Bytes(flat, m, 0)), false)
  {
    var k := if n < MaxLen(m, 0) then n else MaxLen(m, 0);
    HealthyIntact(s, flat, m, k);
    BytesLength(flat, m, 0);
    MaxLenIs(m, 0);
    hide ReadUpTo, AllIntact, Bytes, Start, MaxLen, WellMapped, SnapshotHolds;
    BytesRead(s, flat, m, 0, bytes);
    StartsAtZero(m);
    assert bytes[0..] == bytes;
    AfterRead(before, after, bytes, n, Bytes(flat, m, 0));
  }

  lemma AfterRead(before: seq<byte>, after: seq<byte>, bytes: seq<byte>, n: nat, all: seq<byte>)
    requires 0 < n <= |before| && |bytes| <= n && after == Splice(before, 0, bytes)[n - 1 := 0]
    requires bytes <= all && |bytes| == if n < |all| then n else |all|
    ensures Shown(after[..n], Ended(all), false)
  {
    hide Shown, Ended;
    ShownFromBytes(all, after[..n], |bytes|, n);
  }

  lemma WholeZoneStored(s: Snapshot, s': Snapshot, zone: int, bytes: seq<byte>, data: seq<byte>)
    requires ZoneHolds(s, zone, bytes) && |bytes| == ZoneSize(zone) && ZoneStored(s, s', zone, data) && s'.secure == s.secure
    ensures |data| <= |bytes| && ZoneHolds(s', zone, Splice(bytes, 0, data))
  {
    if s.secure {
      var env, env', size, n := s.env[zone], s'.env[zone], ZoneSize(zone), |data|;
      var whole :| Holds(env, size, n, whole) && Holds(env', size, n, Splice(whole, 0, data));
      ContentIs(env, size, bytes);
      Rewritten(env, env', size, n, whole, data);
    }
  }

  /** The bytes of `data` from entry `i` on. */
  function From(m: ZoneMapping, i: nat, data: seq<byte>): seq<byte> {
    if |data| <= Start(m, i) then [] else data[Start(m, i)..]
  }

  lemma FromSplits(m: ZoneMapping, i: nat, next: nat, data: seq<byte>)
    requires i < 3 && next == i + 1 && Start(m, i) < |data|
    ensures var k := Share(m, i, |data|);
      k == (if |From(m, i, data)| > m.Size(i) then m.Size(i) else |From(m, i, data)|) &&
      From(m, i, data)[..k] == Portion(m, i, data) && From(m, i, data)[k..] == From(m, next, data)
  {}

  lemma WrittenFirst(flat: Zones, m: ZoneMapping, i: nat, next: nat, data: seq<byte>) returns (mid: Zones)
    requires WellMapped(m) && i < Used(m) && next == i + 1 && AllZones(flat) && Start(m, i) < |data|
    ensures AllZones(mid) && |Portion(m, i, data)| <= |flat[m.Zone(i)]|
    ensures mid == flat[m.Zone(i) := Splice(flat[m.Zone(i)], 0, Portion(m, i, data))]
    ensures Written(flat, m, i, From(m, i, data)) == Written(mid, m, next, From(m, next, data))
  {
    ZoneOfEntry(m, i);
    FromSplits(m, i, next, data);
    mid := flat[m.Zone(i) := Splice(flat[m.Zone(i)], 0, Portion(m, i, data))];
    WrittenStep(flat, m, i, From(m, i, data), mid, From(m, next, data));
    hide Written, Portion, From, Splice, Share;
  }

  lemma NothingFrom(flat: Zones, m: ZoneMapping, i: nat, data: seq<byte>, j: nat)
    requires WellMapped(m) && i <= j < Used(m) && AllZones(flat) && |data| <= Start(m, i)
    ensures Portion(m, j, data) == [] && Written(flat, m, i, From(m, i, data)) == flat
  {
    assert Start(m, i) <= Start(m, j);
  }

  /** What a write leaves in the zone of entry `j`. */
  lemma {:induction false} WrittenAt(flat: Zones, m: ZoneMapping, i: nat, data: seq<byte>, j: nat)
    requires WellMapped(m) && i <= j < Used(m) && AllZones(flat)
    ensures |Portion(m, j, data)| <= |flat[m.Zone(j)]|
    ensures Written(flat, m, i, From(m, i, data))[m.Zone(j)] == Splice(flat[m.Zone(j)], 0, Portion(m, j, data))
    decreases 3 - i
  {
    hide Portion, From, Splice, Share, Start, Written;
    if |data| <= Start(m, i) {
      NothingFrom(flat, m, i, data, j);
      NothingSpliced(flat[m.Zone(j)], Portion(m, j, data));
    } else {
      var next := i + 1;
      var mid := WrittenFirst(flat, m, i, next, data);
      if j == i {
        forall k | next <= k < Used(m) ensures m.Zone(k) != m.Zone(i) {
          OtherEntry(m, k, i);
        }
        WrittenElsewhere(mid, m, next, From(m, next, data), m.Zone(i));
      } else {
        OtherEntry(m, i, j);
        WrittenAt(mid, m, next, data, j);
      }
    }
  }

  /** A save into intact zones leaves them intact, with the new bytes in them. */
  lemma HealthyStored(s: Snapshot, s': Snapshot, flat: Zones, m: ZoneMapping, data: seq<byte>)
    requires WellMapped(m) && SnapshotHolds(s, flat) && StoredUpTo(s, s', m, 3, data)
    ensures SnapshotHolds(s', Written(flat, m, 0, data))
  {
    var flat' := Written(flat, m, 0, data);
    forall z | ZoneSize(z) != 0 ensures ZoneHolds(s', z, flat'[z]) {
      ZoneSizeBound(z);
      assert ZoneHolds(s, z, flat[z]);
      ZoneAfter(s, s', flat, m, data, z);
    }
  }

  lemma ZoneAfter(s: Snapshot, s': Snapshot, flat: Zones, m: ZoneMapping, data: seq<byte>, z: int)
    requires WellMapped(m) && AllZones(flat) && StoredUpTo(s, s', m, 3, data)
    requires 0 <= z < 11 && ZoneSize(z) != 0 && ZoneHolds(s, z, flat[z])
    ensures ZoneHolds(s', z, Written(flat, m, 0, data)[z])
  {
    assert From(m, 0, data) == data;
    hide Written, Portion, From, Splice, ZoneStored, ZoneHolds, Intact;
    if j :| 0 <= j < Used(m) && m.Zone(j) == z {
      WrittenAt(flat, m, 0, data, j);
      if Share(m, j, |data|) > 0 {
        assert ZoneStored(s, s', m.Zone(j), Portion(m, j, data));
        WholeZoneStored(s, s', z, flat[z], Portion(m, j, data));
      } else {
        forall i | 0 <= i < Used(m) && Share(m, i, |data|) > 0 ensures m.Zone(i) != z {
          OtherEntry(m, i, j);
        }
        NothingSpliced(flat[z], Portion(m, j, data));
        SameZone(s, s', z, flat[z]);
      }
    } else {
      WrittenElsewhere(flat, m, 0, data, z);
      SameZone(s, s', z, flat[z]);
    }
  }

  lemma OtherEntry(m: ZoneMapping, i: nat, j: nat)
    requires WellMapped(m) && i < Used(m) && j < Used(m) && i != j
    ensures m.Zone(i) != m.Zone(j)
  {}

  lemma NothingSpliced(a: seq<byte>, b: seq<byte>)
    requires b == []
    ensures Splice(a, 0, b) == a
  {}

  lemma SameZone(s: Snapshot, s': Snapshot, z: int, bytes: seq<byte>)
    requires 0 <= z < |s.env| == |s.plain| == |s'.env| == |s'.plain| && s'.secure == s.secure
    requires s'.plain[z] == s.plain[z] && s'.env[z] == s.env[z] && ZoneHolds(s, z, bytes)
    ensures ZoneHolds(s', z, bytes)
  {}

  lemma {:induction false} WrittenKeys(flat: Zones, m: ZoneMapping, i: nat, data: seq<byte>)
    requires WellMapped(m) && i <= Used(m) && AllZones(flat)
    ensures Written(flat, m, i, data).Keys == flat.Keys
    decreases 3 - i
  {
    if i < Used(m) && data != [] {
      var z, k := m.Zone(i), if |data| > m.Size(i) then m.Size(i) else |data|;
      WrittenKeys(flat[z := Splice(flat[z], 0, data[..k])], m, i + 1, data[k..]);
    }
  }

  /** A save of a string that fits succeeds when all zones are intact, and the state is then the one saved. */
  lemma HealthySave(s: Snapshot, s': Snapshot, c: Config, profile: int, setting: int, v: seq<byte>, rc: int)
    requires 0 <= profile <= 8 && InZones(Mapping(profile, setting)) && Accepts(profile, setting, v)
    requires SnapshotHolds(s, c.flat) && SavedInZones(s, s', true, Mapping(profile, setting), v, rc)
    ensures rc == 0 && Saved(profile, c, setting, v).file == c.file && Saved(profile, c, setting, v).flat.Keys == c.flat.Keys
    ensures SnapshotHolds(s', Saved(profile, c, setting, v).flat)
  {
    var m := Mapping(profile, setting);
    TableIsSound(profile, setting);
    hide Mapping, StoredUpTo, StoppedAt, SnapshotHolds, AllIntact, Written, OthersKept;
    HealthyIntact(s, c.flat, m, |v| + 1);
    HealthyStored(s, s', c.flat, m, v + [0]);
    WrittenKeys(c.flat, m, 0, v + [0]);
  }

  // --- The class ------------------------------------------------------------------------------------

  const ZONES: set<int> := {0, 2, 3, 5, 6, 7, 8, 10}

  lemma ZonesAreReal(z: int)
    ensures ZoneSize(z) != 0 <==> z in ZONES
  {}

  class Settings {
    var active: int  // the active profile, -1 before DeviceConfig_Init
    const eeprom: EEPROM
    const file: CF.File

    ghost predicate Valid()
      reads this, eeprom, eeprom.hal
    {
      eeprom.Valid() && -1 <= active <= 8
    }

    /** Stores do not fail, no envelope is damaged, and the file system is there. */
    ghost predicate Healthy()
      reads this, eeprom, eeprom.hal, file
    {
      eeprom.Valid() && eeprom.hal.reliable && file.mounted &&
      forall z :: ZoneSize(z) != 0 ==> eeprom.Ready(z)
    }

    ghost function State(): (c: Config)
      requires Healthy()
      reads this, eeprom, eeprom.hal, file
      ensures AllZones(c.flat)
    {
      assert forall z :: ZoneSize(z) != 0 <==> z in ZONES by {
        forall z ensures ZoneSize(z) != 0 <==> z in ZONES { ZonesAreReal(z); }
      }
      Config(map z | z in ZONES :: eeprom.Flat(z), file.Text())
    }

    lemma StateIs(c: Config)
      requires Healthy() && c.flat.Keys == ZONES && c.file == file.Text()
      requires forall z :: z in ZONES && ZoneSize(z) != 0 ==> c.flat[z] == eeprom.Flat(z)
      ensures State() == c
    {
      hide EEPROM.Ready, EEPROM.Flat, EEPROM.Valid;
      forall z | z in ZONES ensures c.flat[z] == State().flat[z] {
        ZonesAreReal(z);
      }
    }

    lemma StateHas()
      requires Healthy()
      ensures State().flat.Keys == ZONES && State().file == file.Text()
      ensures forall z :: z in ZONES && ZoneSize(z) != 0 ==> State().flat[z] == eeprom.Flat(z)
    {}

    /** The bytes of every zone are what the secure element holds. */
    lemma StateHolds()
      requires Healthy()
      ensures SnapshotHolds(eeprom.Now(), State().flat)
    {
      StateHas();
      forall z | ZoneSize(z) != 0 ensures ZoneHolds(eeprom.Now(), z, State().flat[z]) {
        ZonesAreReal(z);
        ZoneSizeBound(z);
      }
    }

    /** And a state that they do hold is the state. */
    lemma StateRestored(c: Config)
      requires Valid() && eeprom.hal.reliable && file.mounted && c.file == file.Text()
      requires c.flat.Keys == ZONES && SnapshotHolds(eeprom.Now(), c.flat)
      ensures Healthy() && State() == c
    {
      forall z | ZoneSize(z) != 0 ensures eeprom.Ready(z) && eeprom.Flat(z) == c.flat[z] {
        ZoneSizeBound(z);
        assert ZoneHolds(eeprom.Now(), z, c.flat[z]);
        if eeprom.secure {
          ContentIs(eeprom.hal.env[z], ZoneSize(z), c.flat[z]);
        }
      }
      hide SnapshotHolds;
      StateIs(c);
    }

    constructor (eeprom: EEPROM, file: CF.File)
      ensures this.eeprom == eeprom && this.file == file && active == -1
    {
      active, this.eeprom, this.file := -1, eeprom, file;
    }

    /** `DeviceConfig_Init`: an unknown profile number changes nothing. */
    method Init(profile: nat)
      modifies this
      ensures active == if profile < 9 then profile as int else old(active)
    {
      if profile < 9 {
        active := profile;
      }
    }

    predicate IsAvailable(setting: nat)
      reads this
    {
      active != -1 && setting < 17 && Mapping(active, setting).Zone(0) != 255
    }

    method GetMaxLen(setting: nat) returns (n: int)
      requires Valid()
      ensures !IsAvailable(setting) ==> n == -1
      ensures IsAvailable(setting) && InZones(Mapping(active, setting)) ==>
        WellMapped(Mapping(active, setting)) && n == MaxLen(Mapping(active, setting), 0)
      ensures IsAvailable(setting) && InFile(Mapping(active, setting)) ==> n == Mapping(active, setting).s0
    {
      if !IsAvailable(setting) {
        return -1;
      }
      var m := Mapping(active, setting);
      if InZones(m) {
        TableIsSound(active, setting);
      } else {
        FileMapping(active, setting);
      }
      hide Mapping;
      var i := 0;
      n := 0;
      while i < 3 && m.Zone(i) != 255
        invariant 0 <= i <= Used(m)
        invariant InZones(m) ==> n + MaxLen(m, i) == MaxLen(m, 0)
        invariant InFile(m) ==> n == if i == 0 then 0 else m.s0
      {
        n := n + m.Size(i);
        i := i + 1;
      }
    }

    /** `DeviceConfig_Save`; `None` stands for a NULL value. */
    method Save(setting: nat, value: Option<seq<byte>>) returns (rc: int)
      requires Valid() && (value.Some? ==> NulFree(value.value))
      modifies eeprom.hal, file
      ensures Valid()
      ensures value.None? || !IsAvailable(setting) ==>
        rc == -1 && eeprom.Now() == old(eeprom.Now()) && file.Text() == old(file.Text())
      ensures value.None? || !IsAvailable(setting) ==> old(Healthy()) ==> Healthy() && State() == old(State())
      ensures value.Some? && IsAvailable(setting) && InZones(Mapping(active, setting)) ==>
        file.Text() == old(file.Text()) &&
        SavedInZones(old(eeprom.Now()), eeprom.Now(), eeprom.hal.reliable, Mapping(active, setting), value.value, rc)
      ensures value.Some? && IsAvailable(setting) && InFile(Mapping(active, setting)) ==>
        eeprom.Now() == old(eeprom.Now()) && rc == (if file.mounted then 0 else -1) &&
        file.Text() == if file.mounted then CT.Saved(old(file.Text()), Key(active, setting), value.value) else []
      ensures old(Healthy()) && value.Some? && IsAvailable(setting) ==>
        Healthy() && State() == Saved(active, old(State()), setting, value.value)
      ensures old(Healthy()) && value.Some? && IsAvailable(setting) ==>
        rc == if Accepts(active, setting, value.value) then 0 else -1
    {
      if !IsAvailable(setting) || value.None? {
        return -1;
      }
      var m, v := Mapping(active, setting), value.value;
      if m.z0 == 254 {
        rc := SaveToFile(setting, v);
        return;
      }
      TableIsSound(active, setting);
      var len := |v| + 1;
      var maxLen := GetMaxLen(setting);
      if len > maxLen {
        return -1;
      }
      rc := SaveToElement(setting, v, m);
    }

    /** A string that fits, into zones. */
    method SaveToElement(setting: nat, v: seq<byte>, m: ZoneMapping) returns (rc: int)
      requires Valid() && active != -1 && m == Mapping(active, setting) && InZones(m) && Accepts(active, setting, v)
      modifies eeprom.hal
      ensures Valid() && SavedInZones(old(eeprom.Now()), eeprom.Now(), eeprom.hal.reliable, m, v, rc)
      ensures old(Healthy()) ==> rc == 0 && Healthy() && State() == Saved(active, old(State()), setting, v)
    {
      TableIsSound(active, setting);
      ghost var s, healthy := eeprom.Now(), Healthy();
      ghost var c := if healthy then State() else Config(map[], []);
      assert WellMapped(m) && |v + [0]| == |v| + 1 <= MaxLen(m, 0);
      if healthy {
        StateHas();
        StateHolds();
      }
      hide *;
      rc := SaveZones(m, v + [0]);
      ZonesSaved(s, eeprom.Now(), eeprom.hal.reliable, m, v, v + [0], rc);
      if healthy {
        HealthySave(s, eeprom.Now(), c, active, setting, v, rc);
        StateRestored(Saved(active, c, setting, v));
      }
    }

    method SaveToFile(setting: nat, v: seq<byte>) returns (rc: int)
      requires Valid() && NulFree(v) && active != -1 && InFile(Mapping(active, setting))
      modifies file
      ensures Valid() && eeprom.Now() == old(eeprom.Now()) && rc == if file.mounted then 0 else -1
      ensures file.Text() == if file.mounted then CT.Saved(old(file.Text()), Key(active, setting), v) else []
      ensures old(Healthy()) ==> Healthy() && rc == 0
      ensures old(Healthy()) ==>
        State() == old(State()).(file := CT.Saved(old(State()).file, Key(active, setting), v))
    {
      FileSettings(active, setting);
      ghost var c := if Healthy() then State() else Config(map[], []);
      if Healthy() {
        StateHas();
      }
      hide Mapping, State, EEPROM.Ready, EEPROM.Flat, EEPROM.Valid, CT.Saved;
      rc := file.WriteKey(CF.FileKey(setting).value, v);
      if old(Healthy()) {
        StateIs(c.(file := file.Text()));
      }
    }

    /** The loop over the zones of a setting. */
    method SaveZones(m: ZoneMapping, cstr: seq<byte>) returns (rc: int)
      requires Valid() && WellMapped(m) && cstr != []
      modifies eeprom.hal
      ensures Valid() && (rc == 0 || rc == -1) && OthersKept(old(eeprom.Now()), eeprom.Now(), m)
      ensures rc == 0 ==> StoredUpTo(old(eeprom.Now()), eeprom.Now(), m, 3, cstr)
      ensures rc != 0 ==> StoppedAt(old(eeprom.Now()), eeprom.Now(), eeprom.hal.reliable, m, cstr)
      ensures eeprom.hal.reliable || rc == 0 ==> (rc == 0 <==> AllIntact(old(eeprom.Now()), m, |cstr|))
    {
      var written, remaining, i := 0, |cstr|, 0;
      ghost var s := eeprom.Now();
      StoredNone(s, m, cstr);
      StartsAtZero(m);
      hide *;
      while i < 3 && m.Zone(i) != 255 && remaining > 0
        invariant 0 <= i <= Used(m) && 0 <= written && 0 <= remaining && written + remaining == |cstr| && Valid()
        invariant written == (if Start(m, i) < |cstr| then Start(m, i) else |cstr|) && StoredUpTo(s, eeprom.Now(), m, i, cstr)
      {
        EntryIsUsed(m, i);
        ZoneOfEntry(m, i);
        var zoneSize := m.Size(i);
        var toWrite := if remaining > zoneSize then zoneSize else remaining;
        var next := written + toWrite;
        ghost var s' := eeprom.Now();
        StoreRound(m, i, cstr, written, toWrite, next);
        rc := WriteZone(cstr[written..next], m.Zone(i));
        StoreNext(s, s', eeprom.Now(), eeprom.hal.reliable, m, i, cstr, cstr[written..next], rc);
        if rc != 0 {
          return -1;
        }
        written := next;
        remaining := remaining - toWrite;
        i := i + 1;
      }
      UsedUp(m, i);
      StoreEnd(s, eeprom.Now(), m, i, cstr);
      return 0;
    }

    method WriteZone(bytes: seq<byte>, zone: int) returns (rc: int)
      requires Valid() && 0 < |bytes| <= ZoneSize(zone)
      modifies eeprom.hal
      ensures Valid() && Wrote(old(eeprom.Now()), eeprom.Now(), eeprom.hal.reliable, zone, bytes, rc)
    {
      hide Splice, Wrote, EEPROM.Ready, EEPROM.Flat;
      var data := Copied(bytes);
      assert data[0..0 + |bytes|] == bytes;
      rc := eeprom.Write(data, 0, |bytes|, zone);
    }

    /** `DeviceConfig_Read`: as a C string, the buffer then holds what of the value fits. */
    method Read(setting: nat, buffer: array?<byte>, n: int) returns (r: int, ghost bytes: seq<byte>)
      requires Valid() && (buffer != null ==> n <= buffer.Length)
      modifies eeprom.hal, buffer
      ensures Valid()
      ensures !IsAvailable(setting) || buffer == null || n <= 0 ==>
        r == -1 && eeprom.Now() == old(eeprom.Now()) && (buffer != null ==> buffer[..] == old(buffer[..]))
      ensures IsAvailable(setting) && buffer != null && 0 < n && InZones(Mapping(active, setting)) ==>
        ReadFromZones(old(eeprom.Now()), eeprom.Now(), eeprom.hal.reliable, Mapping(active, setting), n,
          old(buffer[..]), buffer[..], bytes, r)
      ensures IsAvailable(setting) && buffer != null && 0 < n && InFile(Mapping(active, setting)) ==>
        eeprom.Now() == old(eeprom.Now()) &&
        ReadFromText(CT.Lookup(file.Text(), Key(active, setting)), n, old(buffer[..]), buffer[..], r)
      ensures old(Healthy()) ==> Healthy() && State() == old(State())
      ensures IsAvailable(setting) && buffer != null && 0 < n && old(Healthy()) ==>
        Shown(buffer[..n], Value(active, old(State()), setting), InFile(Mapping(active, setting))) &&
        r == Length(active, old(State()), setting, n)
    {
      bytes := [];
      if !IsAvailable(setting) || buffer == null || n <= 0 {
        return -1, bytes;
      }
      var m := Mapping(active, setting);
      if m.z0 == 254 {
        r := ReadFromFile(setting, buffer, n);
      } else {
        hide *;
        r, bytes := ReadFromElement(setting, buffer, n, m);
      }
    }

    /** A setting in zones. */
    method ReadFromElement(setting: nat, buffer: array<byte>, n: nat, m: ZoneMapping) returns (r: int, ghost bytes: seq<byte>)
      requires Valid() && 0 < n <= buffer.Length && IsAvailable(setting) && m == Mapping(active, setting) && InZones(m)
      modifies eeprom.hal, buffer
      ensures Valid()
      ensures ReadFromZones(old(eeprom.Now()), eeprom.Now(), eeprom.hal.reliable, m, n, old(buffer[..]), buffer[..], bytes, r)
      ensures old(Healthy()) ==> Healthy() && State() == old(State())
      ensures old(Healthy()) ==>
        Shown(buffer[..n], Value(active, old(State()), setting), false) && r == Length(active, old(State()), setting, n)
    {
      TableIsSound(active, setting);
      assert WellMapped(m);
      ghost var s, before := eeprom.Now(), buffer[..];
      ghost var healthy := Healthy();
      ghost var c := if healthy then State() else Config(map[], []);
      if healthy {
        StateHolds();
        StateHas();
      }
      hide *;
      r, bytes := ReadZones(m, buffer, n);
      if r != -1 {
        buffer[n - 1] := 0;
      }
      ReadFinished(s, eeprom.Now(), eeprom.hal.reliable, m, n, before, buffer[..], bytes, r);
      if healthy {
        HealthyRead(s, eeprom.Now(), eeprom.hal.reliable, c, active, setting, n, before, buffer[..], bytes, r);
        StateRestored(c);
      }
    }

    method ReadFromFile(setting: nat, buffer: array<byte>, n: nat) returns (r: int)
      requires Valid() && 0 < n <= buffer.Length && active != -1 && InFile(Mapping(active, setting))
      modifies buffer
      ensures Valid() && eeprom.Now() == old(eeprom.Now())
      ensures ReadFromText(CT.Lookup(file.Text(), Key(active, setting)), n, old(buffer[..]), buffer[..], r)
      ensures old(Healthy()) ==> Healthy() && State() == old(State())
      ensures old(Healthy()) ==> Shown(buffer[..n], Value(active, old(State()), setting), true)
    {
      FileSettings(active, setting);
      ghost var c := if Healthy() then State() else Config(map[], []);
      if Healthy() {
        StateHas();
        FileValue(active, c, setting);
        CT.LookedUpNulFree(c.file, [], Key(active, setting));
      }
      hide Mapping, State, EEPROM.Ready, EEPROM.Flat, EEPROM.Valid, Value, CT.Scan;
      r := file.ReadKey(CF.FileKey(setting).value, buffer, n);
      assert ReadFromText(CT.Lookup(file.Text(), Key(active, setting)), n, old(buffer[..]), buffer[..], r);
      if old(Healthy()) {
        StateIs(c);
        ShownFromFile(buffer[..], old(buffer[..]), n, Value(active, c, setting));
      }
    }

    /** The loop over the zones of a setting; a NUL at the end of the buffer is still missing. */
    method ReadZones(m: ZoneMapping, buffer: array<byte>, n: nat) returns (total: int, ghost bytes: seq<byte>)
      requires Valid() && WellMapped(m) && 0 < n <= buffer.Length
      modifies eeprom.hal, buffer
      ensures Valid() && (total == -1 || total == |bytes|)
      ensures if total == -1 then
          Stopped(old(eeprom.Now()), eeprom.Now(), eeprom.hal.reliable, m, n, MaxLen(m, 0), old(buffer[..]), buffer[..], bytes)
        else AllRead(old(eeprom.Now()), eeprom.Now(), m, n, old(buffer[..]), buffer[..], bytes)
    {
      var remaining, i := n, 0;
      ghost var s, before := eeprom.Now(), buffer[..];
      total, bytes := 0, [];
      ReadingStart(s, m, n, before);
      hide *;
      while i < 3 && m.Zone(i) != 255 && remaining > 0
        invariant 0 <= i <= Used(m) && 0 <= total == |bytes| && 0 <= remaining && total + remaining == n && Valid()
        invariant Reading(s, eeprom.Now(), m, i, n, before, buffer[..], bytes)
      {
        EntryIsUsed(m, i);
        var toRead;
        toRead, bytes := ReadNext(m, i, buffer, total, remaining, n, s, before, bytes);
        if toRead == -1 {
          return -1, bytes;
        }
        total := total + toRead;
        remaining := remaining - toRead;
        i := i + 1;
      }
      UsedUp(m, i);
      ReadEnd(s, eeprom.Now(), m, i, n, before, buffer[..], bytes);
    }

    /** One round: as much of the next zone as there is room for; -1 for an error. */
    method ReadNext(m: ZoneMapping, i: nat, buffer: array<byte>, total: nat, remaining: nat,
                    ghost n: nat, ghost s: Snapshot, ghost before: seq<byte>, ghost bytes: seq<byte>)
      returns (toRead: int, ghost bytes': seq<byte>)
      requires Valid() && WellMapped(m) && i < Used(m) && 0 < remaining && total == |bytes| && total + remaining == n
      requires Reading(s, eeprom.Now(), m, i, n, before, buffer[..], bytes)
      modifies eeprom.hal, buffer
      ensures Valid() && -1 <= toRead <= remaining
      ensures toRead == -1 ==> Stopped(s, eeprom.Now(), eeprom.hal.reliable, m, n, MaxLen(m, 0), before, buffer[..], bytes')
      ensures toRead != -1 ==> |bytes'| == total + toRead && Reading(s, eeprom.Now(), m, i + 1, n, before, buffer[..], bytes')
    {
      ghost var b := buffer[..];
      ZoneOfEntry(m, i);
      ReadingFits(s, eeprom.Now(), m, i, n, before, b, bytes);
      hide AllIntact, Reading, Splice, PieceRead, WellMapped, EEPROM.Valid;
      var zoneSize := m.Size(i);
      toRead := if remaining > zoneSize then zoneSize else remaining;
      var rc;
      ghost var piece;
      rc, piece := ReadFlat(eeprom, buffer, total, toRead, m.Zone(i));
      ReadRound(s, eeprom.Now(), m, i, n, MaxLen(m, 0), bytes, piece, toRead, before, b, buffer[..], eeprom.hal.reliable, rc);
      bytes' := if rc == -1 then bytes else bytes + piece;
      if rc == -1 {
        toRead := -1;
      }
    }

    static method ReadFlat(eeprom: EEPROM, buffer: array<byte>, at: nat, n: nat, zone: int)
      returns (rc: int, ghost piece: seq<byte>)
      requires eeprom.Valid() && 0 < n <= ZoneSize(zone) && at + n <= buffer.Length
      modifies eeprom.hal, buffer
      ensures eeprom.Valid()
      ensures PieceRead(old(eeprom.Now()), eeprom.Now(), eeprom.hal.reliable, zone, n, old(buffer[..]), at, buffer[..],
        piece, rc)
    {
      ghost var b, s := buffer[..], eeprom.Now();
      hide Splice, Content, EEPROM.Ready, EEPROM.Flat, SecureRead, PlainRead, PieceRead, ZoneSize;
      rc := eeprom.Read(buffer, at, n, 0, zone);
      ghost var s', after := eeprom.Now(), buffer[..];
      if s.secure {
        piece := SecurePiece(s, s', eeprom.hal.reliable, zone, n, b, at, after, rc);
      } else {
        piece := PlainPiece(s, s', eeprom.hal.reliable, zone, n, b, at, after, rc);
      }
    }
  }

  lemma NextBytes(s: seq<byte>, at: nat, n: nat, next: nat)
    requires next == at + n <= |s|
    ensures s[at..next] == s[at..][..n] && s[next..] == s[at..][n..]
  {}

  lemma EntryIsUsed(m: ZoneMapping, i: nat)
    requires i <= Used(m) && i < 3 && m.Zone(i) != 255
    ensures i < Used(m)
  {}

  lemma UsedUp(m: ZoneMapping, i: nat)
    requires i <= Used(m)
    ensures i >= 3 || m.Zone(i) == 255 ==> i == Used(m)
    ensures Used(m) <= 3
  {}

  lemma ZoneOfEntry(m: ZoneMapping, i: nat)
    requires WellMapped(m) && i < Used(m)
    ensures m.Size(i) == ZoneSize(m.Zone(i)) != 0
  {}

  /**
   * What a caller sees in its buffer: the value cut to what fits, or, for a setting in the file
   * that has no value, the empty string.
   */
  ghost predicate Shown(buffer: seq<byte>, value: Option<seq<byte>>, inFile: bool)
    requires |buffer| > 0
  {
    match value
    case Some(v) => CStr(buffer) == CF.Clipped(v, |buffer|)
    case None => inFile ==> CStr(buffer) == []
  }

  lemma ShownFromFile(b: seq<byte>, b0: seq<byte>, n: nat, value: Option<seq<byte>>)
    requires 0 < n <= |b0|
    requires value.Some? ==> NulFree(value.value)
    requires b == Splice(b0, 0, match value case None => [0] case Some(v) => CF.Clipped(v, n) + [0])
    ensures Shown(b[..n], value, true)
  {
    match value
    case None => CStrIs(b[..n], []);
    case Some(v) =>
      assert b[..n][..|CF.Clipped(v, n)|] == CF.Clipped(v, n);
      CStrIs(b[..n], CF.Clipped(v, n));
  }

  lemma ShownFromBytes(all: seq<byte>, b: seq<byte>, total: nat, n: nat)
    requires 0 < n == |b| && total == (if n < |all| then n else |all|)
    requires b[n - 1] == 0 && forall k :: 0 <= k < total && k < n - 1 ==> b[k] == all[k]
    ensures Shown(b, Ended(all), false)
  {
    if !NulFree(all) {
      var v := CStr(all);
      var w := CF.Clipped(v, n);
      assert b[..|w|] == w;
      CStrIs(b, w);
    }
  }

  lemma FileMapping(profile: int, setting: int)
    requires InFile(Mapping(profile, setting))
    ensures Used(Mapping(profile, setting)) == 1
  {}
}
