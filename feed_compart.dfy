/** One feed compartment (FeedCompart.h): its EEPROM settings record, the
    load and save that copy it to and from the EEPROM, and the door state
    machine that `service` runs on every tick. */
module FeedCompartment {
  import opened Bytes
  import opened FeedCrc

  // ----- The settings record -----

  /** TimeLib's `tmElements_t`: seven one-byte fields, in this order. */
  datatype TimeElements = TimeElements(
    second: bv8, minute: bv8, hour: bv8, wday: bv8, day: bv8, month: bv8, year: bv8)

  /** `EECompartSettings`: the byte `enabled`, the schedule time, then the
      CRC, which must be the last field. */
  datatype CompartSettings = CompartSettings(enabled: bv8, time: TimeElements, crc: bv32)
  {
    /** `if (settings.enabled)`: any non-zero byte counts as true. */
    predicate IsEnabled() { enabled != 0 }
  }

  /** `sizeof(settings)`: 1 + 7 + 4 bytes, with no padding on the AVR. */
  const RecordSize: nat := 12

  /** `sizeof(settings) - sizeof(settings.crc)`: the absolute EEPROM index at
      which the CRC loop stops. */
  const CrcEnd: nat := 8

  function TimeBytes(t: TimeElements): (b: seq<bv8>)
    ensures |b| == 7
  {
    [t.second, t.minute, t.hour, t.wday, t.day, t.month, t.year]
  }

  /** The bytes of the record in memory, as the load and save loops see them. */
  function EncodeSettings(s: CompartSettings): (b: seq<bv8>)
    ensures |b| == RecordSize
  {
    [s.enabled] + TimeBytes(s.time) + Le32(s.crc)
  }

  /** The record whose memory holds the bytes `b`. */
  function DecodeSettings(b: seq<bv8>): CompartSettings
    requires |b| == RecordSize
  {
    CompartSettings(b[0], TimeElements(b[1], b[2], b[3], b[4], b[5], b[6], b[7]), FromLe32(b[8..12]))
  }

  lemma DecodeEncode(s: CompartSettings)
    ensures DecodeSettings(EncodeSettings(s)) == s
  {
    var b := EncodeSettings(s);
    assert b[8..12] == Le32(s.crc);
    Le32RoundTrip(s.crc);
  }

  lemma EncodeDecode(b: seq<bv8>)
    requires |b| == RecordSize
    ensures EncodeSettings(DecodeSettings(b)) == b
  {
    FromLe32RoundTrip(b[8..12]);
    assert b == [b[0]] + b[1..8] + b[8..12];
  }

  // ----- Load and save, on EEPROM contents -----

  /** An EEPROM that holds a whole record at `loc`. */
  predicate FitsRecord(e: seq<bv8>, loc: nat)
  {
    loc + RecordSize <= |e|
  }

  /** What generateCrc returns for the EEPROM contents `e`: the CRC of the
      bytes from `loc` up to the absolute index CrcEnd. */
  function SettingsCrc(e: seq<bv8>, loc: nat): bv32
    requires FitsRecord(e, loc)
  {
    CrcOver(e, loc, CrcEnd)
  }

  /** The record that loadSettingsFromEE copies out of `e`. */
  function LoadedSettings(e: seq<bv8>, loc: nat): CompartSettings
    requires FitsRecord(e, loc)
  {
    DecodeSettings(e[loc..loc + RecordSize])
  }

  /** The result of loadSettingsFromEE on `e`. */
  predicate LoadSucceeds(e: seq<bv8>, loc: nat)
    requires FitsRecord(e, loc)
  {
    SettingsCrc(e, loc) == LoadedSettings(e, loc).crc
  }

  /** The record after saveSettingsToEE: its CRC field is replaced by the CRC
      of the EEPROM as it was before the write. */
  function SavedSettings(e: seq<bv8>, loc: nat, s: CompartSettings): CompartSettings
    requires FitsRecord(e, loc)
  {
    s.(crc := SettingsCrc(e, loc))
  }

  /** The EEPROM after saveSettingsToEE. */
  function SavedImage(e: seq<bv8>, loc: nat, s: CompartSettings): seq<bv8>
    requires FitsRecord(e, loc)
  {
    Splice(e, loc, EncodeSettings(SavedSettings(e, loc, s)))
  }

  /** Save writes the bytes of the record at `loc`, and nothing else. */
  lemma SaveConfinesChanges(e: seq<bv8>, loc: nat, s: CompartSettings)
    requires FitsRecord(e, loc)
    ensures |SavedImage(e, loc, s)| == |e|
    ensures forall i :: 0 <= i < |e| && !(loc <= i < loc + RecordSize) ==> SavedImage(e, loc, s)[i] == e[i]
    ensures SavedImage(e, loc, s)[loc..loc + RecordSize] == EncodeSettings(SavedSettings(e, loc, s))
  {
  }

  /** Loading right after a save gives back the saved record (with the CRC
      the save computed); the load reports success exactly when the CRC of
      the new contents equals the CRC of the old ones. */
  lemma LoadAfterSave(e: seq<bv8>, loc: nat, s: CompartSettings)
    requires FitsRecord(e, loc)
    ensures FitsRecord(SavedImage(e, loc, s), loc)
    ensures LoadedSettings(SavedImage(e, loc, s), loc) == SavedSettings(e, loc, s)
    ensures LoadSucceeds(SavedImage(e, loc, s), loc) <==> SettingsCrc(SavedImage(e, loc, s), loc) == SettingsCrc(e, loc)
  {
    DecodeEncode(SavedSettings(e, loc, s));
  }

  /** A record placed at or beyond CrcEnd has an empty CRC range: generateCrc
      is the seed whatever the EEPROM holds, so a load succeeds exactly when
      the stored CRC bytes are all ones, and the data bytes are not checked. */
  lemma HighRecordIsUnchecked(e: seq<bv8>, loc: nat)
    requires FitsRecord(e, loc) && loc >= CrcEnd
    ensures SettingsCrc(e, loc) == Seed
    ensures LoadSucceeds(e, loc) <==> e[loc + 8..loc + 12] == [0xFF, 0xFF, 0xFF, 0xFF]
  {
    assert LoadedSettings(e, loc).crc == FromLe32(e[loc + 8..loc + 12]);
    Le32RoundTrip(Seed);
    FromLe32RoundTrip(e[loc + 8..loc + 12]);
  }

  /** For such a record save and load do round-trip. */
  lemma HighRecordRoundTrips(e: seq<bv8>, loc: nat, s: CompartSettings)
    requires FitsRecord(e, loc) && loc >= CrcEnd
    ensures LoadSucceeds(SavedImage(e, loc, s), loc)
    ensures LoadedSettings(SavedImage(e, loc, s), loc) == s.(crc := Seed)
  {
    LoadAfterSave(e, loc, s);
  }

  /** The bytes the CRC covers after a save are the leading bytes of the
      saved record, wherever the save started from. */
  lemma CrcAfterSave(e: seq<bv8>, loc: nat, s: CompartSettings, c: bv32)
    requires FitsRecord(e, loc)
    ensures SettingsCrc(SavedImage(e, loc, s), loc) == CrcOver(Splice(e, loc, EncodeSettings(s.(crc := c))), loc, CrcEnd)
  {
    var a := SavedImage(e, loc, s);
    var b := Splice(e, loc, EncodeSettings(s.(crc := c)));
    forall i | loc <= i < CrcEnd
      ensures a[i] == b[i]
    {
      assert EncodeSettings(SavedSettings(e, loc, s))[i - loc] == EncodeSettings(s.(crc := c))[i - loc];
    }
    CrcReadsOnlyRange(a, b, loc, CrcEnd);
  }

  /** A second save of the same record stores the CRC of the bytes the first
      save wrote, which are the bytes it writes again: after two saves the
      record loads successfully. */
  lemma SaveTwiceLoads(e: seq<bv8>, loc: nat, s: CompartSettings)
    requires FitsRecord(e, loc)
    ensures FitsRecord(SavedImage(e, loc, s), loc)
    ensures LoadSucceeds(SavedImage(SavedImage(e, loc, s), loc, s), loc)
  {
    var e1 := SavedImage(e, loc, s);
    var e2 := SavedImage(e1, loc, s);
    CrcAfterSave(e, loc, s, 0);
    CrcAfterSave(e1, loc, s, 0);
    SplicedCrcIgnoresBase(e, e1, loc, EncodeSettings(s.(crc := 0)));
    assert SettingsCrc(e2, loc) == SettingsCrc(e1, loc);
    LoadAfterSave(e1, loc, s);
  }

  /** Once a record reaching CrcEnd is written at `loc`, the CRC range holds
      only its bytes, whatever the EEPROM held before. */
  lemma SplicedCrcIgnoresBase(a: seq<bv8>, b: seq<bv8>, loc: nat, rec: seq<bv8>)
    requires loc + |rec| <= |a| && loc + |rec| <= |b| && CrcEnd <= loc + |rec|
    ensures CrcOver(Splice(a, loc, rec), loc, CrcEnd) == CrcOver(Splice(b, loc, rec), loc, CrcEnd)
  {
    var za := Splice(a, loc, rec);
    var zb := Splice(b, loc, rec);
    forall i | loc <= i < CrcEnd
      ensures za[i] == zb[i]
    {
      assert za[i] == rec[i - loc];
      assert zb[i] == rec[i - loc];
    }
    CrcReadsOnlyRange(za, zb, loc, CrcEnd);
  }

  /** A load that succeeded fails once the stored CRC is changed and
      nothing else is: the CRC range lies below the CRC field. */
  lemma CrcFieldCorruptionDetected(e: seq<bv8>, e2: seq<bv8>, loc: nat)
    requires FitsRecord(e, loc) && |e2| == |e|
    requires forall i :: 0 <= i < |e| && !(loc + 8 <= i < loc + 12) ==> e2[i] == e[i]
    requires e2[loc + 8..loc + 12] != e[loc + 8..loc + 12]
    ensures LoadSucceeds(e, loc) ==> !LoadSucceeds(e2, loc)
  {
    CrcReadsOnlyRange(e, e2, loc, CrcEnd);
    StoredCrcReadsField(e, e2, loc);
  }

  /** The stored CRC is the little-endian word at `loc + 8`. */
  lemma StoredCrcIs(e: seq<bv8>, loc: nat)
    requires FitsRecord(e, loc)
    ensures LoadedSettings(e, loc).crc == FromLe32(e[loc + 8..loc + 12])
  {
    assert e[loc..loc + RecordSize][8..12] == e[loc + 8..loc + 12];
  }

  /** Different bytes in the CRC field are a different stored CRC. */
  lemma StoredCrcReadsField(e: seq<bv8>, e2: seq<bv8>, loc: nat)
    requires FitsRecord(e, loc) && FitsRecord(e2, loc)
    requires e2[loc + 8..loc + 12] != e[loc + 8..loc + 12]
    ensures LoadedSettings(e2, loc).crc != LoadedSettings(e, loc).crc
  {
    StoredCrcIs(e, loc);
    StoredCrcIs(e2, loc);
    FromLe32RoundTrip(e[loc + 8..loc + 12]);
    FromLe32RoundTrip(e2[loc + 8..loc + 12]);
  }

  /** A load that succeeded fails once one of the bytes the CRC covers is
      changed and nothing else is. */
  lemma DataByteCorruptionDetected(e: seq<bv8>, e2: seq<bv8>, loc: nat, j: nat)
    requires FitsRecord(e, loc) && |e2| == |e|
    requires loc <= j < CrcEnd && e2[j] != e[j]
    requires forall i :: 0 <= i < |e| && i != j ==> e2[i] == e[i]
    ensures LoadSucceeds(e, loc) ==> !LoadSucceeds(e2, loc)
  {
    CrcDetectsOneByte(e, e2, loc, CrcEnd, j);
    StoredCrcIgnoresOneByte(e, e2, loc, j);
  }

  /** A change below the CRC field leaves the stored CRC as it was. */
  lemma StoredCrcIgnoresOneByte(e: seq<bv8>, e2: seq<bv8>, loc: nat, j: nat)
    requires FitsRecord(e, loc) && |e2| == |e| && j < loc + 8
    requires forall i :: 0 <= i < |e| && i != j ==> e2[i] == e[i]
    ensures LoadedSettings(e2, loc).crc == LoadedSettings(e, loc).crc
  {
    var f, f2 := e[loc + 8..loc + 12], e2[loc + 8..loc + 12];
    forall i | 0 <= i < 4
      ensures f2[i] == f[i]
    {
      assert f2[i] == e2[loc + 8 + i];
    }
    assert f2 == f;
    StoredCrcIs(e, loc);
    StoredCrcIs(e2, loc);
  }

  /** A save need not leave a record that loads: the first compartment's
      record at offset 0 over an erased (all-zero) EEPROM, saved with
      `enabled` set, stores the CRC of the zero bytes, 0x3D8F522A, while the
      bytes now in the EEPROM have CRC 0xF12552B4. */
  lemma SaveCanBreakLoad()
    ensures var e: seq<bv8> := seq(RecordSize, _ => 0);
      var s := CompartSettings(1, TimeElements(0, 0, 0, 0, 0, 0, 0), 0);
      SavedSettings(e, 0, s).crc == 0x3D8F_522A
      && SettingsCrc(SavedImage(e, 0, s), 0) == 0xF125_52B4
      && !LoadSucceeds(SavedImage(e, 0, s), 0)
  {
    var e: seq<bv8> := seq(RecordSize, _ => 0);
    var s := CompartSettings(1, TimeElements(0, 0, 0, 0, 0, 0, 0), 0);
    assert e[..8] == [0, 0, 0, 0, 0, 0, 0, 0];
    CrcReadsOnlyRange(e, [0, 0, 0, 0, 0, 0, 0, 0], 0, CrcEnd);
    CrcOfZeroBytes();
    var e1 := SavedImage(e, 0, s);
    assert e1[..8] == [1, 0, 0, 0, 0, 0, 0, 0];
    CrcReadsOnlyRange(e1, [1, 0, 0, 0, 0, 0, 0, 0], 0, CrcEnd);
    CrcOfEnabledBytes();
    LoadAfterSave(e, 0, s);
  }

  /** The CRC of eight zero bytes, one byte at a time. */
  lemma CrcOfZeroBytes()
    ensures CrcOver([0, 0, 0, 0, 0, 0, 0, 0], 0, CrcEnd) == 0x3D8F_522A
  {
    var z: seq<bv8> := [0, 0, 0, 0, 0, 0, 0, 0];
    ZeroByteSteps();
    CrcOfEmptyRange(z, 0, 0);
    CrcAppend(z, 0, 0);
    CrcAppend(z, 0, 1);
    CrcAppend(z, 0, 2);
    CrcAppend(z, 0, 3);
    CrcAppend(z, 0, 4);
    CrcAppend(z, 0, 5);
    CrcAppend(z, 0, 6);
    CrcAppend(z, 0, 7);
  }

  /** The register after each byte of CrcOfZeroBytes. */
  lemma ZeroByteSteps()
    ensures ByteStep(Seed, 0) == 0xD202_EF8D
    ensures ByteStep(0xD202_EF8D, 0) == 0x6C24_028D
    ensures ByteStep(0x6C24_028D, 0) == 0x6C9A_2460
    ensures ByteStep(0x6C9A_2460, 0) == 0xB221_0483
    ensures ByteStep(0xB221_0483, 0) == 0x8BFC_0C61
    ensures ByteStep(0x8BFC_0C61, 0) == 0xC5C1_523D
    ensures ByteStep(0xC5C1_523D, 0) == 0xA752_72BC
    ensures ByteStep(0xA752_72BC, 0) == 0x3D8F_522A
  {
  }

  /** The CRC of a one followed by seven zero bytes, one byte at a time. */
  lemma CrcOfEnabledBytes()
    ensures CrcOver([1, 0, 0, 0, 0, 0, 0, 0], 0, CrcEnd) == 0xF125_52B4
  {
    var z: seq<bv8> := [1, 0, 0, 0, 0, 0, 0, 0];
    EnabledByteSteps();
    CrcOfEmptyRange(z, 0, 0);
    CrcAppend(z, 0, 0);
    CrcAppend(z, 0, 1);
    CrcAppend(z, 0, 2);
    CrcAppend(z, 0, 3);
    CrcAppend(z, 0, 4);
    CrcAppend(z, 0, 5);
    CrcAppend(z, 0, 6);
    CrcAppend(z, 0, 7);
  }

  /** The register after each byte of CrcOfEnabledBytes. */
  lemma EnabledByteSteps()
    ensures ByteStep(Seed, 1) == 0xA505_DF1B
    ensures ByteStep(0xA505_DF1B, 0) == 0x753F_33CC
    ensures ByteStep(0x753F_33CC, 0) == 0x6D58_4E57
    ensures ByteStep(0x6D58_4E57, 0) == 0x0A9D_63E6
    ensures ByteStep(0x0A9D_63E6, 0) == 0xB69C_25D1
    ensures ByteStep(0xB69C_25D1, 0) == 0x0E9D_8198
    ensures ByteStep(0x0E9D_8198, 0) == 0x0125_7908
    ensures ByteStep(0x0125_7908, 0) == 0xF125_52B4
  {
  }

  // ----- Arduino `map` -----

  /** C integer division, which truncates toward zero. */
  function TruncDiv(a: int, b: int): int
    requires b != 0
  {
    var q := (if a < 0 then -a else a) / (if b < 0 then -b else b);
    if (a < 0) != (b < 0) then -q else q
  }

  /** Arduino's `map(x, inMin, inMax, outMin, outMax)`. */
  function ArduinoMap(x: int, inMin: int, inMax: int, outMin: int, outMax: int): int
    requires inMax != inMin
  {
    TruncDiv((x - inMin) * (outMax - outMin), inMax - inMin) + outMin
  }

  /** Over its input range `map` starts at `outMin`, ends at `outMax` and
      stays between the two. */
  lemma MapStaysBetween(x: int, span: int, outMin: int, outMax: int)
    requires 0 < span && 0 <= x <= span
    ensures ArduinoMap(0, 0, span, outMin, outMax) == outMin
    ensures ArduinoMap(span, 0, span, outMin, outMax) == outMax
    ensures outMin <= outMax ==> outMin <= ArduinoMap(x, 0, span, outMin, outMax) <= outMax
    ensures outMax <= outMin ==> outMax <= ArduinoMap(x, 0, span, outMin, outMax) <= outMin
  {
    var d := outMax - outMin;
    if d >= 0 {
      ScaledQuotient(x, span, d);
      ExactQuotient(span, d);
    } else {
      ScaledQuotient(x, span, -d);
      ExactQuotient(span, -d);
      assert x * d == -(x * -d);
      assert span * d == -(span * -d);
    }
  }

  lemma MulMono(n: int, x: int, y: int)
    requires 0 <= n && x <= y
    ensures n * x <= n * y
  {
    assert n * y - n * x == n * (y - x);
  }
  lemma MulSign(n: int, x: int)
    requires 0 <= n
    ensures x <= 0 ==> n * x <= 0
    ensures x >= 0 ==> n * x >= 0
  {
    if x <= 0 { MulMono(n, x, 0); } else { MulMono(n, 0, x); }
  }
  lemma QuotientMonotone(a: int, b: int, n: int)
    requires 0 <= a <= b && 0 < n
    ensures 0 <= a / n <= b / n
  {
    var qa, qb := a / n, b / n;
    assert a == n * qa + a % n && 0 <= a % n < n;
    assert b == n * qb + b % n && 0 <= b % n < n;
    assert n * (qb - qa + 1) == (b - a) + (a % n - b % n) + n;
    MulSign(n, qb - qa + 1);
    assert n * (qa + 1) == a - a % n + n;
    MulSign(n, qa + 1);
  }
  lemma ExactQuotient(n: int, d: int)
    requires 0 < n
    ensures n * d / n == d
  {
    var q := n * d / n;
    var r := (n * d) % n;
    assert n * d == n * q + r && 0 <= r < n;
    assert n * (d - q + 1) == r + n;
    assert n * (d - q - 1) == r - n;
    MulSign(n, d - q + 1);
    MulSign(n, d - q - 1);
  }
  /** `x * d / span` lies in `[0, d]`. */
  lemma ScaledQuotient(x: int, span: int, d: nat)
    requires 0 < span && 0 <= x <= span
    ensures 0 <= x * d / span <= d
  {
    MulMono(d, x, span);
    MulMono(d, 0, x);
    assert x * d == d * x && span * d == d * span;
    QuotientMonotone(x * d, span * d, span);
    ExactQuotient(span, d);
  }

  // ----- The door state machine -----

  /** `DoorState`. A value of the underlying integer other than the four
      enumerators is `Invalid`; it is what the `default` branch handles. */
  datatype DoorState = Closed | Opening | Open | Closing | Invalid(raw: int)

  /** The constants a compartment is built with: the servo positions of the
      constructor, and `DOOR_SPEED` (milliseconds) and `DOOR_OPEN_TIME`
      (minutes), for which the repository has two conflicting definitions. */
  datatype DoorConfig = DoorConfig(openDeg: nat, closeDeg: nat, doorSpeed: int, doorOpenTime: int)
  {
    predicate Valid() { openDeg < 0x1_0000 && closeDeg < 0x1_0000 && doorSpeed > 0 }
  }

  /** The part of a compartment that `service` changes besides its settings. */
  datatype Door = Door(state: DoorState, msStateChange: int, servo: int)

  /** What one call of `service` reads from the outside world: the current
      time `curr` (seconds); the schedule time `set` (here `scheduled`),
      which is the value `makeTime` returns for the settings' time with
      `day(curr)`, `month(curr)` and `year(curr)` written into its fields;
      the `millis()` reading; and the value handed to `map` as the elapsed
      time. */
  datatype Tick = Tick(curr: int, scheduled: int, nowMs: int, mapInput: int)

  /** The door after one call of `service`, and whether that call finished a
      feed cycle (cleared `enabled` and saved the settings). */
  datatype Step = Step(door: Door, finished: bool)

  /** The `CLOSED` guard: the scheduled time lies in `[curr, curr + window)`. */
  predicate OpenWindowHit(cfg: DoorConfig, t: Tick)
  {
    t.scheduled >= t.curr && t.scheduled < t.curr + 60 * cfg.doorOpenTime
  }

  /** The `OPEN` guard: absolute `curr` against the length of the window. */
  predicate OpenTimeOver(cfg: DoorConfig, t: Tick)
  {
    t.curr >= 60 * cfg.doorOpenTime
  }

  /** One call of `service` on the door `d`. */
  function ServiceStep(cfg: DoorConfig, d: Door, enabled: bool, t: Tick): Step
    requires cfg.Valid()
  {
    if !enabled then Step(d, false)
    else match d.state
      case Closed =>
        if OpenWindowHit(cfg, t) then Step(Door(Opening, t.nowMs, d.servo), false)
        else Step(d, false)
      case Opening =>
        if d.servo != cfg.openDeg then
          Step(d.(servo := ArduinoMap(t.mapInput, 0, cfg.doorSpeed, cfg.closeDeg, cfg.openDeg)), false)
        else Step(Door(Open, t.nowMs, d.servo), false)
      case Open =>
        if OpenTimeOver(cfg, t) then Step(Door(Closing, t.nowMs, d.servo), false)
        else Step(d, false)
      case Closing =>
        if d.servo != cfg.closeDeg then
          Step(d.(servo := ArduinoMap(t.mapInput, 0, cfg.doorSpeed, cfg.openDeg, cfg.closeDeg)), false)
        else Step(Door(Closed, t.nowMs, d.servo), true)
      case Invalid(_) => Step(Door(Closed, t.nowMs, d.servo), false)
  }

  /** The state that follows `s` in the feed cycle. */
  function NextState(s: DoorState): DoorState
  {
    match s
    case Closed => Opening
    case Opening => Open
    case Open => Closing
    case Closing => Closed
    case Invalid(_) => Closed
  }

  /** With `enabled` clear, `service` changes nothing. */
  lemma DisabledIsNoOp(cfg: DoorConfig, d: Door, t: Tick)
    requires cfg.Valid()
    ensures ServiceStep(cfg, d, false, t) == Step(d, false)
  {
  }

  /** One call moves the door at most one state along the cycle, never into
      an invalid state, and finishes a feed cycle only on the way from
      `CLOSING` to `CLOSED`. */
  lemma AtMostOneStep(cfg: DoorConfig, d: Door, enabled: bool, t: Tick)
    requires cfg.Valid()
    ensures var r := ServiceStep(cfg, d, enabled, t);
      r.door.state == d.state || r.door.state == NextState(d.state)
    ensures enabled ==> !ServiceStep(cfg, d, enabled, t).door.state.Invalid?
    ensures ServiceStep(cfg, d, enabled, t).finished
        <==> enabled && d.state == Closing && ServiceStep(cfg, d, enabled, t).door.state == Closed
  {
  }

  /** `CLOSED` becomes `OPENING`, stamped with `millis()`, exactly when the
      guard holds; otherwise nothing changes. */
  lemma ClosedGuard(cfg: DoorConfig, d: Door, t: Tick)
    requires cfg.Valid() && d.state == Closed
    ensures var r := ServiceStep(cfg, d, true, t);
      && (r.door.state == Opening <==> OpenWindowHit(cfg, t))
      && (OpenWindowHit(cfg, t) ==> r.door == Door(Opening, t.nowMs, d.servo))
      && (!OpenWindowHit(cfg, t) ==> r.door == d)
      && !r.finished
  {
  }

  /** Read from the door's side, the `CLOSED` guard holds when `curr` lies in
      `(T - window, T]` for the scheduled time `T`: the door can open up to a
      whole window early, and never once `T` has passed. */
  lemma ClosedGuardPrecedesSchedule(cfg: DoorConfig, d: Door, t: Tick, k: int)
    requires cfg.Valid() && d.state == Closed && cfg.doorOpenTime >= 1 && k >= 1
    ensures OpenWindowHit(cfg, t) <==> t.scheduled - 60 * cfg.doorOpenTime < t.curr <= t.scheduled
    ensures ServiceStep(cfg, d, true, t.(curr := t.scheduled - 60 * cfg.doorOpenTime + 1)).door.state == Opening
    ensures ServiceStep(cfg, d, true, t.(curr := t.scheduled + k)).door == d
  {
  }

  /** `OPENING` writes the interpolated position while the servo is not at
      `openDeg`, and becomes `OPEN` once it is. */
  lemma OpeningMoves(cfg: DoorConfig, d: Door, t: Tick)
    requires cfg.Valid() && d.state == Opening
    ensures var r := ServiceStep(cfg, d, true, t);
      && (d.servo != cfg.openDeg ==>
            r.door == d.(servo := ArduinoMap(t.mapInput, 0, cfg.doorSpeed, cfg.closeDeg, cfg.openDeg)))
      && (d.servo == cfg.openDeg ==> r.door == Door(Open, t.nowMs, d.servo))
      && !r.finished
  {
  }

  /** `OPEN` becomes `CLOSING` exactly when absolute `curr` has reached the
      window length. */
  lemma OpenGuard(cfg: DoorConfig, d: Door, t: Tick)
    requires cfg.Valid() && d.state == Open
    ensures var r := ServiceStep(cfg, d, true, t);
      && (OpenTimeOver(cfg, t) ==> r.door == Door(Closing, t.nowMs, d.servo))
      && (!OpenTimeOver(cfg, t) ==> r.door == d)
      && !r.finished
  {
  }

  /** `CLOSING` writes the interpolated position while the servo is not at
      `closeDeg`; once it is, the door is `CLOSED` and the feed cycle ends. */
  lemma ClosingMoves(cfg: DoorConfig, d: Door, t: Tick)
    requires cfg.Valid() && d.state == Closing
    ensures var r := ServiceStep(cfg, d, true, t);
      && (d.servo != cfg.closeDeg ==>
            r == Step(d.(servo := ArduinoMap(t.mapInput, 0, cfg.doorSpeed, cfg.openDeg, cfg.closeDeg)), false))
      && (d.servo == cfg.closeDeg ==> r == Step(Door(Closed, t.nowMs, d.servo), true))
  {
  }

  /** An invalid state falls back to `CLOSED`; the servo is not moved. */
  lemma InvalidFallsBack(cfg: DoorConfig, d: Door, t: Tick)
    requires cfg.Valid() && d.state.Invalid?
    ensures ServiceStep(cfg, d, true, t) == Step(Door(Closed, t.nowMs, d.servo), false)
  {
  }

  /** While the value handed to `map` lies in `[0, DOOR_SPEED]`, a moving
      door is written a position between `closeDeg` and `openDeg`. */
  lemma MovingDoorStaysBetween(cfg: DoorConfig, d: Door, t: Tick)
    requires cfg.Valid() && (d.state == Opening || d.state == Closing)
    requires 0 <= t.mapInput <= cfg.doorSpeed
    ensures var p := ServiceStep(cfg, d, true, t).door.servo;
      (cfg.closeDeg <= p <= cfg.openDeg) || (cfg.openDeg <= p <= cfg.closeDeg)
  {
    MapStaysBetween(t.mapInput, cfg.doorSpeed, cfg.closeDeg, cfg.openDeg);
    MapStaysBetween(t.mapInput, cfg.doorSpeed, cfg.openDeg, cfg.closeDeg);
  }

  /** A sequence of `service` calls, carrying the `enabled` flag along: the
      final door and flag. */
  function Run(cfg: DoorConfig, d: Door, enabled: bool, ts: seq<Tick>): (Door, bool)
    requires cfg.Valid()
    decreases |ts|
  {
    if ts == [] then (d, enabled)
    else
      var r := ServiceStep(cfg, d, enabled, ts[0]);
      Run(cfg, r.door, enabled && !r.finished, ts[1..])
  }

  /** A feed cycle ends itself: once a call has finished it, no sequence of
      later calls moves the door again until `enabled` is set anew. */
  lemma {:induction false} FinishedCycleStaysClosed(cfg: DoorConfig, d: Door, t: Tick, ts: seq<Tick>)
    requires cfg.Valid() && ServiceStep(cfg, d, true, t).finished
    ensures Run(cfg, ServiceStep(cfg, d, true, t).door, false, ts)
         == (Door(Closed, t.nowMs, cfg.closeDeg), false)
  {
    DisabledRunIsIdle(cfg, ServiceStep(cfg, d, true, t).door, ts);
  }

  lemma {:induction false} DisabledRunIsIdle(cfg: DoorConfig, d: Door, ts: seq<Tick>)
    requires cfg.Valid()
    ensures Run(cfg, d, false, ts) == (d, false)
    decreases |ts|
  {
    if ts != [] {
      DisabledRunIsIdle(cfg, d, ts[1..]);
    }
  }

  /** A whole feed cycle, with `openDeg` 90, `closeDeg` 0, `DOOR_SPEED` 5000
      and `DOOR_OPEN_TIME` 15. The value handed to `map` is the address of
      `millis` minus `msStateChange`; with that address taken to be 6040 it
      changes only when a transition restamps `msStateChange`. The scheduled
      value is chosen to lie in the guard's window (calendar arithmetic is
      not modelled, so it is not derived from `curr`), the servo is driven to 90, the `OPEN` guard
      fires on the very next call (`curr` is an absolute time, far past 15
      minutes), the servo is driven back to 0 and the cycle finishes closed
      and disabled. */
  lemma FeedCycleScenario()
    ensures var cfg := DoorConfig(90, 0, 5000, 15);
      var ts := [Tick(28800, 28830, 1000, 6040 - 0), Tick(28801, 28830, 1010, 6040 - 1000),
                 Tick(28802, 28830, 1020, 6040 - 1000), Tick(28803, 28830, 1030, 6040 - 1020),
                 Tick(28804, 28830, 1040, 6040 - 1030), Tick(28805, 28830, 1050, 6040 - 1030)];
      Run(cfg, Door(Closed, 0, 0), true, ts) == (Door(Closed, 1050, 0), false)
  {
    var cfg := DoorConfig(90, 0, 5000, 15);
    var d0 := Door(Closed, 0, 0);
    var d1 := ServiceStep(cfg, d0, true, Tick(28800, 28830, 1000, 6040)).door;
    assert d1 == Door(Opening, 1000, 0);
    var d2 := ServiceStep(cfg, d1, true, Tick(28801, 28830, 1010, 5040)).door;
    assert d2 == Door(Opening, 1000, 90);
    var d3 := ServiceStep(cfg, d2, true, Tick(28802, 28830, 1020, 5040)).door;
    assert d3 == Door(Open, 1020, 90);
    var d4 := ServiceStep(cfg, d3, true, Tick(28803, 28830, 1030, 5020)).door;
    assert d4 == Door(Closing, 1030, 90);
    var d5 := ServiceStep(cfg, d4, true, Tick(28804, 28830, 1040, 5010)).door;
    assert d5 == Door(Closing, 1030, 0);
    assert ServiceStep(cfg, d5, true, Tick(28805, 28830, 1050, 5010)) == Step(Door(Closed, 1050, 0), true);
  }

  // ----- The compartment object -----

  /** `FeedCompart`. The EEPROM is the board's one EEPROM, shared with the
      other compartments and the cooler; the servo is its last written
      position, which is what `Servo::read` is taken to return. */
  class FeedCompart {
    const eeprom: array<bv8>
    const eepromLoc: nat
    const cfg: DoorConfig
    var settings: CompartSettings
    var currDoorState: DoorState
    var msStateChange: int
    var servo: int
    var servoAttached: bool

    ghost predicate Valid()
      reads this
    {
      eepromLoc < 0x1_0000 && eepromLoc + RecordSize <= eeprom.Length && cfg.Valid()
    }

    /** The door part of the object, as ServiceStep sees it. */
    function DoorOf(): Door
      reads this
    {
      Door(currDoorState, msStateChange, servo)
    }

    /** The constructor: servo attached and closed, door `CLOSED`, timestamp
        0, settings loaded; when the load fails the schedule time becomes
        `nowTime`, `enabled` is cleared and the settings are saved. */
    constructor (eeprom: array<bv8>, eepromLoc: nat, cfg: DoorConfig, nowTime: TimeElements)
      requires eepromLoc < 0x1_0000 && eepromLoc + RecordSize <= eeprom.Length && cfg.Valid()
      modifies eeprom
      ensures Valid()
      ensures this.eeprom == eeprom && this.eepromLoc == eepromLoc && this.cfg == cfg
      ensures currDoorState == Closed && servo == cfg.closeDeg && msStateChange == 0 && servoAttached
      ensures LoadSucceeds(old(eeprom[..]), eepromLoc) ==>
        settings == LoadedSettings(old(eeprom[..]), eepromLoc) && eeprom[..] == old(eeprom[..])
      ensures !LoadSucceeds(old(eeprom[..]), eepromLoc) ==>
        var reset := LoadedSettings(old(eeprom[..]), eepromLoc).(enabled := 0, time := nowTime);
        settings == SavedSettings(old(eeprom[..]), eepromLoc, reset)
        && eeprom[..] == SavedImage(old(eeprom[..]), eepromLoc, reset)
    {
      this.eeprom := eeprom;
      this.eepromLoc := eepromLoc;
      this.cfg := cfg;
      servoAttached := true;
      servo := cfg.closeDeg;
      currDoorState := Closed;
      msStateChange := 0;
      settings := CompartSettings(0, TimeElements(0, 0, 0, 0, 0, 0, 0), 0);
      new;
      var ok := LoadSettingsFromEE();
      if !ok {
        settings := settings.(time := nowTime);
        settings := settings.(enabled := 0);
        SaveSettingsToEE();
      }
    }

    /** `~FeedCompart`: close the door, detach the servo and save. */
    method Destroy()
      requires Valid()
      modifies this, eeprom
      ensures Valid()
      ensures servo == cfg.closeDeg && !servoAttached
      ensures currDoorState == old(currDoorState) && msStateChange == old(msStateChange)
      ensures settings == SavedSettings(old(eeprom[..]), eepromLoc, old(settings))
      ensures eeprom[..] == SavedImage(old(eeprom[..]), eepromLoc, old(settings))
    {
      servo := cfg.closeDeg;
      servoAttached := false;
      SaveSettingsToEE();
    }

    /** `generateCrc`: the loop runs from `eepromLoc` up to the absolute
        index CrcEnd over the EEPROM, not over `settings`. */
    method GenerateCrc() returns (crc: bv32)
      requires Valid()
      ensures crc == SettingsCrc(eeprom[..], eepromLoc)
    {
      ghost var e := eeprom[..];
      crc := Seed;
      var index := eepromLoc;
      while index < CrcEnd
        invariant eepromLoc <= index
        invariant index <= CrcEnd || index == eepromLoc
        invariant crc == CrcOver(e, eepromLoc, index)
        decreases CrcEnd - index
      {
        var b := eeprom[index];
        assert b == e[index];
        crc := CrcByte(crc, b);
        CrcAppend(e, eepromLoc, index);
        index := index + 1;
      }
    }

    /** The body of generateCrc's loop for one byte: the low nibble, then the
        high nibble, through the table, then the complement. */
    static method CrcByte(crc: bv32, b: bv8) returns (r: bv32)
      ensures r == ByteStep(crc, b)
    {
      var low := NibbleStep(crc, b as bv32);
      var high := NibbleStep(low, (b >> 4) as bv32);
      ByteStepIsTwoNibbles(crc, b);
      r := !high;
    }

    /** `loadSettingsFromEE`: copy the record's bytes out of the EEPROM and
        compare the stored CRC with generateCrc. */
    method LoadSettingsFromEE() returns (ok: bool)
      requires Valid()
      modifies this`settings
      ensures settings == LoadedSettings(eeprom[..], eepromLoc)
      ensures ok == LoadSucceeds(eeprom[..], eepromLoc)
    {
      var raw: seq<bv8> := [];
      var i := 0;
      while i < RecordSize
        invariant 0 <= i <= RecordSize
        invariant raw == eeprom[eepromLoc..eepromLoc + i]
      {
        raw := raw + [eeprom[eepromLoc + i]];
        i := i + 1;
      }
      settings := DecodeSettings(raw);
      var crc := GenerateCrc();
      ok := crc == settings.crc;
    }

    /** `saveSettingsToEE`: store generateCrc in the record, then copy the
        record's bytes into the EEPROM. */
    method SaveSettingsToEE()
      requires Valid()
      modifies this`settings, eeprom
      ensures settings == SavedSettings(old(eeprom[..]), eepromLoc, old(settings))
      ensures eeprom[..] == SavedImage(old(eeprom[..]), eepromLoc, old(settings))
    {
      var crc := GenerateCrc();
      settings := settings.(crc := crc);
      WriteRecord(EncodeSettings(settings));
    }

    /** The byte loop of saveSettingsToEE: `raw` is copied to the EEPROM
        from `eepromLoc` on, and no other byte changes. */
    method WriteRecord(raw: seq<bv8>)
      requires Valid() && |raw| == RecordSize
      modifies eeprom
      ensures eeprom[..] == Splice(old(eeprom[..]), eepromLoc, raw)
    {
      var i := 0;
      while i < RecordSize
        invariant 0 <= i <= RecordSize
        invariant forall j :: 0 <= j < eeprom.Length ==>
          eeprom[j] == if eepromLoc <= j < eepromLoc + i then raw[j - eepromLoc] else old(eeprom[j])
      {
        eeprom[eepromLoc + i] := raw[i];
        i := i + 1;
      }
      SpliceByIndex(old(eeprom[..]), eepromLoc, raw, eeprom[..]);
    }

    /** `service`: one step of the door state machine (ServiceStep); a
        finished feed cycle clears `enabled` and saves the settings. */
    method Service(t: Tick)
      requires Valid()
      modifies this, eeprom
      ensures Valid() && servoAttached == old(servoAttached)
      ensures DoorOf() == ServiceStep(cfg, old(DoorOf()), old(settings).IsEnabled(), t).door
      ensures ServiceStep(cfg, old(DoorOf()), old(settings).IsEnabled(), t).finished ==>
        settings == SavedSettings(old(eeprom[..]), eepromLoc, old(settings).(enabled := 0))
        && eeprom[..] == SavedImage(old(eeprom[..]), eepromLoc, old(settings).(enabled := 0))
      ensures !ServiceStep(cfg, old(DoorOf()), old(settings).IsEnabled(), t).finished ==>
        settings == old(settings) && eeprom[..] == old(eeprom[..])
    {
      if settings.enabled != 0 {
        match currDoorState {
          case Closed =>
            if t.scheduled >= t.curr && t.scheduled < t.curr + 60 * cfg.doorOpenTime {
              msStateChange := t.nowMs;
              currDoorState := Opening;
            }
          case Opening =>
            if servo != cfg.openDeg {
              servo := ArduinoMap(t.mapInput, 0, cfg.doorSpeed, cfg.closeDeg, cfg.openDeg);
            } else {
              msStateChange := t.nowMs;
              currDoorState := Open;
            }
          case Open =>
            if t.curr >= 60 * cfg.doorOpenTime {
              msStateChange := t.nowMs;
              currDoorState := Closing;
            }
          case Closing =>
            if servo != cfg.closeDeg {
              servo := ArduinoMap(t.mapInput, 0, cfg.doorSpeed, cfg.openDeg, cfg.closeDeg);
            } else {
              msStateChange := t.nowMs;
              currDoorState := Closed;
              settings := settings.(enabled := 0);
              SaveSettingsToEE();
            }
          case Invalid(_) =>
            msStateChange := t.nowMs;
            currDoorState := Closed;
        }
      }
    }
  }
}
