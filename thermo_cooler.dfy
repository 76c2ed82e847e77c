/** The Peltier cooler regulator (ThermoCooler.cpp, ThermoCooler.h): a
    two-tap low-pass filter on the temperature reading, a three-band
    on / PWM / off decision around the set temperature, and the set
    temperature's EEPROM record. */
module ThermoCooling {
  import opened Bytes
  import FeedCompartment

  // ----- The settings record -----

  /** `TC_PWM_DELTA_DEG`: how far from the set temperature PWM takes over. */
  const PwmDeltaDeg: int := 1

  /** `sizeof(EEThermoCoolerSettings)`: a 16-bit `int` and a `uint32_t`. */
  const CoolerRecordSize: nat := 6

  /** `THERMO_COOLER_EE_SIZE - sizeof(settings.crc)`: the length handed to
      EEGenerateCrc. */
  const CoolerCrcLen: nat := 2

  /** The set temperature `begin` falls back to when the load fails. */
  const DefaultSetTemp: bv16 := 40

  /** `EEThermoCoolerSettings`; `setTemp` is the bit pattern of the AVR's
      16-bit `int set_temp`. */
  datatype CoolerSettings = CoolerSettings(setTemp: bv16, crc: bv32)
  {
    /** The set temperature as the signed `int` the code compares with. */
    function SetTemp(): int { Int16Of(setTemp) }
  }

  function EncodeCooler(s: CoolerSettings): (b: seq<bv8>)
    ensures |b| == CoolerRecordSize
  {
    Le16(s.setTemp) + Le32(s.crc)
  }

  function DecodeCooler(b: seq<bv8>): CoolerSettings
    requires |b| == CoolerRecordSize
  {
    CoolerSettings(FromLe16(b[..2]), FromLe32(b[2..6]))
  }

  lemma DecodeEncodeCooler(s: CoolerSettings)
    ensures DecodeCooler(EncodeCooler(s)) == s
  {
    var b := EncodeCooler(s);
    assert b[..2] == Le16(s.setTemp);
    assert b[2..6] == Le32(s.crc);
    Le16RoundTrip(s.setTemp);
    Le32RoundTrip(s.crc);
  }

  lemma EncodeDecodeCooler(b: seq<bv8>)
    requires |b| == CoolerRecordSize
    ensures EncodeCooler(DecodeCooler(b)) == b
  {
    FromLe16RoundTrip(b[..2]);
    FromLe32RoundTrip(b[2..6]);
    assert b == b[..2] + b[2..6];
  }

  // ----- Load and save, on EEPROM contents -----

  /** `EEGenerateCrc(start, num_bytes)` over the EEPROM contents. Its body is
      not part of this model, so the cooler is given it as a function of
      the contents, the start and the length. */
  type EECrc = (seq<bv8>, nat, nat) -> bv32

  /** An EEPROM large enough for the cooler record, which the load and save
      loops place at offset 0. */
  predicate FitsCooler(e: seq<bv8>)
  {
    CoolerRecordSize <= |e|
  }

  /** The record loadSettingsFromEE copies out of `e`: always its first bytes. */
  function LoadedCooler(e: seq<bv8>): CoolerSettings
    requires FitsCooler(e)
  {
    DecodeCooler(e[..CoolerRecordSize])
  }

  /** The result of loadSettingsFromEE: the stored CRC against
      EEGenerateCrc(eepromLoc, 2). */
  predicate CoolerLoadSucceeds(crc: EECrc, e: seq<bv8>, loc: nat)
    requires FitsCooler(e)
  {
    LoadedCooler(e).crc == crc(e, loc, CoolerCrcLen)
  }

  /** The record after saveSettingsToEE: the CRC of the contents before the write. */
  function SavedCooler(crc: EECrc, e: seq<bv8>, loc: nat, s: CoolerSettings): CoolerSettings
  {
    s.(crc := crc(e, loc, CoolerCrcLen))
  }

  /** The EEPROM after saveSettingsToEE: the record's bytes at offset 0. */
  function SavedCoolerImage(crc: EECrc, e: seq<bv8>, loc: nat, s: CoolerSettings): seq<bv8>
    requires FitsCooler(e)
  {
    Splice(e, 0, EncodeCooler(SavedCooler(crc, e, loc, s)))
  }

  /** Loading right after a save gives back the saved record, and succeeds
      exactly when EEGenerateCrc gives the same value before and after the
      write. */
  lemma CoolerLoadAfterSave(crc: EECrc, e: seq<bv8>, loc: nat, s: CoolerSettings)
    requires FitsCooler(e)
    ensures FitsCooler(SavedCoolerImage(crc, e, loc, s))
    ensures LoadedCooler(SavedCoolerImage(crc, e, loc, s)) == SavedCooler(crc, e, loc, s)
    ensures CoolerLoadSucceeds(crc, SavedCoolerImage(crc, e, loc, s), loc)
      <==> crc(SavedCoolerImage(crc, e, loc, s), loc, CoolerCrcLen) == crc(e, loc, CoolerCrcLen)
  {
    var img := SavedCoolerImage(crc, e, loc, s);
    assert img[..CoolerRecordSize] == EncodeCooler(SavedCooler(crc, e, loc, s));
    DecodeEncodeCooler(SavedCooler(crc, e, loc, s));
  }

  /** `crc` reads only the `n` bytes from `loc` of EEPROM contents shaped like `e`. */
  ghost predicate CrcReadsOnly(crc: EECrc, e: seq<bv8>, loc: nat, n: nat)
    requires loc + n <= |e|
  {
    forall e2: seq<bv8> :: |e2| == |e| && e2[loc..loc + n] == e[loc..loc + n] ==> crc(e2, loc, n) == crc(e, loc, n)
  }

  /** When the bytes EEGenerateCrc covers lie past the record the save writes
      (as they do at the configured location 2 * FEED_COMPART_EE_SIZE, which
      is 24 if FEED_COMPART_EE_SIZE is 12), save then load
      succeeds. */
  lemma CoolerRoundTripsAwayFromCrcRange(crc: EECrc, e: seq<bv8>, loc: nat, s: CoolerSettings)
    requires CoolerRecordSize <= loc && loc + CoolerCrcLen <= |e|
    requires CrcReadsOnly(crc, e, loc, CoolerCrcLen)
    ensures FitsCooler(SavedCoolerImage(crc, e, loc, s))
    ensures CoolerLoadSucceeds(crc, SavedCoolerImage(crc, e, loc, s), loc)
    ensures LoadedCooler(SavedCoolerImage(crc, e, loc, s)) == s.(crc := crc(e, loc, CoolerCrcLen))
  {
    var img := SavedCoolerImage(crc, e, loc, s);
    assert img[loc..loc + CoolerCrcLen] == e[loc..loc + CoolerCrcLen];
    CoolerLoadAfterSave(crc, e, loc, s);
  }

  /** When EEGenerateCrc covers only bytes past the record, as at the
      configured location, the set temperature is covered by no CRC: changing
      either of its bytes changes the loaded set temperature and leaves the
      load's result as it was. */
  lemma CoolerSetTempUnchecked(crc: EECrc, e: seq<bv8>, loc: nat, j: nat, v: bv8)
    requires CoolerRecordSize <= loc && loc + CoolerCrcLen <= |e|
    requires CrcReadsOnly(crc, e, loc, CoolerCrcLen)
    requires j < 2 && v != e[j]
    ensures FitsCooler(e[j := v])
    ensures CoolerLoadSucceeds(crc, e[j := v], loc) == CoolerLoadSucceeds(crc, e, loc)
    ensures LoadedCooler(e[j := v]).setTemp != LoadedCooler(e).setTemp
  {
    var e2 := e[j := v];
    assert e2[loc..loc + CoolerCrcLen] == e[loc..loc + CoolerCrcLen];
    assert crc(e2, loc, CoolerCrcLen) == crc(e, loc, CoolerCrcLen);
    assert e2[..CoolerRecordSize][2..6] == e[..CoolerRecordSize][2..6];
    if LoadedCooler(e2).setTemp == LoadedCooler(e).setTemp {
      assert DecodeCooler(e2[..CoolerRecordSize]) == DecodeCooler(e[..CoolerRecordSize]);
      EncodeDecodeCooler(e2[..CoolerRecordSize]);
      EncodeDecodeCooler(e[..CoolerRecordSize]);
      assert false;
    }
  }

  /** The cooler's record is written over the first bytes of the first feed
      compartment's record, which also starts at offset 0: after a cooler
      save that compartment loads the low byte of the set temperature as its
      `enabled` flag and the high byte as its schedule's second. */
  lemma CoolerSaveOverwritesFirstCompartment(crc: EECrc, e: seq<bv8>, loc: nat, s: CoolerSettings)
    requires FeedCompartment.FitsRecord(e, 0)
    ensures FeedCompartment.FitsRecord(SavedCoolerImage(crc, e, loc, s), 0)
    ensures FeedCompartment.LoadedSettings(SavedCoolerImage(crc, e, loc, s), 0).enabled == (s.setTemp & 0xFF) as bv8
    ensures FeedCompartment.LoadedSettings(SavedCoolerImage(crc, e, loc, s), 0).time.second == (s.setTemp >> 8) as bv8
  {
    var img := SavedCoolerImage(crc, e, loc, s);
    assert img[0] == EncodeCooler(SavedCooler(crc, e, loc, s))[0];
    assert img[1] == EncodeCooler(SavedCooler(crc, e, loc, s))[1];
  }

  // ----- The regulator -----

  /** What the code last wrote to the cooler pin. */
  datatype PinWrite = NotWritten | DigitalWrite(level: int) | AnalogWrite(value: int)

  /** The output as a duty cycle out of 255: a digital high is fully on. */
  function Duty(w: PinWrite): int
  {
    match w
    case NotWritten => 0
    case DigitalWrite(level) => if level != 0 then 255 else 0
    case AnalogWrite(value) => value
  }

  /** The low-pass filter: the mean of the new reading and the last value. */
  function Filter(reading: real, last: real): (r: real)
    ensures (if reading <= last then reading else last) <= r
    ensures r <= if reading <= last then last else reading
  {
    (reading + last) / 2.0
  }

  /** C's conversion of a `double` to `int`: truncation toward zero. */
  function Trunc(x: real): (n: int)
    ensures 0.0 <= x ==> n as real <= x < n as real + 1.0
    ensures x < 0.0 ==> n as real - 1.0 < x <= n as real
  {
    if 0.0 <= x then x.Floor else -((-x).Floor)
  }

  /** The pin write of one service call for the filtered temperature `current`. */
  function Output(enabled: bool, current: real, setTemp: int): PinWrite
  {
    if !enabled then DigitalWrite(0)
    else if current > (setTemp + PwmDeltaDeg) as real then DigitalWrite(1)
    else if current > (setTemp - PwmDeltaDeg) as real then
      AnalogWrite(Trunc(128.0 + (127.0 * (current - setTemp as real)) / (PwmDeltaDeg as real)))
    else DigitalWrite(0)
  }

  /** The three bands: off when disabled or at least one degree below the set
      temperature, on when more than one degree above it, PWM in between
      with a value in [1, 255]. */
  lemma OutputBands(enabled: bool, current: real, setTemp: int)
    ensures !enabled ==> Output(enabled, current, setTemp) == DigitalWrite(0)
    ensures enabled && current > (setTemp + 1) as real ==> Output(enabled, current, setTemp) == DigitalWrite(1)
    ensures enabled && current <= (setTemp - 1) as real ==> Output(enabled, current, setTemp) == DigitalWrite(0)
    ensures enabled && (setTemp - 1) as real < current <= (setTemp + 1) as real ==>
      Output(enabled, current, setTemp).AnalogWrite? && 1 <= Output(enabled, current, setTemp).value <= 255
  {
  }

  /** The PWM value is 128 at the set temperature and 255 one degree above it. */
  lemma PwmAnchors(setTemp: int)
    ensures Output(true, setTemp as real, setTemp) == AnalogWrite(128)
    ensures Output(true, (setTemp + 1) as real, setTemp) == AnalogWrite(255)
  {
  }

  /** A warmer filtered temperature never gives less cooling. */
  lemma OutputMonotone(enabled: bool, c1: real, c2: real, setTemp: int)
    requires c1 <= c2
    ensures Duty(Output(enabled, c1, setTemp)) <= Duty(Output(enabled, c2, setTemp))
  {
    OutputBands(enabled, c1, setTemp);
    OutputBands(enabled, c2, setTemp);
  }

  /** The filtered value after `n` service calls that all read `reading`. */
  function Settle(reading: real, last: real, n: nat): real
    decreases n
  {
    if n == 0 then last else Settle(reading, Filter(reading, last), n - 1)
  }

  function Pow2(n: nat): (p: real)
    ensures p >= 1.0
  {
    if n == 0 then 1.0 else 2.0 * Pow2(n - 1)
  }

  /** Under a constant reading the filter halves its distance to the reading
      on every call. */
  lemma {:induction false} SettleHalvesGap(reading: real, last: real, n: nat)
    ensures Settle(reading, last, n) - reading == (last - reading) / Pow2(n)
    decreases n
  {
    if n > 0 {
      var f := Filter(reading, last);
      SettleHalvesGap(reading, f, n - 1);
      assert f - reading == (last - reading) / 2.0;
      var p := Pow2(n - 1);
      assert ((last - reading) / 2.0) / p == (last - reading) / (2.0 * p);
    }
  }

  // ----- The cooler object -----

  /** `ThermoCooler`. The temperature sensor function `gettemp` becomes the
      `reading` argument of the calls that read it; the pin is the last
      value written to it. */
  class ThermoCooler {
    const eeprom: array<bv8>
    const eepromLoc: nat
    const eeCrc: EECrc
    var enabled: bool
    var settings: CoolerSettings
    var lastTemp: real
    var output: PinWrite

    ghost predicate Valid()
      reads this
    {
      CoolerRecordSize <= eeprom.Length && eepromLoc < 0x1_0000
    }

    /** The constructor: disabled, nothing written to the pin yet; the
        object's other fields start at zero, as a static C++ object's do. */
    constructor (eeprom: array<bv8>, eepromLoc: nat, eeCrc: EECrc)
      requires CoolerRecordSize <= eeprom.Length && eepromLoc < 0x1_0000
      ensures Valid()
      ensures this.eeprom == eeprom && this.eepromLoc == eepromLoc && this.eeCrc == eeCrc
      ensures !enabled && output == NotWritten
      ensures settings == CoolerSettings(0, 0) && lastTemp == 0.0
    {
      this.eeprom := eeprom;
      this.eepromLoc := eepromLoc;
      this.eeCrc := eeCrc;
      enabled := false;
      settings := CoolerSettings(0, 0);
      lastTemp := 0.0;
      output := NotWritten;
    }

    /** `begin`: load the record, or on failure clear the filter, fall back
        to 40 degrees and save; then one service call. */
    method Begin(reading: real)
      requires Valid()
      modifies this`settings, this`lastTemp, this`output, eeprom
      ensures Valid()
      ensures CoolerLoadSucceeds(eeCrc, old(eeprom[..]), eepromLoc) ==>
        settings == LoadedCooler(old(eeprom[..])) && eeprom[..] == old(eeprom[..])
        && lastTemp == Filter(reading, old(lastTemp))
      ensures !CoolerLoadSucceeds(eeCrc, old(eeprom[..]), eepromLoc) ==>
        var reset := LoadedCooler(old(eeprom[..])).(setTemp := DefaultSetTemp);
        settings == SavedCooler(eeCrc, old(eeprom[..]), eepromLoc, reset)
        && eeprom[..] == SavedCoolerImage(eeCrc, old(eeprom[..]), eepromLoc, reset)
        && lastTemp == Filter(reading, 0.0)
      ensures output == Output(enabled, lastTemp, settings.SetTemp())
    {
      var ok := LoadSettingsFromEE();
      if !ok {
        lastTemp := 0.0;
        settings := settings.(setTemp := DefaultSetTemp);
        var _ := GenerateCrc();
        SaveSettingsToEE();
      }
      Service(reading);
    }

    /** `service`: filter the reading, write the pin, remember the filtered value. */
    method Service(reading: real)
      modifies this`lastTemp, this`output
      ensures lastTemp == Filter(reading, old(lastTemp))
      ensures output == Output(enabled, lastTemp, settings.SetTemp())
    {
      var current := (reading + lastTemp) / 2.0;
      var setTemp := settings.SetTemp();
      var delta := current - setTemp as real;
      if !enabled {
        output := DigitalWrite(0);
      } else if current > (setTemp + PwmDeltaDeg) as real {
        output := DigitalWrite(1);
      } else if current > (setTemp - PwmDeltaDeg) as real {
        var pwm := 128.0 + (127.0 * delta) / (PwmDeltaDeg as real);
        output := AnalogWrite(Trunc(pwm));
      } else {
        output := DigitalWrite(0);
      }
      lastTemp := current;
    }

    /** `loadSettingsFromEE`: copy the record's bytes from offset 0 and
        compare the stored CRC with generateCrc. */
    method LoadSettingsFromEE() returns (ok: bool)
      requires Valid()
      modifies this`settings
      ensures settings == LoadedCooler(eeprom[..])
      ensures ok == CoolerLoadSucceeds(eeCrc, eeprom[..], eepromLoc)
    {
      var raw: seq<bv8> := [];
      var i := 0;
      while i < CoolerRecordSize
        invariant 0 <= i <= CoolerRecordSize
        invariant raw == eeprom[..i]
      {
        raw := raw + [eeprom[i]];
        i := i + 1;
      }
      settings := DecodeCooler(raw);
      var crc := GenerateCrc();
      ok := settings.crc == crc;
    }

    /** `saveSettingsToEE`: store generateCrc in the record, then copy the
        record's bytes to offset 0. */
    method SaveSettingsToEE()
      requires Valid()
      modifies this`settings, eeprom
      ensures Valid()
      ensures settings == SavedCooler(eeCrc, old(eeprom[..]), eepromLoc, old(settings))
      ensures eeprom[..] == SavedCoolerImage(eeCrc, old(eeprom[..]), eepromLoc, old(settings))
    {
      var crc := GenerateCrc();
      settings := settings.(crc := crc);
      var raw := EncodeCooler(settings);
      var i := 0;
      while i < CoolerRecordSize
        invariant 0 <= i <= CoolerRecordSize
        invariant settings == SavedCooler(eeCrc, old(eeprom[..]), eepromLoc, old(settings))
        invariant forall j :: 0 <= j < eeprom.Length ==>
          eeprom[j] == if j < i then raw[j] else old(eeprom[j])
      {
        eeprom[i] := raw[i];
        i := i + 1;
      }
      SpliceByIndex(old(eeprom[..]), 0, raw, eeprom[..]);
    }

    /** `generateCrc`: EEGenerateCrc over the two bytes at `eepromLoc`. */
    method GenerateCrc() returns (crc: bv32)
      requires Valid()
      ensures crc == eeCrc(eeprom[..], eepromLoc, CoolerCrcLen)
    {
      crc := eeCrc(eeprom[..], eepromLoc, CoolerCrcLen);
    }

    /** `getTemp`: the filtered temperature. */
    method GetTemp() returns (t: real)
      ensures t == lastTemp
    {
      t := lastTemp;
    }

    /** `disable`: clears only the flag; the pin keeps its last value until
        the next service call. */
    method Disable()
      modifies this`enabled
      ensures !enabled
    {
      enabled := false;
    }

    /** `enable`: sets only the flag. */
    method Enable()
      modifies this`enabled
      ensures enabled
    {
      enabled := true;
    }
  }
}
