# KittyFeeder2 core, modelled in Dafny

KittyFeeder2 is an Arduino cat feeder. It has two feed compartments, each
with a servo-driven door that opens at a scheduled time of day, plus a
Peltier cooler, a menu driven by five buttons and a piezo that plays short
melodies. This project models the logic of four parts of its firmware and
proves properties about that logic:

- **Feed compartment** (`FeedCompart.h`): the settings record stored in
  EEPROM with its CRC, and the load and save loops that copy it.
  - The CRC is a nibble-table CRC, computed the way `generateCrc` does it.
  - The door state machine `CLOSED → OPENING → OPEN → CLOSING` is run by
    `service`. A feed cycle ends by clearing `enabled` and saving.
  - The model has two layers. Functions on plain values define the
    behaviour (`ServiceStep`, `SettingsCrc`, `LoadedSettings`,
    `SavedImage`). The class `FeedCompart` has the source's fields and
    methods, and each method is proved to compute exactly what the matching
    function says.
- **Thermo cooler** (`ThermoCooler.cpp`): a two-tap low-pass filter on the
  temperature, and a three-band output.
  - The output is digital on more than one degree above the set
    temperature, and digital off at or below one degree under it.
  - Between the two it is PWM, with value `(int)(128 + 127·delta)`.
  - The set temperature has its own EEPROM record.
- **Input handler** (`InputHandler.h`): the dispatch on the current handler,
  the button priority of the menu navigator, and the weekday selector of
  the feeder menus. What a handler does to the menu system and to the
  compartments is returned as an ordered list of effects.
- **Sound player** (`SoundPlayer.h`): the melody sequencer (`play` and
  `service`) and the three built-in melodies. Calls to the tone driver are
  recorded in a log.

The files are `bytes.dfy`, `feed_crc.dfy`, `feed_compart.dfy`,
`thermo_cooler.dfy`, `input_handler.dfy` and `sound_player.dfy`, one module
each. `Bytes` holds the little-endian layout the AVR gives to multi-byte
fields. `FeedCrc` holds the compartment's CRC loop and a bit-at-a-time
reference CRC-32.

Hardware and library calls become inputs, outputs or fields:

- The EEPROM is an `array<bv8>` shared with the objects that use it.
- The door servo is an integer field holding the position last written.
  `Servo::read` is taken to return that value.
- The cooler pin holds the last `digitalWrite` or `analogWrite`.
- The tone driver is a log of `toneAC2` and `noToneAC2` calls.
- The following become arguments of the calls that read them: `now()`, the
  scheduled time `makeTime` builds from it, `millis()`, the temperature
  sensor, and the value handed to `map` as elapsed time.

## Behaviour as written

The model follows the code as written, including where it does not do what
its comments say. Lemmas exhibit each case:

- `generateCrc` complements the register after every byte, not once at the
  end. On the byte `0x00` it agrees with CRC-32 (`FeedCrc.OneByteMatchesStandard`). On two bytes it does not:
  `0x00 0x00` gives `0x6C24028D`, where CRC-32 gives `0x41D912FF`
  (`FeedCrc.TwoBytesDifferFromStandard`).
- The CRC loop runs from `eepromLoc` up to the absolute index
  `sizeof(settings) - 4 = 8`.
  - The record at offset 0 is checked over its first eight bytes.
  - A record at offset 8 or beyond is not checked at all: the CRC is always
    `0xFFFFFFFF` (`HighRecordIsUnchecked`).
  - Within its range the CRC does catch corruption. A record that loaded
    fails to load once only its stored CRC changes
    (`CrcFieldCorruptionDetected`), or once exactly one byte the loop covers
    changes (`DataByteCorruptionDetected`). The second rests on each loop
    iteration losing nothing of the register or of the byte, because the 16
    table entries differ in their top four bits.
- `saveSettingsToEE` stores the CRC of the EEPROM as it was before the
  write. A load right after a save can therefore fail (`SaveCanBreakLoad`).
  A second save of the same record repairs it (`SaveTwiceLoads`).
- The `OPEN` guard compares the absolute time `curr` with the length of the
  open window. For any real date the guard holds on the next call, so the
  door starts closing at once (`FeedCycleScenario`). The `CLOSED` guard
  ignores the weekday field.
- The `CLOSED` guard asks for the scheduled time `T` to lie in
  `[curr, curr + 60·DOOR_OPEN_TIME)`. Read from the clock's side, the door
  opens when `curr` lies in `(T − 60·DOOR_OPEN_TIME, T]`: up to a whole
  window before the scheduled time, and never after it
  (`ClosedGuardPrecedesSchedule`). With a 15-minute window and a door
  scheduled for 08:00, the first call at 07:45:01 or later opens it.
- `service` writes `year(curr)` into `tmElements_t.Year`. By TimeLib's
  documented convention `year()` returns the calendar year, while `Year` is
  a `uint8_t` that `makeTime` reads as an offset from 1970. The scheduled
  time then lands about two centuries after `curr`, so for any real date the
  `CLOSED` guard never holds and the door never opens. TimeLib is not part
  of this model, so this is a reading of its documented convention. The
  model takes the scheduled time as an input and does not capture it.
- The cooler loads and saves its record at EEPROM offset 0, not at
  `eepromLoc`. That is where the first compartment's record lives, so a
  cooler save overwrites that compartment's `enabled` flag and schedule
  (`CoolerSaveOverwritesFirstCompartment`). If the cooler's CRC range does
  not overlap the record, its own save and load do round-trip
  (`CoolerRoundTripsAwayFromCrcRange`).
- The cooler's CRC is `EEGenerateCrc(eepromLoc, 2)`, while its record is
  copied from offset 0. When `eepromLoc` is 6 or more, the set temperature
  is covered by no CRC at all: changing either of its bytes changes the
  loaded set temperature and leaves the load's result as it was
  (`CoolerSetTempUnchecked`). The cooler's own record is unchecked.
- `map` is handed `millis - msStateChange`. In the source this is the
  address of the function `millis`, not a call to it. Here it is an
  unconstrained input.

## Model

| member | source | states |
|---|---|---|
| Bytes.Le32RoundTrip | FeedCompart.h:27 | decoding the four little-endian bytes of a `uint32_t` gives the value back |
| Bytes.FromLe32RoundTrip | FeedCompart.h:27 | any four bytes are the encoding of the word they decode to |
| Bytes.Int16Of | ThermoCooler.h:21 | the 16-bit `int` read from a bit pattern lies in [-32768, 32767] and differs from the unsigned reading by 0 or 65536 |
| Bytes.Splice | FeedCompart.h:169-172 | writing a record at an offset keeps the size and every byte outside the record, and puts the record's bytes in place |
| FeedCrc.FoldReadsOnlyRange | FeedCompart.h:186-190 | a byte-by-byte loop over an index range, whatever its step, depends only on the bytes in that range |
| FeedCrc.ByteStep | FeedCompart.h:187-189 | one loop iteration: the table step on the byte's low nibble, then on its high nibble, then the complement; the definition that `ByteStepInjectiveInRegister` and `ByteStepInjectiveInByte` are about |
| FeedCrc.CrcOver | FeedCompart.h:185-190 | the loop from the all-ones seed over an index range of the EEPROM; the definition that `CrcReadsOnlyRange`, `CrcAppend`, `CrcDetectsOneByte` and the concrete CRC lemmas are about |
| FeedCrc.CrcOfEmptyRange | FeedCompart.h:185-186 | when the loop does not run, the CRC is the all-ones seed |
| FeedCrc.CrcReadsOnlyRange | FeedCompart.h:186-190 | the CRC depends only on the EEPROM bytes in its index range |
| FeedCrc.CrcAppend | FeedCompart.h:186-190 | one more loop iteration is one more byte step on the next EEPROM byte |
| FeedCrc.TableIsNibbleTableOfPoly | FeedCompart.h:178-183 | each of the 16 table entries is four shift-register steps of polynomial 0xEDB88320 on its index |
| FeedCrc.OneByteMatchesStandard | FeedCompart.h:176-192 | on the single byte 0x00 the loop gives the standard CRC-32, 0xD202EF8D |
| FeedCrc.TwoBytesDifferFromStandard | FeedCompart.h:189 | on 0x00 0x00 the per-byte complement gives 0x6C24028D, while standard CRC-32 gives 0x41D912FF |
| FeedCrc.CrcTableTopsDistinct | FeedCompart.h:178-183 | no two of the 16 table entries have the same top four bits |
| FeedCrc.ByteStepInjectiveInRegister | FeedCompart.h:187-189 | for a fixed byte, two registers that give the same result after one iteration are equal |
| FeedCrc.ByteStepInjectiveInByte | FeedCompart.h:187-189 | from a fixed register, two bytes that give the same result after one iteration are equal |
| FeedCrc.FoldDetectsOneByte | FeedCompart.h:186-190 | a byte loop whose step loses nothing of the register or of the byte gives a different result when exactly one byte of its range differs |
| FeedCrc.CrcDetectsOneByte | FeedCompart.h:185-190 | changing exactly one byte inside the loop's index range always changes the CRC |
| FeedCompartment.DecodeEncode | FeedCompart.h:21-28 | reading back the bytes of a record gives the record |
| FeedCompartment.EncodeDecode | FeedCompart.h:21-28 | any 12 bytes are the layout of the record they decode to |
| FeedCompartment.SettingsCrc | FeedCompart.h:176-192 | what `generateCrc` returns: the CRC over [eepromLoc, 8); the definition that `HighRecordIsUnchecked`, `CrcAfterSave`, `SplicedCrcIgnoresBase` and `FeedCompart.GenerateCrc` are about |
| FeedCompartment.LoadedSettings | FeedCompart.h:154-162 | the record `loadSettingsFromEE` copies from `eepromLoc`; the definition that `LoadAfterSave`, `HighRecordRoundTrips` and `FeedCompart.LoadSettingsFromEE` are about |
| FeedCompartment.LoadSucceeds | FeedCompart.h:154-162 | the result of `loadSettingsFromEE`, the stored CRC against `generateCrc`; the definition that `LoadAfterSave`, `HighRecordIsUnchecked`, `SaveTwiceLoads`, `SaveCanBreakLoad` and the corruption lemmas are about |
| FeedCompartment.SavedSettings | FeedCompart.h:164-173 | the record after `saveSettingsToEE`, carrying the CRC of the old contents; the definition that `SaveConfinesChanges`, `LoadAfterSave` and `FeedCompart.SaveSettingsToEE` are about |
| FeedCompartment.SavedImage | FeedCompart.h:164-173 | the EEPROM after `saveSettingsToEE`; the definition that `SaveConfinesChanges`, `LoadAfterSave`, `SaveTwiceLoads` and `FeedCompart.SaveSettingsToEE` are about |
| FeedCompartment.SaveConfinesChanges | FeedCompart.h:169-172 | a save writes exactly the record's 12 bytes at `eepromLoc` and leaves every other byte alone |
| FeedCompartment.LoadAfterSave | FeedCompart.h:154-173 | a load after a save reads the saved record back, and succeeds iff the CRC of the new contents equals the CRC the save stored |
| FeedCompartment.HighRecordIsUnchecked | FeedCompart.h:186 | for a record at offset 8 or more the CRC is the seed, and a load succeeds iff the stored CRC bytes are all 0xFF |
| FeedCompartment.HighRecordRoundTrips | FeedCompart.h:164-173 | such a record loads back after a save, with CRC 0xFFFFFFFF |
| FeedCompartment.CrcAfterSave | FeedCompart.h:167-171 | after a save, the CRC covers the leading bytes of the saved record, whatever CRC value the save stored |
| FeedCompartment.SplicedCrcIgnoresBase | FeedCompart.h:164-190 | once a record reaching index 8 is written at `eepromLoc`, the CRC no longer depends on what the EEPROM held before |
| FeedCompartment.SaveTwiceLoads | FeedCompart.h:164-173 | after two saves of the same record, the load succeeds |
| FeedCompartment.SaveCanBreakLoad | FeedCompart.h:167 | over an all-zero EEPROM, saving an enabled record at offset 0 stores CRC 0x3D8F522A while the written bytes have CRC 0xF12552B4, so the load fails |
| FeedCompartment.CrcFieldCorruptionDetected | FeedCompart.h:154-162 | a record that loaded successfully fails to load once its stored CRC bytes change and nothing else does |
| FeedCompartment.DataByteCorruptionDetected | FeedCompart.h:154-162 | a record that loaded successfully fails to load once exactly one byte inside the CRC range changes |
| FeedCompartment.TruncDiv | FeedCompart.h:129-130 | C integer division, truncating toward zero; the definition that `MapStaysBetween` and its quotient lemmas are about |
| FeedCompartment.ArduinoMap | FeedCompart.h:112-113 | Arduino `map` with `long` arithmetic and truncating division; the definition that `MapStaysBetween` and `MovingDoorStaysBetween` are about |
| FeedCompartment.MapStaysBetween | FeedCompart.h:112-113 | Arduino `map` from [0, span] sends 0 to the first output bound and span to the second, and stays between the two bounds |
| FeedCompartment.DisabledIsNoOp | FeedCompart.h:89 | with `enabled` clear, `service` changes nothing and finishes no cycle |
| FeedCompartment.AtMostOneStep | FeedCompart.h:101-144 | one call stays in the same state or moves to the next state of the cycle; an enabled call never leaves an invalid state; a cycle finishes iff the call goes from CLOSING to CLOSED |
| FeedCompartment.ClosedGuard | FeedCompart.h:103-108 | CLOSED becomes OPENING, stamped with `millis()`, iff the scheduled time lies in [curr, curr + 60·DOOR_OPEN_TIME); otherwise nothing changes |
| FeedCompartment.ClosedGuardPrecedesSchedule | FeedCompart.h:104 | the guard holds iff `curr` lies in (T − 60·DOOR_OPEN_TIME, T] for the scheduled time T; the door opens at T − 60·DOOR_OPEN_TIME + 1 and stays closed at any time after T |
| FeedCompartment.OpeningMoves | FeedCompart.h:110-118 | OPENING writes the `map`ped position while the servo is not at `openDeg`, and becomes OPEN, stamped, once it is |
| FeedCompartment.OpenWindowHit | FeedCompart.h:104 | the `CLOSED` guard; the definition that `ClosedGuard` and `ClosedGuardPrecedesSchedule` are about |
| FeedCompartment.OpenTimeOver | FeedCompart.h:121 | the `OPEN` guard on absolute `curr`; the definition that `OpenGuard` is about |
| FeedCompartment.OpenGuard | FeedCompart.h:120-125 | OPEN becomes CLOSING, stamped, iff `curr >= 60·DOOR_OPEN_TIME`; otherwise nothing changes |
| FeedCompartment.ClosingMoves | FeedCompart.h:127-138 | CLOSING writes the `map`ped position while the servo is not at `closeDeg`; once it is, the door is CLOSED and the cycle is finished |
| FeedCompartment.InvalidFallsBack | FeedCompart.h:140-143 | an out-of-range state becomes CLOSED, stamped, and the servo is not moved |
| FeedCompartment.ServiceStep | FeedCompart.h:87-147 | one call of `service` on the door state; the definition that `AtMostOneStep`, the guard lemmas and `FeedCompart.Service` are about |
| FeedCompartment.MovingDoorStaysBetween | FeedCompart.h:110-130 | while the elapsed-time input lies in [0, DOOR_SPEED], a moving door is written a position between `closeDeg` and `openDeg` |
| FeedCompartment.FinishedCycleStaysClosed | FeedCompart.h:133-136 | after a finished cycle, no sequence of further calls moves the door until `enabled` is set again |
| FeedCompartment.DisabledRunIsIdle | FeedCompart.h:89 | any sequence of calls with `enabled` clear leaves the door as it was |
| FeedCompartment.FeedCycleScenario | FeedCompart.h:87-147 | with the header's constants, six calls take a closed door through OPENING, OPEN and CLOSING back to CLOSED, with `enabled` cleared |
| FeedCompartment.FeedCompart.constructor | FeedCompart.h:60-78 | the servo is attached and closed, the door is CLOSED with timestamp 0, and the settings are loaded; if the load fails, the schedule time becomes now, `enabled` is cleared and the settings are saved |
| FeedCompartment.FeedCompart.Destroy | FeedCompart.h:80-85 | the servo is written `closeDeg` and detached, and the settings are saved |
| FeedCompartment.FeedCompart.GenerateCrc | FeedCompart.h:176-192 | returns the CRC of the EEPROM bytes from `eepromLoc` up to index 8 |
| FeedCompartment.FeedCompart.LoadSettingsFromEE | FeedCompart.h:154-162 | `settings` becomes the record at `eepromLoc`, and the result is whether its stored CRC equals `generateCrc` |
| FeedCompartment.FeedCompart.SaveSettingsToEE | FeedCompart.h:164-173 | `settings.crc` becomes the CRC of the old contents, and the EEPROM becomes the old contents with the record written at `eepromLoc` |
| FeedCompartment.FeedCompart.WriteRecord | FeedCompart.h:169-172 | the record's bytes are written from `eepromLoc` on, and no other byte changes |
| FeedCompartment.FeedCompart.Service | FeedCompart.h:87-147 | the door fields become what the state machine step gives; a finished cycle clears `enabled` and saves, and otherwise the settings and the EEPROM are unchanged |
| ThermoCooling.DecodeEncodeCooler | ThermoCooler.h:19-23 | reading back the six bytes of a cooler record gives the record |
| ThermoCooling.EncodeDecodeCooler | ThermoCooler.h:19-23 | any six bytes are the layout of the cooler record they decode to |
| ThermoCooling.LoadedCooler | ThermoCooler.cpp:48-57 | the record `loadSettingsFromEE` copies from offset 0; the definition that `CoolerLoadAfterSave`, `CoolerSetTempUnchecked` and `ThermoCooler.LoadSettingsFromEE` are about |
| ThermoCooling.CoolerLoadSucceeds | ThermoCooler.cpp:48-57 | the stored CRC against `EEGenerateCrc(eepromLoc, 2)`; the definition that `CoolerLoadAfterSave`, `CoolerRoundTripsAwayFromCrcRange` and `CoolerSetTempUnchecked` are about |
| ThermoCooling.SavedCooler | ThermoCooler.cpp:60-69 | the record after `saveSettingsToEE`, carrying `EEGenerateCrc` of the old contents; the definition that `CoolerLoadAfterSave` and `ThermoCooler.SaveSettingsToEE` are about |
| ThermoCooling.SavedCoolerImage | ThermoCooler.cpp:60-69 | the EEPROM after `saveSettingsToEE`, with six bytes written at offset 0; the definition that `CoolerLoadAfterSave`, `CoolerRoundTripsAwayFromCrcRange` and `CoolerSaveOverwritesFirstCompartment` are about |
| ThermoCooling.CoolerLoadAfterSave | ThermoCooler.cpp:48-69 | a load after a save reads the saved record back, and succeeds iff `EEGenerateCrc` gives the same value before and after the write |
| ThermoCooling.CoolerRoundTripsAwayFromCrcRange | ThermoCooler.cpp:60-74 | when the CRC covers only bytes past offset 6, its value is unchanged by the write, so a save then a load succeeds |
| ThermoCooling.CoolerSetTempUnchecked | ThermoCooler.cpp:50-56 | with the CRC range at 6 or beyond, changing either byte of the set temperature changes the loaded set temperature and leaves the load's result unchanged |
| ThermoCooling.CoolerSaveOverwritesFirstCompartment | ThermoCooler.cpp:65-68 | after a cooler save, the compartment record at offset 0 loads the set temperature's low byte as `enabled` and its high byte as the schedule's second |
| ThermoCooling.Filter | ThermoCooler.cpp:29 | the filtered value lies between the new reading and the last value |
| ThermoCooling.Trunc | ThermoCooler.cpp:40 | the `(int)` conversion truncates toward zero: within one below a non-negative value, within one above a negative one |
| ThermoCooling.Output | ThermoCooler.cpp:32-43 | the pin write for a filtered temperature; the definition that `OutputBands`, `PwmAnchors` and `OutputMonotone` are about |
| ThermoCooling.OutputBands | ThermoCooler.cpp:32-43 | disabled gives digital 0; more than one degree above the set temperature gives digital 1; one degree or more below gives digital 0; in between, PWM with a value in [1, 255] |
| ThermoCooling.PwmAnchors | ThermoCooler.cpp:37-40 | the PWM value is 128 at the set temperature and 255 one degree above it |
| ThermoCooling.OutputMonotone | ThermoCooler.cpp:32-43 | a warmer filtered temperature never gives a lower duty cycle |
| ThermoCooling.SettleHalvesGap | ThermoCooler.cpp:29-45 | under a constant reading, each service call halves the distance between the filtered value and the reading |
| ThermoCooling.ThermoCooler.constructor | ThermoCooler.cpp:4-10 | the cooler starts disabled, with nothing yet written to its pin |
| ThermoCooling.ThermoCooler.Begin | ThermoCooler.cpp:12-24 | a successful load keeps the EEPROM; a failed one zeroes the filter, sets 40 degrees and saves; in both cases the pin then gets one service call's output |
| ThermoCooling.ThermoCooler.Service | ThermoCooler.cpp:26-46 | `last_temp` becomes the mean of the reading and its old value, and the pin gets the band output for that value |
| ThermoCooling.ThermoCooler.LoadSettingsFromEE | ThermoCooler.cpp:48-57 | `settings` becomes the record at offset 0, and the result is whether its CRC equals `EEGenerateCrc(eepromLoc, 2)` |
| ThermoCooling.ThermoCooler.SaveSettingsToEE | ThermoCooler.cpp:60-69 | `settings.crc` becomes `EEGenerateCrc` of the old contents, and the record's six bytes are written at offset 0 |
| ThermoCooling.ThermoCooler.GenerateCrc | ThermoCooler.cpp:71-75 | returns `EEGenerateCrc` of the two bytes at `eepromLoc` |
| ThermoCooling.ThermoCooler.GetTemp | ThermoCooler.cpp:77-80 | returns the filtered temperature |
| ThermoCooling.ThermoCooler.Disable | ThermoCooler.cpp:82-85 | clears the enable flag and changes nothing else |
| ThermoCooling.ThermoCooler.Enable | ThermoCooler.cpp:87-90 | sets the enable flag and changes nothing else |
| Input.WeekdayUp | InputHandler.h:82 | 7 goes to 1, days 1..7 stay in 1..7, any other value goes up by one, and the `uint8_t` 255 wraps to 0 |
| Input.WeekdayDown | InputHandler.h:83 | 1 goes to 7, days 1..7 stay in 1..7, any other value goes down by one, and the `uint8_t` 0 wraps to 255 |
| Input.SelectWeekday | InputHandler.h:81-84 | up takes priority over down, and with neither pressed the weekday is written back unchanged |
| Input.WeekdayUpDownInverse | InputHandler.h:82-83 | on days 1..7, down undoes up and up undoes down |
| Input.WeekdayUpCounts | InputHandler.h:82 | n presses of up from a day in 1..7 count forward modulo 7 |
| Input.WeekdayDownCounts | InputHandler.h:83 | n presses of down from a day in 1..7 count backward modulo 7 |
| Input.WeekdayWeekCycle | InputHandler.h:82-83 | seven presses of either button return to the same day |
| Input.NavigatorEffects | InputHandler.h:62-68 | at most one menu call: select if select or right is pressed, else back on left, else prev on up, else next on down, and none iff no button is pressed |
| Input.FeederEffects | InputHandler.h:71-86 | left saves that compartment and then goes back; in every case the selected weekday is then written back to the same compartment |
| Input.HandleInput | InputHandler.h:35-60 | the selected handler's effects come first, followed by one extra effect iff a button was pressed |
| Input.HandlerEffects | InputHandler.h:39-58 | the dispatch on the current handler; the definition that `DispatchTargets` and `HandleInput` are about |
| Input.DisplayIffPressed | InputHandler.h:59 | the menu is redrawn iff a button was pressed, exactly once and as the last effect |
| Input.DispatchTargets | InputHandler.h:39-58 | the navigator only moves the menu, feeder menu 1 touches only compartment 0, feeder menu 2 touches only compartment 1, and the null and unknown handlers do nothing |
| Input.FeederKeepsWeekdayInRange | InputHandler.h:81-84 | when both compartments' weekdays are in 1..7, every weekday written back is in 1..7 |
| Sound.PlayStep | SoundPlayer.h:142-149 | after `play`, the sequencer invariant holds |
| Sound.ServiceStep | SoundPlayer.h:124-140 | a service call keeps the sequencer invariant (index within the arrays, below `len`, or 0, while playing, 0 when idle) and makes at most one tone call |
| Sound.ServiceWaits | SoundPlayer.h:127 | when idle, or before the current note's time is up, service changes nothing and makes no tone call |
| Sound.ServiceAdvances | SoundPlayer.h:129-137 | once the time is up, the index goes up by exactly one, the timer restarts and that note is started; past the last note, the tone stops and the player is idle at index 0 |
| Sound.StepKeepsConsistent | SoundPlayer.h:124-140 | a service call keeps the tone log equal to the notes so far, in order |
| Sound.RunKeepsConsistent | SoundPlayer.h:124-140 | any sequence of service calls keeps the tone log equal to the notes so far, in order |
| Sound.MelodyPlaysInOrder | SoundPlayer.h:124-149 | after `play`, for any call times, the tone calls are the melody's notes in order with their durations, never one past `len`, then one stop |
| Sound.BuiltInMelodies | SoundPlayer.h:175-188 | the boot, close and open melodies have 7, 3 and 3 notes and fit MAX_NOTES; they last 800, 7000 and 7000 ms; open plays close's notes in reverse order, with the same durations |
| Sound.SoundPlayer.constructor | SoundPlayer.h:116-122 | nothing is playing, the index is 0 and no tones have been played |
| Sound.SoundPlayer.Play | SoundPlayer.h:142-149 | the melody becomes current with index 0 and the timer at now, and its first note is started |
| Sound.SoundPlayer.Service | SoundPlayer.h:124-140 | the fields and the tone log advance exactly as one sequencer step gives, and the invariant is kept |

## Left out

- Hardware drivers. The model does not include `Servo` attach/detach pulses, `Servo::write`'s clamping to [0, 180], `pinMode`, the pin numbers, or the timing of `toneAC2`. Reason: they are library code outside this repository. The servo is the last position written.
- TimeLib calendar arithmetic. `now`, `breakTime`, `makeTime`, `day`, `month` and `year` are not modelled. Reason: calendar code is not part of this model. `service` is given the current time and the scheduled time as integers.
- 32-bit `long` overflow inside `map`, and wrap-around of `millis()` and `time_t`. Reason: the model uses unbounded integers for these.
- Floating point. ThermoCooler's `double` arithmetic is idealised as `real`, so rounding is not modelled.
- 16-bit overflow of `set_temp ± TC_PWM_DELTA_DEG`. Reason: the set temperature is compared as an unbounded integer.
- ThermoCooling.ThermoCooler.constructor: also states that `last_temp` and `settings` start at zero. ThermoCooler.cpp:4-10 does not set them; they are zero only for an object with static storage duration.
- Sound.SoundPlayer.constructor: also states that `_start` starts at 0. SoundPlayer.h:116-122 does not set it; it is zero only for an object with static storage.
- `anyBtnWasPressed` (InputHandler.h:29) is declared extern and its body is not part of this model. It is taken to be the OR of the five buttons' `wasPressed` values (`Input.Buttons.AnyPressed`).
- The body of `EEGenerateCrc`. It is declared in FeederUtils.h but its definition is not part of this model. The cooler is given it as a function of the EEPROM contents, start and length.
- `getServo`, the menu system `ms`, the `Button` library and logging (`DEBUG`/`ERROR`). Reason: their bodies are not part of this model. Button presses are inputs, and menu calls are effects.
- `getWeekDay` and `setWeekDay`, which the feeder menu handler calls. FeedCompart.h declares neither, so the weekday read is an input and the write is an effect.
- Sound.ServiceStep: `service` reads `millis()` twice, once for the due test (SoundPlayer.h:127) and once for the new start (SoundPlayer.h:136). The model takes one `now` for both, so the two reads are taken to agree; the same holds for `Sound.SoundPlayer.Service`.
- FeedCompartment.FeedCycleScenario: its scheduled value 28830 is chosen to lie in the guard's window. Under TimeLib's convention for `year()` and `tmElements_t.Year`, the source would not produce such a value for a real date.
- `serviceButtons`. Reason: it is library code; button presses are taken as already serviced.
- The ThermoCooler.h members `getSetTemp`, `setTemp`, `getPwmPercent`, `isEnabled` and the field `pwmPercent`. Reason: the source never defines or sets them.
- `SoundPlayer::click`. Reason: it is pin toggling with a delay. The note-frequency table is included only for the seven notes the melodies use.
- `StorageMenu`. Reason: it is a menu node holding an untyped pointer, with no logic of its own.
- Sound.MelodyPlaysInOrder: requires a melody with at least one note, and so does `Sound.Consistent`. With `len` 0, `play` still starts note 0 and the next due `service` stops it; that case is not covered.
- The code has no weekday match, no `locked` flag, no clamping of settings fields and no duty percentage; the model adds none of them.
- A general proof that the nibble table loop equals the bitwise CRC for all register values. The table is proved entry by entry, and the two algorithms are compared on concrete inputs.
