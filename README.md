# NMEA sentence decoding, modelled in Dafny

This project models the decoding core of `gps_nmea_lib`, a small C++ library.
The library reads NMEA 0183 sentences from a GPS receiver into plain records.
The model covers two parts of `nmea/nmea.cpp`:

- the field interpreters of class `nmea`: `talker`, `system`, `coord`, `dir`,
  `time`, `date`, `valid` and `qual`;
- the five decoders `gll::from_data`, `gga::from_data`, `gsa::from_data`,
  `gsv::from_data` and `rmc::from_data`, together with the records they fill
  (`nmea/nmea.h`).

The modules follow the program's structure:

| file | module | what it holds |
|---|---|---|
| `text.dfy` | `Text` | `Option`; the comma split of C++20 `std::views::split`; the cut at the first `*`; `std::stoi` and `std::stof` on the inputs they accept |
| `records.dfy` | `Records` | the types of `nmea.h`: talker ids, directions, quality codes, times of day in milliseconds, dates, angles, and one record per sentence |
| `nmea.dfy` | `Nmea` | the eight interpreters, each with its inverse or its reference, and the readings of the example sentences |
| `walk.dfy` | `Walks` | the loop every decoder runs over the fields, as a fold (`Walk`), with the lemmas shared by all decoders |
| `gll.dfy`, `gga.dfy`, `rmc.dfy`, `gsa.dfy`, `gsv.dfy` | `GllSentence` … `GsvSentence` | one decoder each: the arms of its switch, a `Reading` function, a class with `Store` and `FromData`, and the lemmas |

## How a decoder is modelled

Each decoder splits its text at commas and runs a `switch` on the field
position. An arm either writes what its word says into the record, or throws
(`std::stoi`/`std::stof` on text they cannot read) or fails an `assert`
(`dir`, `valid`).

- `Step(r, field, word)` is one turn of that switch on a record value. `None`
  stands for the throw or the failed assert.
- `Walk` folds `Step` over the fields. It stops at the first `None`, and the
  record keeps every write made before that point (`Walked(rec, aborted)`).
- `Verdict` is the return statement: `true` exactly when every field was
  walked and there were as many as the sentence format has.

Each record type is also a class whose fields `from_data` updates in place.
`Store(field, word)` is one turn of the switch. The static `FromData(data, x)`
runs the `while` loop over the words. Its contract says that the object ends
up holding the walk of its old contents and that the result is the verdict.
For GSA and GSV, the satellite table is a fixed `array` of 12 or 4 entries, as
`std::array` is in the source.

`Reading(words)` says, field by field, what a well-formed sentence means.
`WalkReading` proves that the walk aborts exactly when `Reading` fails, and
otherwise yields `Reading`, whatever the record held before. `Success` lifts
this to `from_data` returning `true`.

Floats are modelled exactly:

- a `Decimal(digits, scale)` is the number `stof` was given;
- an `Angle` is degrees plus minutes over 60, with a sign;
- `Degrees` gives the real number a `float` approximates.

## Model

| member | source | states |
|---|---|---|
| Text.Split | nmea/nmea.cpp:113 | the pieces of the text between commas, none holding a comma; no pieces at all exactly when the text is empty |
| Text.SplitCount | nmea/nmea.cpp:113 | a non-empty text has one field more than it has commas; the empty text has no fields |
| Text.SplitJoin | nmea/nmea.cpp:113 | joining the pieces with commas gives back the text, so nothing is lost or reordered |
| Text.JoinSplit | nmea/nmea.cpp:113 | splitting a comma-join of comma-free words gives back exactly those words |
| Text.Pieces | nmea/nmea.cpp:113 | a text always has at least one piece, none holding a comma |
| Text.PiecesCount | nmea/nmea.cpp:113 | a text has one piece more than it has commas |
| Text.PiecesOfJoin | nmea/nmea.cpp:113 | the pieces of a comma-join of comma-free words are those words |
| Text.Before | nmea/nmea.cpp:198 | the prefix up to the first `*`: holds no `*`, and is followed by `*` whenever it is shorter than the text |
| Text.BeforeFirst | nmea/nmea.cpp:198 | cutting `p*q` with `p` free of `*` gives `p`, whatever `q` holds |
| Text.BeforeAbsent | nmea/nmea.cpp:198 | a text without `*` is kept whole, as `find` returning npos does |
| Text.ChecksumIgnored | nmea/nmea.cpp:198 | the GSA and GSV decoders never look at the checksum or anything else after the first `*`: the text they split is the same whatever follows it |
| Text.DigitsValue | nmea/nmea.cpp:180 | the value of a digit string is below 10 to the power of its length |
| Text.NatTextValue | nmea/nmea.cpp:180 | the decimal text of n reads back as n |
| Text.TwoDigitsValue | nmea/nmea.cpp:81-83 | a two-digit zero-padded text reads back as its number |
| Text.Stoi | nmea/nmea.cpp:180 | stoi reads only a text that starts with a digit, and its value fits an int |
| Text.StoiDigits | nmea/nmea.cpp:180 | a string of up to nine digits reads as its decimal value |
| Text.StoiBound | nmea/nmea.cpp:81-84 | a text of n characters reads as a value below 10 to the n |
| Text.StoiIgnoresRest | nmea/nmea.cpp:180 | stoi stops at the first non-digit: what follows the digits is ignored |
| Text.StoiNatText | nmea/nmea.cpp:180 | every int-sized number survives being written out and read back by stoi |
| Text.ReadDigitsValue | nmea/nmea.cpp:180 | reading digits onto an accumulator shifts the accumulator and adds the digits' value |
| Text.DigitsAppend | nmea/nmea.cpp:184 | the value of two digit strings joined is the first shifted by the second's length plus the second |
| Text.DecimalNonNegative | nmea/nmea.cpp:184 | a number stof reads without a sign is never negative |
| Text.Stof | nmea/nmea.cpp:184 | stof reads nothing from the empty text, and a plain digit string reads as that whole number |
| Text.StofReads | nmea/nmea.cpp:184 | stof succeeds exactly when the text starts with a digit, or with a point followed by a digit |
| Text.StofStopsAtLetter | nmea/nmea.cpp:184 | digits followed by a letter read as the digits alone: the model's stof stops at the first character that is neither a digit nor the point |
| Text.ExponentAndHex | nmea/nmea.cpp:184 | in the model `1e5` reads as 1 and `0x1A` as 0, where `std::stof` gives 100000 and 26 (see Left out) |
| Text.StofParts | nmea/nmea.cpp:55-56 | `whole.frac` followed by a non-digit reads as the digits of whole and frac, scaled by the length of frac |
| Text.StofPoint | nmea/nmea.cpp:55-56 | `whole.frac` reads as whole shifted by the length of frac, plus frac |
| Text.PointValue | nmea/nmea.cpp:55-56 | the decimal read from `whole.frac` is worth whole plus frac divided by 10 to its length |
| Records.NegateDegrees | nmea/nmea.cpp:123 | multiplying by -1 flips the sign of the angle, and doing it twice gives the angle back |
| Nmea.Talker | nmea/nmea.cpp:18-34 | never notset; glonass, galileo, beidou, qzss or multiconstellation exactly when the text starts `$GL`, `$GA`, `$BD`, `$QZ` or `$GN`; gps otherwise |
| Nmea.TalkerOfHeader | nmea/nmea.cpp:18-34 | every id other than notset is recognised from its own three-letter header, whatever follows it |
| Nmea.Header | nmea/nmea.cpp:18-34 | the header of an id is `$` and two letters |
| Nmea.System | nmea/nmea.cpp:36-50 | never notset or multiconstellation; gps for a text that does not start with 1 to 5 |
| Nmea.SystemOfDigit | nmea/nmea.cpp:36-50 | every single-system id is recognised from its own digit, whatever follows it |
| Nmea.SystemDigit | nmea/nmea.cpp:36-50 | the digit of a system id is one of 1 to 5 |
| Nmea.Coord | nmea/nmea.cpp:52-58 | succeeds exactly when both the degrees part (the first k characters) and the minutes part (the rest) read as floats; the result is never negative |
| Nmea.CoordValue | nmea/nmea.cpp:52-58 | the value is the degrees plus the minutes divided by 60 |
| Nmea.CoordWithinDegree | nmea/nmea.cpp:52-58 | with whole-number degrees and under 60 minutes, the value lies within one degree above the degrees |
| Nmea.Dir | nmea/nmea.cpp:60-76 | succeeds exactly when the text starts with N, S, E or W; any other text fails the assert |
| Nmea.DirOfLetter | nmea/nmea.cpp:60-76 | each direction is read back from its own letter, whatever follows it |
| Nmea.Signed | nmea/nmea.cpp:118-133 | a coordinate and its direction: succeeds exactly when both read; negative exactly when the direction is the negative one given; otherwise equal to the coordinate or to its negation |
| Nmea.Time | nmea/nmea.cpp:78-86 | a time reads only from at least eight characters with a digit at positions 0, 2, 4 and 7 |
| Nmea.TimeOfText | nmea/nmea.cpp:78-86 | `hhmmss.sss` reads as hours, minutes, seconds and milliseconds added up |
| Nmea.TimeOfSlices | nmea/nmea.cpp:78-86 | the time is the sum of the four stoi readings, scaled to milliseconds |
| Nmea.TimeFields | nmea/nmea.cpp:78-86 | with minutes and seconds below 60 and milliseconds below 1000, the components of the total are the ones read |
| Nmea.TimeIgnoresSeparator | nmea/nmea.cpp:78-86 | the character at position 6 is never looked at |
| Nmea.Date | nmea/nmea.cpp:88-95 | a date reads only from at least five characters; its year is 2000 or later, its month and day below 100 |
| Nmea.DateOfText | nmea/nmea.cpp:88-95 | `ddmmyy` reads as day, month and year 2000 + yy |
| Nmea.Valid | nmea/nmea.cpp:97-101 | succeeds exactly for a text starting with A or V, and is true exactly for A |
| Nmea.ValidOfFlag | nmea/nmea.cpp:97-101 | each flag value is read back from its own letter |
| Nmea.Qual | nmea/nmea.cpp:103-108 | a quality code is an int read by stoi, so it never exceeds the int range |
| Nmea.QualOfCode | nmea/nmea.cpp:103-108 | every int-sized code is read back, including codes that name no enumerator |
| Nmea.UnnamedQuality | nmea/nmea.cpp:103-108 | code 3 is accepted although quality names only 0, 1, 2 and 6 |
| Nmea.Slot | nmea/nmea.cpp:216-221 | an empty field gives 0; a non-empty field reads only when it starts with a digit |
| Nmea.SlotDigits | nmea/nmea.cpp:216-221 | a non-empty field of up to nine digits gives its decimal value |
| Nmea.TwoDigitSlot | nmea/nmea.cpp:216-221 | a two-digit zero-padded field gives its number |
| Nmea.CoordOfParts | nmea/nmea.cpp:52-58 | the coordinate splits into the float read from the degrees text and the float read from the minutes text |
| Nmea.MinutesOfText | nmea/nmea.cpp:56 | minutes with five decimals read as their digits scaled by 10 to the 5 |
| Nmea.GllLatitude | example/main.cpp:16 | `5051.83778` reads as 50 degrees and 51.83778 minutes |
| Nmea.GllLongitude | example/main.cpp:16 | `00422.55809` reads as 4 degrees and 22.55809 minutes |
| Nmea.GgaLatitude | example/main.cpp:31 | `5051.78066` reads as 50 degrees and 51.78066 minutes |
| Nmea.GgaLongitude | example/main.cpp:31 | `00422.57079` reads as 4 degrees and 22.57079 minutes |
| Nmea.ExampleDegrees | example/main.cpp:16 | the four example angles are worth the degrees plus the minutes over 60 |
| Nmea.GllTime | example/main.cpp:16 | `185427.150` is 18:54:27.150 in milliseconds |
| Nmea.GgaTime | example/main.cpp:31 | `191237.000` is 19:12:37.000 in milliseconds |
| Nmea.RmcDate | example/main.cpp:95 | `240724` is 24 July 2024 |
| Nmea.TimeOutOfRange | nmea/nmea.cpp:78-86 | `256199.000` is accepted: hours, minutes and seconds are not range-checked, they are only added up |
| Nmea.DateOutOfRange | nmea/nmea.cpp:88-95 | `310225` is accepted as 31 February 2025: the date is not validated |
| Walks.WalkNext | nmea/nmea.cpp:113-144 | an arm that succeeds passes its record on to the next field |
| Walks.WalkStop | nmea/nmea.cpp:113-144 | an arm that throws ends the walk, aborted, with the record as it was before that arm |
| Walks.Verdict | nmea/nmea.cpp:145 | from_data returns true exactly when it did not abort and counted the expected number of fields |
| Walks.WalkSkipped | nmea/nmea.cpp:140-141 | positions that the default arm skips leave the record as it is and never abort |
| Walks.WalkTrailing | nmea/nmea.cpp:140-141 | skipped trailing positions can be dropped without changing the walk |
| Walks.WalkKeeps | nmea/nmea.cpp:113-144 | a property every arm keeps holds after the whole walk, aborted or not |
| GllSentence.ArmTable | nmea/nmea.cpp:114-142 | positions 0 to 6 go, in that order, to talker, latitude, N/S, longitude, E/W, time and valid |
| GllSentence.SkipsAfterValid | nmea/nmea.cpp:140-141 | position 7 and beyond are skipped |
| GllSentence.FromTime | nmea/nmea.cpp:134-139 | from position 5: aborts exactly when the time or the flag does not read; otherwise writes both |
| GllSentence.FromLongitude | nmea/nmea.cpp:126-139 | from position 3: aborts exactly when one of longitude, E/W, time and flag does not read; otherwise writes those four |
| GllSentence.FromLatitude | nmea/nmea.cpp:118-139 | from position 1: aborts exactly when one of latitude, N/S, longitude, E/W, time and flag does not read; otherwise writes all of them |
| GllSentence.WalkReading | nmea/nmea.cpp:113-144 | aborts exactly when a mapped field does not read; otherwise the record is what the fields say, whatever it held before |
| GllSentence.Success | nmea/nmea.cpp:111-146 | returns true exactly for 8 fields whose mapped fields all read, and the record then holds their reading |
| GllSentence.ExtraFields | nmea/nmea.cpp:140-141 | fields after the seventh change nothing in the record |
| GllSentence.IgnoresPrior | nmea/nmea.cpp:113-144 | a walk that completes gives the same record whatever the object held before |
| GllSentence.ExampleLatitude | example/main.cpp:16 | `5051.83778` with N is a positive latitude |
| GllSentence.ExampleLongitude | example/main.cpp:16 | `00422.55809` with S stays positive: only W negates a longitude |
| GllSentence.ExampleReading | example/main.cpp:16 | the fields of the example sentence read as gps, the two angles, 18:54:27.150 and not valid |
| GllSentence.Example | example/main.cpp:16 | walking the eight words of the example sentence, given as a list, gives the verdict true and leaves that reading, whatever the record held before |
| GllSentence.Gll.Store | nmea/nmea.cpp:114-142 | one turn of the switch: writes the member its position maps to, or reports the throw and writes nothing |
| GllSentence.Gll.FromData | nmea/nmea.cpp:111-146 | the object ends up holding the walk of its old contents over the fields, and the result is the verdict for 8 fields |
| GgaSentence.ArmTable | nmea/nmea.cpp:153-188 | positions 0 to 9 go to talker, time, latitude, N/S, longitude, E/W, quality, satellites, skip and altitude |
| GgaSentence.SkipsAfterAltitude | nmea/nmea.cpp:186-187 | position 10 and beyond are skipped |
| GgaSentence.FromQual | nmea/nmea.cpp:176-187 | from position 6: aborts exactly when quality, satellite count or altitude does not read; otherwise writes the three |
| GgaSentence.FromLongitude | nmea/nmea.cpp:168-187 | from position 4: aborts exactly when one of longitude, E/W, quality, satellites and altitude does not read; otherwise writes them |
| GgaSentence.FromLatitude | nmea/nmea.cpp:160-187 | from position 2: the same for latitude, N/S and everything after |
| GgaSentence.WalkReading | nmea/nmea.cpp:152-190 | aborts exactly when a mapped field does not read; otherwise the record is what the fields say |
| GgaSentence.Success | nmea/nmea.cpp:150-192 | returns true exactly for 15 fields whose mapped fields all read, and the record then holds their reading |
| GgaSentence.PartialWrite | nmea/nmea.cpp:154-162 | a bad latitude after a good time aborts with talker and time already written and the rest as it was |
| GgaSentence.ExampleAltitude | example/main.cpp:31 | `027.26` reads as 27.26 |
| GgaSentence.ExampleLatitude | example/main.cpp:31 | `5051.78066` with N is a positive latitude |
| GgaSentence.ExampleLongitude | example/main.cpp:31 | `00422.57079` with E is a positive longitude |
| GgaSentence.ExampleQuality | example/main.cpp:31 | `1` is a GPS fix |
| GgaSentence.ExampleSats | example/main.cpp:31 | `05` is five satellites |
| GgaSentence.ExampleReading | example/main.cpp:31 | the fields of the example sentence read as gps, the two angles, 19:12:37, five satellites, GPS fix and 27.26 |
| GgaSentence.Example | example/main.cpp:31 | walking the fifteen words of the example sentence, given as a list, gives the verdict true and leaves that reading |
| GgaSentence.Gga.Store | nmea/nmea.cpp:153-188 | one turn of the switch: writes the member its position maps to, or reports the throw and writes nothing |
| GgaSentence.Gga.FromData | nmea/nmea.cpp:150-192 | the object ends up holding the walk of its old contents, and the result is the verdict for 15 fields |
| RmcSentence.ArmTable | nmea/nmea.cpp:303-334 | positions 0 to 9 go to talker, time, valid, latitude, N/S, longitude, E/W, skip, skip and date |
| RmcSentence.SkipsAfterDate | nmea/nmea.cpp:332-333 | position 10 and beyond are skipped |
| RmcSentence.FromLongitude | nmea/nmea.cpp:321-333 | from position 5: aborts exactly when longitude, E/W or date does not read; otherwise writes them |
| RmcSentence.FromLatitude | nmea/nmea.cpp:313-333 | from position 3: the same for latitude, N/S and everything after |
| RmcSentence.WalkReading | nmea/nmea.cpp:302-336 | aborts exactly when a mapped field does not read; otherwise the record is what the fields say, with the speed untouched |
| RmcSentence.Success | nmea/nmea.cpp:300-338 | returns true exactly for 13 fields whose mapped fields all read, and the record then holds their reading |
| RmcSentence.ArmsKeepSpeed | nmea/nmea.cpp:303-334 | no arm of the switch writes the speed |
| RmcSentence.SpeedUntouched | nmea/nmea.h:113 | decoding never changes the speed member, whether it aborts or not |
| RmcSentence.ExampleValid | example/main.cpp:95 | `V` reads as not valid |
| RmcSentence.ExampleLatitude | example/main.cpp:95 | `5051.83778` with N is a positive latitude |
| RmcSentence.ExampleLongitude | example/main.cpp:95 | `00422.55809` with E is a positive longitude |
| RmcSentence.ExampleReading | example/main.cpp:95 | the fields of the example sentence read as gps, the two angles, 18:54:27.150, 24 July 2024 and not valid |
| RmcSentence.Example | example/main.cpp:95 | walking the thirteen words of the example sentence, given as a list, gives the verdict true and leaves that reading, with the speed unchanged |
| RmcSentence.Rmc.Store | nmea/nmea.cpp:303-334 | one turn of the switch: writes the member its position maps to, or reports the throw and writes nothing |
| RmcSentence.Rmc.FromData | nmea/nmea.cpp:300-338 | the object ends up holding the walk of its old contents, and the result is the verdict for 13 fields |
| GsaSentence.ReadSlots | nmea/nmea.cpp:204-222 | the slots read exactly when every field reads; slot i is then the reading of field i |
| GsaSentence.SkipsAfterSystem | nmea/nmea.cpp:226-227 | position 16 and beyond are skipped |
| GsaSentence.FillsAtEnd | nmea/nmea.cpp:223-225 | after the last slot, only the system id is written |
| GsaSentence.FillsStep | nmea/nmea.cpp:216-221 | writing slot i and then the later slots is filling from slot i |
| GsaSentence.FromSlot | nmea/nmea.cpp:204-225 | from slot i: aborts exactly when a later slot does not read; otherwise slots before i are kept, later slots and the system id written |
| GsaSentence.WalkReading | nmea/nmea.cpp:199-230 | aborts exactly when a slot does not read; otherwise the record is what the fields say |
| GsaSentence.Success | nmea/nmea.cpp:196-232 | returns true exactly when the text before `*` has 18 fields whose slots all read, and the record then holds their reading |
| GsaSentence.ExtraFields | nmea/nmea.cpp:226-227 | fields after the sixteenth change nothing in the record |
| GsaSentence.ExampleSystem | example/main.cpp:48 | the field at position 15, `4.7`, reads as beidou |
| GsaSentence.ExampleSlots | example/main.cpp:48 | two numbered slots followed by ten empty ones read as those two numbers and ten zeros |
| GsaSentence.Example | example/main.cpp:48 | walking the eighteen words of the example sentence before its `*`, given as a list, gives multiconstellation, system beidou, slots 15 and 18, and the verdict true |
| GsaSentence.Gsa.constructor | nmea/nmea.h:82-88 | a fresh record with its own twelve-slot table, every member unset and every slot 0 |
| GsaSentence.Gsa.Store | nmea/nmea.cpp:200-228 | one turn of the switch: a slot position writes that one slot and keeps the other eleven; a throw writes nothing |
| GsaSentence.Gsa.FromData | nmea/nmea.cpp:196-232 | the object ends up holding the walk of its old contents over the text before `*`, and the result is the verdict for 18 fields |
| GsvSentence.StepPrn | nmea/nmea.cpp:247-257 | position 4 + 4i writes the PRN of satellite i, 0 for an empty field, or throws |
| GsvSentence.StepElev | nmea/nmea.cpp:258-268 | position 5 + 4i writes the elevation of satellite i |
| GsvSentence.StepAzim | nmea/nmea.cpp:269-279 | position 6 + 4i writes the azimuth of satellite i |
| GsvSentence.StepSnr | nmea/nmea.cpp:280-290 | position 7 + 4i writes the SNR of satellite i |
| GsvSentence.Addressing | nmea/nmea.cpp:247-290 | every position from 4 to 19 writes component (field - 4) % 4 of satellite (field - 4) / 4, always one of the four |
| GsvSentence.ReadSats | nmea/nmea.cpp:247-290 | the satellites from i on read exactly when each of them does; there are then 4 - i of them, and entry k is satellite i + k |
| GsvSentence.ReadsOn | nmea/nmea.cpp:247-290 | the satellites from i on are satellite i followed by the rest |
| GsvSentence.SkipsAfterSats | nmea/nmea.cpp:291-292 | position 20 and beyond are skipped |
| GsvSentence.PrnWalk | nmea/nmea.cpp:247-257 | the PRN field aborts when it does not read, and otherwise sets that one component |
| GsvSentence.ElevWalk | nmea/nmea.cpp:258-268 | the same for the elevation |
| GsvSentence.AzimWalk | nmea/nmea.cpp:269-279 | the same for the azimuth |
| GsvSentence.SnrWalk | nmea/nmea.cpp:280-290 | the same for the SNR |
| GsvSentence.FrontWalk | nmea/nmea.cpp:247-268 | PRN and elevation together: abort when either does not read, else both set |
| GsvSentence.BackWalk | nmea/nmea.cpp:269-290 | azimuth and SNR together: abort when either does not read, else both set |
| GsvSentence.SatWalk | nmea/nmea.cpp:247-290 | a group of four aborts when one field does not read, and otherwise replaces satellite i as a whole |
| GsvSentence.FillsAtEnd | nmea/nmea.cpp:291-292 | after the last group nothing more is written |
| GsvSentence.FillsStep | nmea/nmea.cpp:247-290 | writing satellite i and then the later ones is filling from satellite i |
| GsvSentence.FromSat | nmea/nmea.cpp:247-290 | from the first group: aborts exactly when a satellite does not read; otherwise all four are written |
| GsvSentence.WalkReading | nmea/nmea.cpp:242-295 | aborts exactly when a satellite field does not read; otherwise the record is what the fields say |
| GsvSentence.Success | nmea/nmea.cpp:239-297 | returns true exactly when the text before `*` has 20 fields whose satellite fields all read, and the record then holds their reading |
| GsvSentence.ExtraFields | nmea/nmea.cpp:291-292 | fields after the twentieth change nothing in the record |
| GsvSentence.ExampleSat0 | example/main.cpp:73 | `18,16,298,25` is satellite 18 at elevation 16, azimuth 298, SNR 25 |
| GsvSentence.ExampleSat1 | example/main.cpp:73 | `24,08,249,` is satellite 24 with an empty SNR read as 0 |
| GsvSentence.ExampleSat2 | example/main.cpp:73 | `08,08,029,18` is satellite 8 at azimuth 29 |
| GsvSentence.ExampleSat3 | example/main.cpp:73 | four empty fields are an all-zero satellite |
| GsvSentence.ReadsAll | nmea/nmea.cpp:247-290 | four satellites that read make up the table in order |
| GsvSentence.ExampleReading | example/main.cpp:73 | the fields of the example sentence read as gps and its four satellites |
| GsvSentence.Example | example/main.cpp:73 | walking the twenty words of the example sentence before its `*`, given as a list, gives the verdict true and leaves that reading |
| GsvSentence.Gsv.constructor | nmea/nmea.h:100-105 | a fresh record with its own four-satellite table, unset and all zero |
| GsvSentence.Gsv.Store | nmea/nmea.cpp:243-293 | one turn of the switch: a satellite position writes one component of one satellite and keeps the other satellites; a throw writes nothing |
| GsvSentence.Gsv.FromData | nmea/nmea.cpp:239-297 | the object ends up holding the walk of its old contents over the text before `*`, and the result is the verdict for 20 fields |

## Notes on behaviour as written

- Position 15 of a GSA sentence is read as the system id. In the sentences of
  `example/main.cpp` that position holds the PDOP, `4.7`, so the system id
  reads as beidou (`GsaSentence.Example`). The model keeps this as written.
- An `S` in the longitude direction does not negate the longitude; only `W`
  does (`GllSentence.ExampleLongitude`, on the sentence at `example/main.cpp:16`).
- `std::views::split` gives no field at all for the empty text. Otherwise the
  field count is the number of commas plus one.
- The decoders assign into a record the caller provides, and assign a member
  only when its field is reached. An aborted decode keeps the writes made
  before the failing field (`GgaSentence.PartialWrite`).

## Left out

- Single-precision floats: `stof`, `coord` and the `* -1` are modelled as exact decimals and angles, with `Degrees` giving the real number meant; rounding to `float` and a negative zero are not modelled.
- `std::stoi`/`std::stof` on text with leading whitespace, a sign, or `inf`/`nan`: the model accepts only unsigned decimal text, so such a field reads as a failure and aborts the decode, where C++ reads a value.
- Text.Stof: exponent and hexadecimal-float text is read only up to its first character that is not a decimal digit or the point (`1e5` reads as 1 and `0x1A` as 0, `Text.ExponentAndHex`), where `std::stof` reads the whole number (100000 and 26). A coordinate or a GGA altitude written that way decodes, and the call can return true, with a different value than in C++. `Text.Stoi` reads `0x1A` as 0, as `std::stoi` does in base 10.
- `std::stof` on a number too large for a `float` (out_of_range) is not modelled: every decimal text reads.
- The kinds of failure are merged: an `invalid_argument` or `out_of_range` exception and a failed `assert` in `dir` or `valid` all become an aborted decode. With `NDEBUG` the asserts vanish and `dir`/`valid` would return a default; that build is not modelled.
- Integer widths: a `stoi` value is at most `INT_MAX` (a larger one throws, as in C++), and is stored into an `unsigned int` without further conversion; `year + 2000` overflow and the `quality` enum cast beyond its enumerators are modelled as plain integers.
- `std::chrono` range checks are absent in the source and in the model: hours, minutes, seconds, months and days are not validated (`Nmea.TimeOutOfRange`, `Nmea.DateOutOfRange`).
- The checksum after `*` is never verified by the library, and the model does not compute it either.
- Printing in `example/main.cpp` is not modelled; its sentences appear only as examples.
- The records of gll, gga and rmc have no constructor in the model: their fields start from whatever the caller passes, as C++ leaves them indeterminate. The GSA and GSV constructors start from unset and zero so that the satellite arrays exist.
- Nmea.Time: its own contract states only which texts can read; the value is stated by `Nmea.TimeOfText` and `Nmea.TimeOfSlices`.
- Nmea.Date: its own contract states only bounds; the value is stated by `Nmea.DateOfText` for `ddmmyy` text.
- Nmea.Slot: its own contract states the empty case and the leading digit; the value is stated by `Nmea.SlotDigits` for up to nine digits.
- GsvSentence.PrnWalk: on an abort it states only that the walk aborts, not the record left (the same holds for ElevWalk, AzimWalk, SnrWalk, FrontWalk, BackWalk and SatWalk); `GsvSentence.WalkReading` covers the outcome.
