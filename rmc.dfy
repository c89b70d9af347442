/** rmc::from_data (nmea/nmea.cpp): recommended minimum data. Fields:
    0 talker, 1 time, 2 status, 3 latitude, 4 N/S, 5 longitude, 6 E/W,
    7 speed and 8 course (both skipped), 9 date, 10 to 12 (skipped). The
    speed member is declared but no field is ever read into it. */
module RmcSentence {
  import opened Text
  import opened Records
  import opened Nmea
  import opened Walks

  const FieldCount: nat := 13

  // The arms of the switch in rmc::from_data, one per position up to the
  // last mapped one.

  function SetSource(r: RmcData, word: string): Option<RmcData>
  {
    Some(r.(source := Talker(word)))
  }

  function SetTime(r: RmcData, word: string): Option<RmcData>
  {
    var t :- Time(word);
    Some(r.(t := t))
  }

  function SetValid(r: RmcData, word: string): Option<RmcData>
  {
    var v :- Valid(word);
    Some(r.(valid := v))
  }

  function SetLatitude(r: RmcData, word: string): Option<RmcData>
  {
    var lat :- Coord(2, word);
    Some(r.(lat := lat))
  }

  /** Only S negates the latitude. */
  function SetNorthSouth(r: RmcData, word: string): Option<RmcData>
  {
    var d :- Dir(word);
    Some(if d == S then r.(lat := Negate(r.lat)) else r)
  }

  function SetLongitude(r: RmcData, word: string): Option<RmcData>
  {
    var lon :- Coord(3, word);
    Some(r.(lon := lon))
  }

  /** Only W negates the longitude. */
  function SetEastWest(r: RmcData, word: string): Option<RmcData>
  {
    var d :- Dir(word);
    Some(if d == W then r.(lon := Negate(r.lon)) else r)
  }

  /** A position without an arm. */
  function Skip(r: RmcData, word: string): Option<RmcData>
  {
    Some(r)
  }

  function SetDate(r: RmcData, word: string): Option<RmcData>
  {
    var d :- Date(word);
    Some(r.(d := d))
  }

  /** The switch, indexed by position. */
  const Arms: seq<(RmcData, string) -> Option<RmcData>> :=
    [SetSource, SetTime, SetValid, SetLatitude, SetNorthSouth, SetLongitude, SetEastWest, Skip, Skip, SetDate]

  function Step(r: RmcData, field: nat, word: string): Option<RmcData>
  {
    if field < |Arms| then Arms[field](r, word) else Some(r)
  }

  lemma {:induction false} ArmTable()
    ensures |Arms| == 10 && Arms[0] == SetSource && Arms[1] == SetTime && Arms[2] == SetValid
      && Arms[3] == SetLatitude && Arms[4] == SetNorthSouth && Arms[5] == SetLongitude
      && Arms[6] == SetEastWest && Arms[7] == Skip && Arms[8] == Skip && Arms[9] == SetDate
  {
  }

  /** What the fields of an RMC sentence say, each read on its own. No field
      gives the speed, so it stays what the record held. */
  function Reading(speed: Decimal, words: seq<string>): Option<RmcData>
    requires |words| >= 10
  {
    var t :- Time(words[1]);
    var valid :- Valid(words[2]);
    var lat :- Signed(2, words[3], words[4], S);
    var lon :- Signed(3, words[5], words[6], W);
    var d :- Date(words[9]);
    Some(RmcData(Talker(words[0]), lat, lon, speed, t, d, valid))
  }

  lemma {:induction false} SkipsAfterDate()
    ensures SkipsFrom(Step, 10)
  {
  }

  /** Positions 5 to 9 of the walk, and the skipped rest. */
  lemma {:induction false} FromLongitude(r: RmcData, words: seq<string>)
    requires |words| >= 10
    ensures var w := Walk(Step, r, words, 5); var lon := Signed(3, words[5], words[6], W);
      (w.aborted <==> lon.None? || Date(words[9]).None?)
      && (!w.aborted ==> w.rec == r.(lon := lon.value, d := Date(words[9]).value))
  {
    if Coord(3, words[5]).None? { WalkStop(Step, r, words, 5); return; }
    var r6 := r.(lon := Coord(3, words[5]).value);
    WalkNext(Step, r, words, 5, r6);
    if Dir(words[6]).None? { WalkStop(Step, r6, words, 6); return; }
    var r7 := if Dir(words[6]).value == W then r6.(lon := Negate(r6.lon)) else r6;
    WalkNext(Step, r6, words, 6, r7);
    WalkNext(Step, r7, words, 7, r7);
    WalkNext(Step, r7, words, 8, r7);
    if Date(words[9]).None? { WalkStop(Step, r7, words, 9); return; }
    var r10 := r7.(d := Date(words[9]).value);
    WalkNext(Step, r7, words, 9, r10);
    SkipsAfterDate();
    WalkSkipped(Step, 10, r10, words, 10);
  }

  /** Positions 3 to 9 of the walk. */
  lemma {:induction false} FromLatitude(r: RmcData, words: seq<string>)
    requires |words| >= 10
    ensures var w := Walk(Step, r, words, 3);
      var lat := Signed(2, words[3], words[4], S); var lon := Signed(3, words[5], words[6], W);
      (w.aborted <==> lat.None? || lon.None? || Date(words[9]).None?)
      && (!w.aborted ==> w.rec == r.(lat := lat.value, lon := lon.value, d := Date(words[9]).value))
  {
    if Coord(2, words[3]).None? { WalkStop(Step, r, words, 3); return; }
    var r4 := r.(lat := Coord(2, words[3]).value);
    WalkNext(Step, r, words, 3, r4);
    if Dir(words[4]).None? { WalkStop(Step, r4, words, 4); return; }
    var r5 := if Dir(words[4]).value == S then r4.(lat := Negate(r4.lat)) else r4;
    WalkNext(Step, r4, words, 4, r5);
    FromLongitude(r5, words);
  }

  /** The field map: walking a sentence with all ten positions up to the
      date aborts exactly when a mapped field does not read, and otherwise
      leaves the record that the fields say, with the speed it held before. */
  lemma {:induction false} WalkReading(r: RmcData, words: seq<string>)
    requires |words| >= 10
    ensures var w := Walk(Step, r, words, 0);
      (w.aborted <==> Reading(r.speed, words).None?)
      && (!w.aborted ==> w.rec == Reading(r.speed, words).value)
  {
    var r1 := r.(source := Talker(words[0]));
    WalkNext(Step, r, words, 0, r1);
    if Time(words[1]).None? { WalkStop(Step, r1, words, 1); return; }
    var r2 := r1.(t := Time(words[1]).value);
    WalkNext(Step, r1, words, 1, r2);
    if Valid(words[2]).None? { WalkStop(Step, r2, words, 2); return; }
    var r3 := r2.(valid := Valid(words[2]).value);
    WalkNext(Step, r2, words, 2, r3);
    FromLatitude(r3, words);
  }

  /** rmc::from_data returns true exactly for a sentence of 13 fields whose
      mapped fields all read, and the record then holds what they say. */
  lemma {:induction false} Success(r: RmcData, data: string)
    ensures var words := Split(data); var w := Walk(Step, r, words, 0);
      (Verdict(w, |words|, FieldCount) == Returned(true) <==> |words| == FieldCount && Reading(r.speed, words).Some?)
      && (Verdict(w, |words|, FieldCount) == Returned(true) ==> w.rec == Reading(r.speed, words).value)
  {
    var words := Split(data);
    if |words| >= 10 { WalkReading(r, words); }
  }

  /** No arm writes the speed. */
  lemma {:induction false} ArmsKeepSpeed(speed: Decimal)
    ensures Keeps(Step, (x: RmcData) => x.speed == speed)
  {
    ArmTable();
  }

  /** Whatever the sentence, decoding it leaves the speed as it was, and
      aborts or not. */
  lemma {:induction false} SpeedUntouched(r: RmcData, words: seq<string>)
    ensures Walk(Step, r, words, 0).rec.speed == r.speed
  {
    ArmsKeepSpeed(r.speed);
    WalkKeeps(Step, (x: RmcData) => x.speed == r.speed, r, words, 0);
  }

  /** The status of the sentence of example/main.cpp: V, not valid. */
  lemma {:induction false} ExampleValid(s: string)
    requires s == "V"
    ensures Valid(s) == Some(false)
  {
    assert s == [Flag(false)] + [];
    ValidOfFlag(false, []);
  }

  /** Its latitude, north. */
  lemma {:induction false} ExampleLatitude(value: string, dir: string)
    requires value == "5051.83778" && dir == "N"
    ensures Signed(2, value, dir, S) == Some(Angle(false, Whole(50), Decimal(5_183_778, 5)))
  {
    GllLatitude(value);
    assert Dir(dir) == Some(N);
  }

  /** Its longitude, east. */
  lemma {:induction false} ExampleLongitude(value: string, dir: string)
    requires value == "00422.55809" && dir == "E"
    ensures Signed(3, value, dir, W) == Some(Angle(false, Whole(4), Decimal(2_255_809, 5)))
  {
    GllLongitude(value);
    assert Dir(dir) == Some(E);
  }

  /** The fields of the sentence of example/main.cpp. */
  lemma {:induction false} ExampleReading(speed: Decimal, words: seq<string>)
    requires |words| == 13 && words[0] == "$GPRMC" && words[1] == "185427.150" && words[2] == "V"
    requires words[3] == "5051.83778" && words[4] == "N" && words[5] == "00422.55809" && words[6] == "E"
    requires words[9] == "240724"
    ensures Reading(speed, words) == Some(RmcData(Gps, Angle(false, Whole(50), Decimal(5_183_778, 5)),
                                                  Angle(false, Whole(4), Decimal(2_255_809, 5)), speed,
                                                  68_067_150, YearMonthDay(2024, 7, 24), false))
  {
    assert Talker(words[0]) == Gps by { assert words[0][..3] == "$GP"; }
    GllTime(words[1]);
    ExampleValid(words[2]);
    ExampleLatitude(words[3], words[4]);
    ExampleLongitude(words[5], words[6]);
    RmcDate(words[9]);
  }

  /** Walking the words of that sentence, given as a list: every mapped
      field reads, the empty speed and course fields are passed over, and the
      verdict is true. */
  lemma {:induction false} Example(r: RmcData, words: seq<string>)
    requires words == ["$GPRMC", "185427.150", "V", "5051.83778", "N", "00422.55809", "E", "", "",
                       "240724", "", "", "N*7F"]
    ensures var w := Walk(Step, r, words, 0);
      w == Walked(RmcData(Gps, Angle(false, Whole(50), Decimal(5_183_778, 5)),
                          Angle(false, Whole(4), Decimal(2_255_809, 5)), r.speed,
                          68_067_150, YearMonthDay(2024, 7, 24), false), false)
      && Verdict(w, |words|, FieldCount) == Returned(true)
  {
    ExampleReading(r.speed, words);
    WalkReading(r, words);
  }

  /** Class rmc: the record, written in place by from_data. */
  class Rmc {
    var source: TalkerId
    var lat: Angle
    var lon: Angle
    var speed: Decimal
    var t: Millis
    var d: YearMonthDay
    var valid: bool

    function Value(): RmcData
      reads this
    {
      RmcData(source, lat, lon, speed, t, d, valid)
    }

    /** One turn of the switch in rmc::from_data: the word at position
        field is written into its member, or the interpreter fails and
        nothing is written. */
    method Store(field: nat, word: string) returns (ok: bool)
      modifies this
      ensures var next := Step(old(Value()), field, word);
        ok == next.Some? && Value() == (if ok then next.value else old(Value()))
    {
      ok := true;
      ghost var before := Value();
      ArmTable();
      match field {
        case 0 =>
          assert Step(before, 0, word) == SetSource(before, word);
          source := Talker(word);
        case 1 =>
          assert Step(before, 1, word) == SetTime(before, word);
          var v := Time(word);
          if v.None? { return false; }
          t := v.value;
        case 2 =>
          assert Step(before, 2, word) == SetValid(before, word);
          var v := Valid(word);
          if v.None? { return false; }
          valid := v.value;
        case 3 =>
          assert Step(before, 3, word) == SetLatitude(before, word);
          var v := Coord(2, word);
          if v.None? { return false; }
          lat := v.value;
        case 4 =>
          assert Step(before, 4, word) == SetNorthSouth(before, word);
          var dir := Dir(word);
          if dir.None? { return false; }
          if dir.value == S { lat := Negate(lat); }
        case 5 =>
          assert Step(before, 5, word) == SetLongitude(before, word);
          var v := Coord(3, word);
          if v.None? { return false; }
          lon := v.value;
        case 6 =>
          assert Step(before, 6, word) == SetEastWest(before, word);
          var dir := Dir(word);
          if dir.None? { return false; }
          if dir.value == W { lon := Negate(lon); }
        case 9 =>
          assert Step(before, 9, word) == SetDate(before, word);
          var v := Date(word);
          if v.None? { return false; }
          d := v.value;
        case _ =>
      }
    }

    /** rmc::from_data: walks the words of data, writing each mapped field
        into rmc as it goes; returns whether there were exactly 13 fields,
        or aborts where an interpreter throws. */
    static method FromData(data: string, rmc: Rmc) returns (result: Outcome)
      modifies rmc
      ensures var w := Walk(Step, old(rmc.Value()), Split(data), 0);
        rmc.Value() == w.rec && result == Verdict(w, |Split(data)|, FieldCount)
    {
      var words := Split(data);
      var field: nat := 0;
      while field < |words|
        invariant field <= |words|
        invariant Walk(Step, old(rmc.Value()), words, 0) == Walk(Step, rmc.Value(), words, field)
      {
        ghost var before := rmc.Value();
        var ok := rmc.Store(field, words[field]);
        if !ok {
          WalkStop(Step, before, words, field);
          return Aborted;
        }
        WalkNext(Step, before, words, field, rmc.Value());
        field := field + 1;
      }
      result := Returned(field == FieldCount);
    }
  }
}
