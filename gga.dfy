/** gga::from_data (nmea/nmea.cpp): fix data. Fields: 0 talker, 1 time,
    2 latitude, 3 N/S, 4 longitude, 5 E/W, 6 fix quality, 7 satellites in
    use, 8 HDOP (skipped), 9 altitude, 10 to 14 (skipped). */
module GgaSentence {
  import opened Text
  import opened Records
  import opened Nmea
  import opened Walks

  const FieldCount: nat := 15

  // The arms of the switch in gga::from_data, one per position up to the
  // last mapped one.

  function SetSource(r: GgaData, word: string): Option<GgaData>
  {
    Some(r.(source := Talker(word)))
  }

  function SetTime(r: GgaData, word: string): Option<GgaData>
  {
    var t :- Time(word);
    Some(r.(t := t))
  }

  function SetLatitude(r: GgaData, word: string): Option<GgaData>
  {
    var lat :- Coord(2, word);
    Some(r.(lat := lat))
  }

  /** Only S negates the latitude. */
  function SetNorthSouth(r: GgaData, word: string): Option<GgaData>
  {
    var d :- Dir(word);
    Some(if d == S then r.(lat := Negate(r.lat)) else r)
  }

  function SetLongitude(r: GgaData, word: string): Option<GgaData>
  {
    var lon :- Coord(3, word);
    Some(r.(lon := lon))
  }

  /** Only W negates the longitude. */
  function SetEastWest(r: GgaData, word: string): Option<GgaData>
  {
    var d :- Dir(word);
    Some(if d == W then r.(lon := Negate(r.lon)) else r)
  }

  function SetQual(r: GgaData, word: string): Option<GgaData>
  {
    var q :- Qual(word);
    Some(r.(qual := q))
  }

  /** The satellite count, read by stoi into an unsigned member. */
  function SetSats(r: GgaData, word: string): Option<GgaData>
  {
    var n :- Stoi(word);
    Some(r.(sats := n))
  }

  /** A position without an arm. */
  function Skip(r: GgaData, word: string): Option<GgaData>
  {
    Some(r)
  }

  /** The altitude, read by stof. */
  function SetAlt(r: GgaData, word: string): Option<GgaData>
  {
    var a :- Stof(word);
    Some(r.(alt := a))
  }

  /** The switch, indexed by position. */
  const Arms: seq<(GgaData, string) -> Option<GgaData>> :=
    [SetSource, SetTime, SetLatitude, SetNorthSouth, SetLongitude, SetEastWest, SetQual, SetSats, Skip, SetAlt]

  function Step(r: GgaData, field: nat, word: string): Option<GgaData>
  {
    if field < |Arms| then Arms[field](r, word) else Some(r)
  }

  lemma {:induction false} ArmTable()
    ensures |Arms| == 10 && Arms[0] == SetSource && Arms[1] == SetTime && Arms[2] == SetLatitude
      && Arms[3] == SetNorthSouth && Arms[4] == SetLongitude && Arms[5] == SetEastWest
      && Arms[6] == SetQual && Arms[7] == SetSats && Arms[8] == Skip && Arms[9] == SetAlt
  {
  }

  /** What the fields of a GGA sentence say, each read on its own. */
  function Reading(words: seq<string>): Option<GgaData>
    requires |words| >= 10
  {
    var t :- Time(words[1]);
    var lat :- Signed(2, words[2], words[3], S);
    var lon :- Signed(3, words[4], words[5], W);
    var qual :- Qual(words[6]);
    var sats :- Stoi(words[7]);
    var alt :- Stof(words[9]);
    Some(GgaData(Talker(words[0]), lat, lon, t, sats, qual, alt))
  }

  lemma {:induction false} SkipsAfterAltitude()
    ensures SkipsFrom(Step, 10)
  {
  }

  /** Positions 6 to 9 of the walk, and the skipped rest. */
  lemma {:induction false} FromQual(r: GgaData, words: seq<string>)
    requires |words| >= 10
    ensures var w := Walk(Step, r, words, 6);
      (w.aborted <==> Qual(words[6]).None? || Stoi(words[7]).None? || Stof(words[9]).None?)
      && (!w.aborted ==> w.rec == r.(qual := Qual(words[6]).value, sats := Stoi(words[7]).value, alt := Stof(words[9]).value))
  {
    if Qual(words[6]).None? { WalkStop(Step, r, words, 6); return; }
    var r7 := r.(qual := Qual(words[6]).value);
    WalkNext(Step, r, words, 6, r7);
    if Stoi(words[7]).None? { WalkStop(Step, r7, words, 7); return; }
    var r8 := r7.(sats := Stoi(words[7]).value);
    WalkNext(Step, r7, words, 7, r8);
    WalkNext(Step, r8, words, 8, r8);
    if Stof(words[9]).None? { WalkStop(Step, r8, words, 9); return; }
    var r10 := r8.(alt := Stof(words[9]).value);
    WalkNext(Step, r8, words, 9, r10);
    SkipsAfterAltitude();
    WalkSkipped(Step, 10, r10, words, 10);
  }

  /** Positions 4 to 9 of the walk. */
  lemma {:induction false} FromLongitude(r: GgaData, words: seq<string>)
    requires |words| >= 10
    ensures var w := Walk(Step, r, words, 4); var lon := Signed(3, words[4], words[5], W);
      (w.aborted <==> lon.None? || Qual(words[6]).None? || Stoi(words[7]).None? || Stof(words[9]).None?)
      && (!w.aborted ==> w.rec == r.(lon := lon.value, qual := Qual(words[6]).value,
                                     sats := Stoi(words[7]).value, alt := Stof(words[9]).value))
  {
    if Coord(3, words[4]).None? { WalkStop(Step, r, words, 4); return; }
    var r5 := r.(lon := Coord(3, words[4]).value);
    WalkNext(Step, r, words, 4, r5);
    if Dir(words[5]).None? { WalkStop(Step, r5, words, 5); return; }
    var r6 := if Dir(words[5]).value == W then r5.(lon := Negate(r5.lon)) else r5;
    WalkNext(Step, r5, words, 5, r6);
    FromQual(r6, words);
  }

  /** Positions 2 to 9 of the walk. */
  lemma {:induction false} FromLatitude(r: GgaData, words: seq<string>)
    requires |words| >= 10
    ensures var w := Walk(Step, r, words, 2);
      var lat := Signed(2, words[2], words[3], S); var lon := Signed(3, words[4], words[5], W);
      (w.aborted <==> lat.None? || lon.None? || Qual(words[6]).None? || Stoi(words[7]).None? || Stof(words[9]).None?)
      && (!w.aborted ==> w.rec == r.(lat := lat.value, lon := lon.value, qual := Qual(words[6]).value,
                                     sats := Stoi(words[7]).value, alt := Stof(words[9]).value))
  {
    if Coord(2, words[2]).None? { WalkStop(Step, r, words, 2); return; }
    var r3 := r.(lat := Coord(2, words[2]).value);
    WalkNext(Step, r, words, 2, r3);
    if Dir(words[3]).None? { WalkStop(Step, r3, words, 3); return; }
    var r4 := if Dir(words[3]).value == S then r3.(lat := Negate(r3.lat)) else r3;
    WalkNext(Step, r3, words, 3, r4);
    FromLongitude(r4, words);
  }

  /** The field map: walking a sentence with all ten positions up to the
      altitude aborts exactly when a mapped field does not read, and
      otherwise leaves the record that the fields say, whatever the record
      held before. */
  lemma {:induction false} WalkReading(r: GgaData, words: seq<string>)
    requires |words| >= 10
    ensures var w := Walk(Step, r, words, 0);
      (w.aborted <==> Reading(words).None?) && (!w.aborted ==> w.rec == Reading(words).value)
  {
    var r1 := r.(source := Talker(words[0]));
    WalkNext(Step, r, words, 0, r1);
    if Time(words[1]).None? { WalkStop(Step, r1, words, 1); return; }
    var r2 := r1.(t := Time(words[1]).value);
    WalkNext(Step, r1, words, 1, r2);
    FromLatitude(r2, words);
  }

  /** gga::from_data returns true exactly for a sentence of 15 fields whose
      mapped fields all read, and the record then holds what they say. */
  lemma {:induction false} Success(r: GgaData, data: string)
    ensures var words := Split(data); var w := Walk(Step, r, words, 0);
      (Verdict(w, |words|, FieldCount) == Returned(true) <==> |words| == FieldCount && Reading(words).Some?)
      && (Verdict(w, |words|, FieldCount) == Returned(true) ==> w.rec == Reading(words).value)
  {
    var words := Split(data);
    if |words| >= 10 { WalkReading(r, words); }
  }

  /** A sentence whose latitude does not read, after a time that does, aborts
      with the talker and the time written and every other member as it was:
      the members are written one by one as the walk goes. */
  lemma {:induction false} PartialWrite(r: GgaData, words: seq<string>)
    requires |words| >= 10 && Time(words[1]).Some? && Coord(2, words[2]).None?
    ensures Walk(Step, r, words, 0) == Walked(r.(source := Talker(words[0]), t := Time(words[1]).value), true)
  {
    var r1 := r.(source := Talker(words[0]));
    WalkNext(Step, r, words, 0, r1);
    var r2 := r1.(t := Time(words[1]).value);
    WalkNext(Step, r1, words, 1, r2);
    WalkStop(Step, r2, words, 2);
  }

  /** The altitude of the sentence of example/main.cpp. */
  lemma {:induction false} ExampleAltitude(s: string)
    requires s == "027.26"
    ensures Stof(s) == Some(Decimal(2726, 2))
  {
    assert s == "027" + "." + "26";
    assert DigitsValue("027") == 27 by { assert "027"[..2] == "02" && "02"[..1] == "0" && "0"[..0] == []; }
    assert DigitsValue("26") == 26 by { assert "26"[..1] == "2"; }
    StofPoint("027", "26", 27, 26);
    assert Pow10(2) == 100;
  }

  /** Its latitude, north. */
  lemma {:induction false} ExampleLatitude(value: string, dir: string)
    requires value == "5051.78066" && dir == "N"
    ensures Signed(2, value, dir, S) == Some(Angle(false, Whole(50), Decimal(5_178_066, 5)))
  {
    GgaLatitude(value);
    assert Dir(dir) == Some(N);
  }

  /** Its longitude, east. */
  lemma {:induction false} ExampleLongitude(value: string, dir: string)
    requires value == "00422.57079" && dir == "E"
    ensures Signed(3, value, dir, W) == Some(Angle(false, Whole(4), Decimal(2_257_079, 5)))
  {
    GgaLongitude(value);
    assert Dir(dir) == Some(E);
  }

  /** Its fix quality, a GPS fix. */
  lemma {:induction false} ExampleQuality(s: string)
    requires s == "1"
    ensures Qual(s) == Some(GpsFix)
  {
    QualOfCode(1);
    assert NatText(1) == s;
  }

  /** Its satellite count, written with a leading zero. */
  lemma {:induction false} ExampleSats(s: string)
    requires s == "05"
    ensures Stoi(s) == Some(5)
  {
    assert AllDigits(s);
    assert DigitsValue(s) == 5 by { assert s[..1] == "0"; }
    StoiDigits(s);
  }

  /** The fields of the sentence of example/main.cpp. */
  lemma {:induction false} ExampleReading(words: seq<string>)
    requires |words| == 15 && words[0] == "$GPGGA" && words[1] == "191237.000"
    requires words[2] == "5051.78066" && words[3] == "N" && words[4] == "00422.57079" && words[5] == "E"
    requires words[6] == "1" && words[7] == "05" && words[9] == "027.26"
    ensures Reading(words) == Some(GgaData(Gps, Angle(false, Whole(50), Decimal(5_178_066, 5)),
                                           Angle(false, Whole(4), Decimal(2_257_079, 5)), 69_157_000,
                                           5, GpsFix, Decimal(2726, 2)))
  {
    assert Talker(words[0]) == Gps by { assert words[0][..3] == "$GP"; }
    GgaTime(words[1]);
    ExampleLatitude(words[2], words[3]);
    ExampleLongitude(words[4], words[5]);
    ExampleQuality(words[6]);
    ExampleSats(words[7]);
    ExampleAltitude(words[9]);
  }

  /** Walking the words of that sentence, given as a list: every mapped
      field reads and the verdict is true, whatever the record held before. */
  lemma {:induction false} Example(r: GgaData, words: seq<string>)
    requires words == ["$GPGGA", "191237.000", "5051.78066", "N", "00422.57079", "E", "1", "05",
                       "3.7", "027.26", "M", "47.3", "M", "", "*65"]
    ensures var w := Walk(Step, r, words, 0);
      w == Walked(GgaData(Gps, Angle(false, Whole(50), Decimal(5_178_066, 5)),
                          Angle(false, Whole(4), Decimal(2_257_079, 5)), 69_157_000,
                          5, GpsFix, Decimal(2726, 2)), false)
      && Verdict(w, |words|, FieldCount) == Returned(true)
  {
    ExampleReading(words);
    WalkReading(r, words);
  }

  /** Class gga: the record, written in place by from_data. */
  class Gga {
    var source: TalkerId
    var lat: Angle
    var lon: Angle
    var t: Millis
    var sats: UInt
    var qual: Quality
    var alt: Decimal

    function Value(): GgaData
      reads this
    {
      GgaData(source, lat, lon, t, sats, qual, alt)
    }

    /** One turn of the switch in gga::from_data: the word at position
        field is written into its member, or the interpreter fails and
        nothing is written. */
    method Store(field: nat, word: string) returns (ok: bool)
      modifies this
      ensures var next := Step(old(Value()), field, word);
        ok == next.Some? && Value() == (if ok then next.value else old(Value()))
    {
      ok := true;
      ghost var before := Value();
      ArmTable();
      match field {
        case 0 =>
          assert Step(before, 0, word) == SetSource(before, word);
          source := Talker(word);
        case 1 =>
          assert Step(before, 1, word) == SetTime(before, word);
          var v := Time(word);
          if v.None? { return false; }
          t := v.value;
        case 2 =>
          assert Step(before, 2, word) == SetLatitude(before, word);
          var v := Coord(2, word);
          if v.None? { return false; }
          lat := v.value;
        case 3 =>
          assert Step(before, 3, word) == SetNorthSouth(before, word);
          var d := Dir(word);
          if d.None? { return false; }
          if d.value == S { lat := Negate(lat); }
        case 4 =>
          assert Step(before, 4, word) == SetLongitude(before, word);
          var v := Coord(3, word);
          if v.None? { return false; }
          lon := v.value;
        case 5 =>
          assert Step(before, 5, word) == SetEastWest(before, word);
          var d := Dir(word);
          if d.None? { return false; }
          if d.value == W { lon := Negate(lon); }
        case 6 =>
          assert Step(before, 6, word) == SetQual(before, word);
          var v := Qual(word);
          if v.None? { return false; }
          qual := v.value;
        case 7 =>
          assert Step(before, 7, word) == SetSats(before, word);
          var v := Stoi(word);
          if v.None? { return false; }
          sats := v.value;
        case 9 =>
          assert Step(before, 9, word) == SetAlt(before, word);
          var v := Stof(word);
          if v.None? { return false; }
          alt := v.value;
        case _ =>
      }
    }

    /** gga::from_data: walks the words of data, writing each mapped field
        into gga as it goes; returns whether there were exactly 15 fields,
        or aborts where an interpreter throws. */
    static method FromData(data: string, gga: Gga) returns (result: Outcome)
      modifies gga
      ensures var w := Walk(Step, old(gga.Value()), Split(data), 0);
        gga.Value() == w.rec && result == Verdict(w, |Split(data)|, FieldCount)
    {
      var words := Split(data);
      var field: nat := 0;
      while field < |words|
        invariant field <= |words|
        invariant Walk(Step, old(gga.Value()), words, 0) == Walk(Step, gga.Value(), words, field)
      {
        ghost var before := gga.Value();
        var ok := gga.Store(field, words[field]);
        if !ok {
          WalkStop(Step, before, words, field);
          return Aborted;
        }
        WalkNext(Step, before, words, field, gga.Value());
        field := field + 1;
      }
      result := Returned(field == FieldCount);
    }
  }
}
