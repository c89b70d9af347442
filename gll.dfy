/** gll::from_data (nmea/nmea.cpp): geographic position, latitude and longitude.
    Fields: 0 talker, 1 latitude, 2 N/S, 3 longitude, 4 E/W, 5 time, 6 status,
    7 mode (skipped). */
module GllSentence {
  import opened Text
  import opened Records
  import opened Nmea
  import opened Walks

  const FieldCount: nat := 8

  // The arms of the switch in gll::from_data, one per mapped position: each
  // writes what its word says into the record, or fails where the C++
  // interpreter throws or asserts.

  function SetSource(r: GllData, word: string): Option<GllData>
  {
    Some(r.(source := Talker(word)))
  }

  function SetLatitude(r: GllData, word: string): Option<GllData>
  {
    var lat :- Coord(2, word);
    Some(r.(lat := lat))
  }

  /** Only S negates the latitude. */
  function SetNorthSouth(r: GllData, word: string): Option<GllData>
  {
    var d :- Dir(word);
    Some(if d == S then r.(lat := Negate(r.lat)) else r)
  }

  function SetLongitude(r: GllData, word: string): Option<GllData>
  {
    var lon :- Coord(3, word);
    Some(r.(lon := lon))
  }

  /** Only W negates the longitude. */
  function SetEastWest(r: GllData, word: string): Option<GllData>
  {
    var d :- Dir(word);
    Some(if d == W then r.(lon := Negate(r.lon)) else r)
  }

  function SetTime(r: GllData, word: string): Option<GllData>
  {
    var t :- Time(word);
    Some(r.(t := t))
  }

  function SetValid(r: GllData, word: string): Option<GllData>
  {
    var valid :- Valid(word);
    Some(r.(valid := valid))
  }

  /** The switch, indexed by position. */
  const Arms: seq<(GllData, string) -> Option<GllData>> :=
    [SetSource, SetLatitude, SetNorthSouth, SetLongitude, SetEastWest, SetTime, SetValid]

  /** What the word at a position does to the record; positions without an
      arm leave it as it is. */
  function Step(r: GllData, field: nat, word: string): Option<GllData>
  {
    if field < |Arms| then Arms[field](r, word) else Some(r)
  }

  lemma {:induction false} ArmTable()
    ensures |Arms| == 7 && Arms[0] == SetSource && Arms[1] == SetLatitude && Arms[2] == SetNorthSouth
      && Arms[3] == SetLongitude && Arms[4] == SetEastWest && Arms[5] == SetTime && Arms[6] == SetValid
  {
  }

  /** What the fields of a GLL sentence say, each read on its own: latitude
      negative only when its direction is S, longitude only when it is W. */
  function Reading(words: seq<string>): Option<GllData>
    requires |words| >= 7
  {
    var lat :- Signed(2, words[1], words[2], S);
    var lon :- Signed(3, words[3], words[4], W);
    var t :- Time(words[5]);
    var valid :- Valid(words[6]);
    Some(GllData(Talker(words[0]), lat, lon, t, valid))
  }

  lemma {:induction false} SkipsAfterValid()
    ensures SkipsFrom(Step, 7)
  {
  }

  /** Positions 5 and 6 of the walk, and the skipped rest. */
  lemma {:induction false} FromTime(r: GllData, words: seq<string>)
    requires |words| >= 7
    ensures var w := Walk(Step, r, words, 5);
      (w.aborted <==> Time(words[5]).None? || Valid(words[6]).None?)
      && (!w.aborted ==> w.rec == r.(t := Time(words[5]).value, valid := Valid(words[6]).value))
  {
    if Time(words[5]).None? { WalkStop(Step, r, words, 5); return; }
    var r6 := r.(t := Time(words[5]).value);
    WalkNext(Step, r, words, 5, r6);
    if Valid(words[6]).None? { WalkStop(Step, r6, words, 6); return; }
    var r7 := r6.(valid := Valid(words[6]).value);
    WalkNext(Step, r6, words, 6, r7);
    SkipsAfterValid();
    WalkSkipped(Step, 7, r7, words, 7);
  }

  /** Positions 3 to 6 of the walk. */
  lemma {:induction false} FromLongitude(r: GllData, words: seq<string>)
    requires |words| >= 7
    ensures var w := Walk(Step, r, words, 3); var lon := Signed(3, words[3], words[4], W);
      (w.aborted <==> lon.None? || Time(words[5]).None? || Valid(words[6]).None?)
      && (!w.aborted ==> w.rec == r.(lon := lon.value, t := Time(words[5]).value, valid := Valid(words[6]).value))
  {
    if Coord(3, words[3]).None? { WalkStop(Step, r, words, 3); return; }
    var r4 := r.(lon := Coord(3, words[3]).value);
    WalkNext(Step, r, words, 3, r4);
    if Dir(words[4]).None? { WalkStop(Step, r4, words, 4); return; }
    var r5 := if Dir(words[4]).value == W then r4.(lon := Negate(r4.lon)) else r4;
    WalkNext(Step, r4, words, 4, r5);
    FromTime(r5, words);
  }

  /** Positions 1 to 6 of the walk. */
  lemma {:induction false} FromLatitude(r: GllData, words: seq<string>)
    requires |words| >= 7
    ensures var w := Walk(Step, r, words, 1);
      var lat := Signed(2, words[1], words[2], S); var lon := Signed(3, words[3], words[4], W);
      (w.aborted <==> lat.None? || lon.None? || Time(words[5]).None? || Valid(words[6]).None?)
      && (!w.aborted ==> w.rec == r.(lat := lat.value, lon := lon.value, t := Time(words[5]).value, valid := Valid(words[6]).value))
  {
    if Coord(2, words[1]).None? { WalkStop(Step, r, words, 1); return; }
    var r2 := r.(lat := Coord(2, words[1]).value);
    WalkNext(Step, r, words, 1, r2);
    if Dir(words[2]).None? { WalkStop(Step, r2, words, 2); return; }
    var r3 := if Dir(words[2]).value == S then r2.(lat := Negate(r2.lat)) else r2;
    WalkNext(Step, r2, words, 2, r3);
    FromLongitude(r3, words);
  }

  /** The field map: walking a sentence with all seven mapped fields aborts
      exactly when one of them does not read, and otherwise leaves the record
      that the fields say, whatever the record held before. */
  lemma {:induction false} WalkReading(r: GllData, words: seq<string>)
    requires |words| >= 7
    ensures var w := Walk(Step, r, words, 0);
      (w.aborted <==> Reading(words).None?) && (!w.aborted ==> w.rec == Reading(words).value)
  {
    var r1 := r.(source := Talker(words[0]));
    WalkNext(Step, r, words, 0, r1);
    FromLatitude(r1, words);
  }

  /** gll::from_data returns true exactly for a sentence of 8 fields whose
      mapped fields all read, and the record then holds what they say. */
  lemma {:induction false} Success(r: GllData, data: string)
    ensures var words := Split(data); var w := Walk(Step, r, words, 0);
      (Verdict(w, |words|, FieldCount) == Returned(true) <==> |words| == FieldCount && Reading(words).Some?)
      && (Verdict(w, |words|, FieldCount) == Returned(true) ==> w.rec == Reading(words).value)
  {
    var words := Split(data);
    if |words| >= 7 { WalkReading(r, words); }
  }

  /** Fields after the seventh are never looked at: extra trailing fields leave
      the record as it would be without them (the call then returns false). */
  lemma {:induction false} ExtraFields(r: GllData, words: seq<string>, extra: seq<string>)
    requires |words| >= 7
    ensures Walk(Step, r, words + extra, 0) == Walk(Step, r, words, 0)
  {
    SkipsAfterValid();
    assert SkipsFrom(Step, |words|);
    WalkTrailing(Step, |words|, r, words + extra, 0);
    assert (words + extra)[..|words|] == words;
  }

  /** No state is carried between calls: a decode that gets through every
      mapped field leaves the same record whatever the record held before. */
  lemma {:induction false} IgnoresPrior(r1: GllData, r2: GllData, words: seq<string>)
    requires |words| >= 7 && !Walk(Step, r1, words, 0).aborted
    ensures Walk(Step, r2, words, 0) == Walk(Step, r1, words, 0)
  {
    WalkReading(r1, words);
    WalkReading(r2, words);
  }

  /** The latitude of the sentence of example/main.cpp, north. */
  lemma {:induction false} ExampleLatitude(value: string, dir: string)
    requires value == "5051.83778" && dir == "N"
    ensures Signed(2, value, dir, S) == Some(Angle(false, Whole(50), Decimal(5_183_778, 5)))
  {
    GllLatitude(value);
    assert Dir(dir) == Some(N);
  }

  /** Its longitude, whose direction field is S: S negates only a latitude,
      so the longitude stays positive. */
  lemma {:induction false} ExampleLongitude(value: string, dir: string)
    requires value == "00422.55809" && dir == "S"
    ensures Signed(3, value, dir, W) == Some(Angle(false, Whole(4), Decimal(2_255_809, 5)))
  {
    GllLongitude(value);
    assert Dir(dir) == Some(S);
  }

  /** The fields of the sentence of example/main.cpp. */
  lemma {:induction false} ExampleReading(words: seq<string>)
    requires |words| == 8 && words[0] == "$GPGLL" && words[1] == "5051.83778" && words[2] == "N"
    requires words[3] == "00422.55809" && words[4] == "S" && words[5] == "185427.150" && words[6] == "V"
    ensures Reading(words) == Some(GllData(Gps, Angle(false, Whole(50), Decimal(5_183_778, 5)),
                                           Angle(false, Whole(4), Decimal(2_255_809, 5)), 68_067_150, false))
  {
    assert Talker(words[0]) == Gps by { assert words[0][..3] == "$GP"; }
    ExampleLatitude(words[1], words[2]);
    ExampleLongitude(words[3], words[4]);
    GllTime(words[5]);
    assert Valid(words[6]) == Some(false);
  }

  /** Walking the words of that sentence, given as a list: every mapped
      field reads and the verdict is true, whatever the record held before. */
  lemma {:induction false} Example(r: GllData, words: seq<string>)
    requires words == ["$GPGLL", "5051.83778", "N", "00422.55809", "S", "185427.150", "V", "N*4F"]
    ensures var w := Walk(Step, r, words, 0);
      w == Walked(GllData(Gps, Angle(false, Whole(50), Decimal(5_183_778, 5)),
                          Angle(false, Whole(4), Decimal(2_255_809, 5)), 68_067_150, false), false)
      && Verdict(w, |words|, FieldCount) == Returned(true)
  {
    ExampleReading(words);
    WalkReading(r, words);
  }

  /** Class gll: the record, written in place by from_data. */
  class Gll {
    var source: TalkerId
    var lat: Angle
    var lon: Angle
    var t: Millis
    var valid: bool

    function Value(): GllData
      reads this
    {
      GllData(source, lat, lon, t, valid)
    }

    /** One turn of the switch in gll::from_data: the word at position
        field is written into its member, or the interpreter fails and
        nothing is written. */
    method Store(field: nat, word: string) returns (ok: bool)
      modifies this
      ensures var next := Step(old(Value()), field, word);
        ok == next.Some? && Value() == (if ok then next.value else old(Value()))
    {
      ok := true;
      ghost var before := Value();
      ArmTable();
      match field {
        case 0 =>
          assert Step(before, 0, word) == SetSource(before, word);
          source := Talker(word);
        case 1 =>
          assert Step(before, 1, word) == SetLatitude(before, word);
          var v := Coord(2, word);
          if v.None? { return false; }
          lat := v.value;
        case 2 =>
          assert Step(before, 2, word) == SetNorthSouth(before, word);
          var d := Dir(word);
          if d.None? { return false; }
          if d.value == S { lat := Negate(lat); }
        case 3 =>
          assert Step(before, 3, word) == SetLongitude(before, word);
          var v := Coord(3, word);
          if v.None? { return false; }
          lon := v.value;
        case 4 =>
          assert Step(before, 4, word) == SetEastWest(before, word);
          var d := Dir(word);
          if d.None? { return false; }
          if d.value == W { lon := Negate(lon); }
        case 5 =>
          assert Step(before, 5, word) == SetTime(before, word);
          var v := Time(word);
          if v.None? { return false; }
          t := v.value;
        case 6 =>
          assert Step(before, 6, word) == SetValid(before, word);
          var v := Valid(word);
          if v.None? { return false; }
          valid := v.value;
        case _ =>
      }
    }

    /** gll::from_data: walks the words of data, writing each mapped field
        into gll as it goes; returns whether there were exactly 8 fields,
        or aborts where an interpreter throws. */
    static method FromData(data: string, gll: Gll) returns (result: Outcome)
      modifies gll
      ensures var w := Walk(Step, old(gll.Value()), Split(data), 0);
        gll.Value() == w.rec && result == Verdict(w, |Split(data)|, FieldCount)
    {
      var words := Split(data);
      var field: nat := 0;
      while field < |words|
        invariant field <= |words|
        invariant Walk(Step, old(gll.Value()), words, 0) == Walk(Step, gll.Value(), words, field)
      {
        ghost var before := gll.Value();
        var ok := gll.Store(field, words[field]);
        if !ok {
          WalkStop(Step, before, words, field);
          return Aborted;
        }
        WalkNext(Step, before, words, field, gll.Value());
        field := field + 1;
      }
      result := Returned(field == FieldCount);
    }
  }
}
