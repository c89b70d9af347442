/** gsv::from_data (nmea/nmea.cpp): satellites in view. The text is first
    cut at its first '*', then split. Fields: 0 talker, 1 sentence count,
    2 sentence number and 3 satellite count (all skipped), then four groups
    of four, 4 + 4i to 7 + 4i, giving PRN, elevation, azimuth and SNR of
    satellite i. */
module GsvSentence {
  import opened Text
  import opened Records
  import opened Nmea
  import opened Walks

  const FieldCount: nat := 20

  /** The position of the first satellite field, and the number of
      satellites a sentence carries. */
  const FirstSat: nat := 4
  const SatCount: nat := 4

  // The arms of the switch in gsv::from_data. Each satellite arm computes
  // its satellite from the position with its own formula, as the C++ does;
  // the switch below chooses each arm only at the positions where that
  // formula gives a satellite in 0..3, so the guard never fails there.

  function SetSource(r: GsvData, field: nat, word: string): Option<GsvData>
  {
    Some(r.(source := Talker(word)))
  }

  function Skip(r: GsvData, field: nat, word: string): Option<GsvData>
  {
    Some(r)
  }

  function SetPrn(r: GsvData, field: nat, word: string): Option<GsvData>
  {
    var n :- Slot(word);
    var i := (field - 4) / 4;
    if 0 <= i < SatCount then Some(r.(sats := r.sats[i := r.sats[i].(prn := n)])) else Some(r)
  }

  function SetElev(r: GsvData, field: nat, word: string): Option<GsvData>
  {
    var n :- Slot(word);
    var i := (field - 5) / 4;
    if 0 <= i < SatCount then Some(r.(sats := r.sats[i := r.sats[i].(elev := n)])) else Some(r)
  }

  function SetAzim(r: GsvData, field: nat, word: string): Option<GsvData>
  {
    var n :- Slot(word);
    var i := (field - 6) / 4;
    if 0 <= i < SatCount then Some(r.(sats := r.sats[i := r.sats[i].(azim := n)])) else Some(r)
  }

  function SetSnr(r: GsvData, field: nat, word: string): Option<GsvData>
  {
    var n :- Slot(word);
    var i := (field - 7) / 4;
    if 0 <= i < SatCount then Some(r.(sats := r.sats[i := r.sats[i].(snr := n)])) else Some(r)
  }

  /** The switch: the arm at each position. Positions 4, 8, 12, 16 are
      PRNs, 5, 9, 13, 17 elevations, 6, 10, 14, 18 azimuths and 7, 11, 15, 19
      SNRs; every other position but 0 is skipped. */
  function Arm(field: nat): (GsvData, nat, string) -> Option<GsvData>
  {
    if field == 0 then SetSource
    else if field < FirstSat || FieldCount <= field then Skip
    else
      var part := (field - FirstSat) % 4;
      if part == 0 then SetPrn else if part == 1 then SetElev else if part == 2 then SetAzim else SetSnr
  }

  function Step(r: GsvData, field: nat, word: string): Option<GsvData>
  {
    Arm(field)(r, field, word)
  }

  /** Component part (0 PRN, 1 elevation, 2 azimuth, 3 SNR) of a satellite
      set to n. */
  function SetPart(s: GsvSat, part: nat, n: UInt): GsvSat
    requires part < 4
  {
    match part
    case 0 => s.(prn := n)
    case 1 => s.(elev := n)
    case 2 => s.(azim := n)
    case 3 => s.(snr := n)
  }

  /** The four arms, each at satellite i. */
  lemma {:induction false} StepPrn(r: GsvData, i: nat, word: string)
    requires i < SatCount
    ensures Step(r, FirstSat + 4 * i, word)
      == if Slot(word).None? then None else Some(r.(sats := r.sats[i := r.sats[i].(prn := Slot(word).value)]))
  {
    assert (FirstSat + 4 * i - FirstSat) % 4 == 0;
    assert (FirstSat + 4 * i - 4) / 4 == i;
  }

  lemma {:induction false} StepElev(r: GsvData, i: nat, word: string)
    requires i < SatCount
    ensures Step(r, FirstSat + 4 * i + 1, word)
      == if Slot(word).None? then None else Some(r.(sats := r.sats[i := r.sats[i].(elev := Slot(word).value)]))
  {
    assert (FirstSat + 4 * i + 1 - FirstSat) % 4 == 1;
    assert (FirstSat + 4 * i + 1 - 5) / 4 == i;
  }

  lemma {:induction false} StepAzim(r: GsvData, i: nat, word: string)
    requires i < SatCount
    ensures Step(r, FirstSat + 4 * i + 2, word)
      == if Slot(word).None? then None else Some(r.(sats := r.sats[i := r.sats[i].(azim := Slot(word).value)]))
  {
    assert (FirstSat + 4 * i + 2 - FirstSat) % 4 == 2;
    assert (FirstSat + 4 * i + 2 - 6) / 4 == i;
  }

  lemma {:induction false} StepSnr(r: GsvData, i: nat, word: string)
    requires i < SatCount
    ensures Step(r, FirstSat + 4 * i + 3, word)
      == if Slot(word).None? then None else Some(r.(sats := r.sats[i := r.sats[i].(snr := Slot(word).value)]))
  {
    assert (FirstSat + 4 * i + 3 - FirstSat) % 4 == 3;
    assert (FirstSat + 4 * i + 3 - 7) / 4 == i;
  }

  /** The addressing of the four groups stated once: position field in
      4..19 writes component (field - 4) % 4 of satellite (field - 4) / 4, or
      fails when its text does not read. */
  lemma {:induction false} Addressing(r: GsvData, field: nat, word: string)
    requires FirstSat <= field < FirstSat + 4 * SatCount
    ensures var i := (field - FirstSat) / 4; var part := (field - FirstSat) % 4;
      i < SatCount
      && Step(r, field, word) == if Slot(word).None? then None
                                 else Some(r.(sats := r.sats[i := SetPart(r.sats[i], part, Slot(word).value)]))
  {
    var i := (field - FirstSat) / 4;
    var part := (field - FirstSat) % 4;
    assert field == FirstSat + 4 * i + part;
    match part
    case 0 => StepPrn(r, i, word);
    case 1 => StepElev(r, i, word);
    case 2 => StepAzim(r, i, word);
    case 3 => StepSnr(r, i, word);
  }

  /** The satellite that its four fields give, or None when one does not
      read. */
  function ReadSat(prn: string, elev: string, azim: string, snr: string): Option<GsvSat>
  {
    var p :- Slot(prn);
    var e :- Slot(elev);
    var a :- Slot(azim);
    var s :- Slot(snr);
    Some(GsvSat(p, e, a, s))
  }

  /** Satellite i of a sentence, from fields 4 + 4i to 7 + 4i. */
  function SatAt(words: seq<string>, i: nat): Option<GsvSat>
    requires |words| >= FieldCount && i < SatCount
  {
    var f := FirstSat + 4 * i;
    ReadSat(words[f], words[f + 1], words[f + 2], words[f + 3])
  }

  /** The satellites i to 3 that the fields of a sentence give. */
  function ReadSats(words: seq<string>, i: nat): (r: Option<seq<GsvSat>>)
    requires |words| >= FieldCount && i <= SatCount
    ensures r.Some? <==> forall k :: i <= k < SatCount ==> SatAt(words, k).Some?
    ensures r.Some? ==> |r.value| == SatCount - i
    ensures r.Some? ==> forall k :: i <= k < SatCount ==> r.value[k - i] == SatAt(words, k).value
    decreases SatCount - i
  {
    if i == SatCount then Some([])
    else
      var s :- SatAt(words, i);
      var rest :- ReadSats(words, i + 1);
      Some([s] + rest)
  }

  /** Reading from satellite i on: satellite i, then the rest. */
  lemma {:induction false} ReadsOn(words: seq<string>, i: nat, s: GsvSat, rest: seq<GsvSat>)
    requires |words| >= FieldCount && i < SatCount
    requires SatAt(words, i) == Some(s) && ReadSats(words, i + 1) == Some(rest)
    ensures ReadSats(words, i) == Some([s] + rest)
  {
  }

  /** What the fields of a GSV sentence say, each read on its own. */
  function Reading(words: seq<string>): Option<GsvData>
    requires |words| >= FieldCount
  {
    var sats :- ReadSats(words, 0);
    Some(GsvData(Talker(words[0]), sats))
  }

  lemma {:induction false} SkipsAfterSats()
    ensures SkipsFrom(Step, FieldCount)
  {
  }

  // One satellite field: it aborts when its text does not read, and
  // otherwise sets one component of satellite i.

  lemma {:induction false} PrnWalk(r: GsvData, words: seq<string>, i: nat)
    requires |words| >= FieldCount && i < SatCount
    ensures var f := FirstSat + 4 * i; var n := Slot(words[f]);
      (n.None? ==> Walk(Step, r, words, f).aborted)
      && (n.Some? ==> Walk(Step, r, words, f) == Walk(Step, r.(sats := r.sats[i := r.sats[i].(prn := n.value)]), words, f + 1))
  {
    var f := FirstSat + 4 * i;
    StepPrn(r, i, words[f]);
    if Slot(words[f]).None? { WalkStop(Step, r, words, f); }
    else { WalkNext(Step, r, words, f, r.(sats := r.sats[i := r.sats[i].(prn := Slot(words[f]).value)])); }
  }

  lemma {:induction false} ElevWalk(r: GsvData, words: seq<string>, i: nat)
    requires |words| >= FieldCount && i < SatCount
    ensures var f := FirstSat + 4 * i + 1; var n := Slot(words[f]);
      (n.None? ==> Walk(Step, r, words, f).aborted)
      && (n.Some? ==> Walk(Step, r, words, f) == Walk(Step, r.(sats := r.sats[i := r.sats[i].(elev := n.value)]), words, f + 1))
  {
    var f := FirstSat + 4 * i + 1;
    StepElev(r, i, words[f]);
    if Slot(words[f]).None? { WalkStop(Step, r, words, f); }
    else { WalkNext(Step, r, words, f, r.(sats := r.sats[i := r.sats[i].(elev := Slot(words[f]).value)])); }
  }

  lemma {:induction false} AzimWalk(r: GsvData, words: seq<string>, i: nat)
    requires |words| >= FieldCount && i < SatCount
    ensures var f := FirstSat + 4 * i + 2; var n := Slot(words[f]);
      (n.None? ==> Walk(Step, r, words, f).aborted)
      && (n.Some? ==> Walk(Step, r, words, f) == Walk(Step, r.(sats := r.sats[i := r.sats[i].(azim := n.value)]), words, f + 1))
  {
    var f := FirstSat + 4 * i + 2;
    StepAzim(r, i, words[f]);
    if Slot(words[f]).None? { WalkStop(Step, r, words, f); }
    else { WalkNext(Step, r, words, f, r.(sats := r.sats[i := r.sats[i].(azim := Slot(words[f]).value)])); }
  }

  lemma {:induction false} SnrWalk(r: GsvData, words: seq<string>, i: nat)
    requires |words| >= FieldCount && i < SatCount
    ensures var f := FirstSat + 4 * i + 3; var n := Slot(words[f]);
      (n.None? ==> Walk(Step, r, words, f).aborted)
      && (n.Some? ==> Walk(Step, r, words, f) == Walk(Step, r.(sats := r.sats[i := r.sats[i].(snr := n.value)]), words, f + 1))
  {
    var f := FirstSat + 4 * i + 3;
    StepSnr(r, i, words[f]);
    if Slot(words[f]).None? { WalkStop(Step, r, words, f); }
    else { WalkNext(Step, r, words, f, r.(sats := r.sats[i := r.sats[i].(snr := Slot(words[f]).value)])); }
  }

  /** PRN and elevation of satellite i. */
  lemma {:induction false} FrontWalk(r: GsvData, words: seq<string>, i: nat)
    requires |words| >= FieldCount && i < SatCount
    ensures var f := FirstSat + 4 * i; var p := Slot(words[f]); var e := Slot(words[f + 1]);
      (p.None? || e.None? ==> Walk(Step, r, words, f).aborted)
      && (p.Some? && e.Some? ==>
            Walk(Step, r, words, f) == Walk(Step, r.(sats := r.sats[i := r.sats[i].(prn := p.value, elev := e.value)]), words, f + 2))
  {
    var f := FirstSat + 4 * i;
    PrnWalk(r, words, i);
    var p := Slot(words[f]);
    if p.Some? {
      var r1 := r.(sats := r.sats[i := r.sats[i].(prn := p.value)]);
      ElevWalk(r1, words, i);
      var e := Slot(words[f + 1]);
      if e.Some? {
        assert r1.sats[i := r1.sats[i].(elev := e.value)] == r.sats[i := r.sats[i].(prn := p.value, elev := e.value)];
      }
    }
  }

  /** Azimuth and SNR of satellite i. */
  lemma {:induction false} BackWalk(r: GsvData, words: seq<string>, i: nat)
    requires |words| >= FieldCount && i < SatCount
    ensures var f := FirstSat + 4 * i + 2; var a := Slot(words[f]); var n := Slot(words[f + 1]);
      (a.None? || n.None? ==> Walk(Step, r, words, f).aborted)
      && (a.Some? && n.Some? ==>
            Walk(Step, r, words, f) == Walk(Step, r.(sats := r.sats[i := r.sats[i].(azim := a.value, snr := n.value)]), words, f + 2))
  {
    var f := FirstSat + 4 * i + 2;
    AzimWalk(r, words, i);
    var a := Slot(words[f]);
    if a.Some? {
      var r1 := r.(sats := r.sats[i := r.sats[i].(azim := a.value)]);
      SnrWalk(r1, words, i);
      var n := Slot(words[f + 1]);
      if n.Some? {
        assert r1.sats[i := r1.sats[i].(snr := n.value)] == r.sats[i := r.sats[i].(azim := a.value, snr := n.value)];
      }
    }
  }

  /** One group of four fields: it aborts when one of them does not read and
      otherwise replaces satellite i as a whole. */
  lemma {:induction false} SatWalk(r: GsvData, words: seq<string>, i: nat)
    requires |words| >= FieldCount && i < SatCount
    ensures var f := FirstSat + 4 * i; var s := SatAt(words, i);
      (s.None? ==> Walk(Step, r, words, f).aborted)
      && (s.Some? ==> Walk(Step, r, words, f) == Walk(Step, r.(sats := r.sats[i := s.value]), words, FirstSat + 4 * (i + 1)))
  {
    var f := FirstSat + 4 * i;
    FrontWalk(r, words, i);
    var p := Slot(words[f]);
    var e := Slot(words[f + 1]);
    if p.Some? && e.Some? {
      var r2 := r.(sats := r.sats[i := r.sats[i].(prn := p.value, elev := e.value)]);
      BackWalk(r2, words, i);
      var a := Slot(words[f + 2]);
      var n := Slot(words[f + 3]);
      if a.Some? && n.Some? {
        assert r2.sats[i := r2.sats[i].(azim := a.value, snr := n.value)] == r.sats[i := SatAt(words, i).value];
      }
    }
  }

  /** What the walk from satellite i on does: it aborts at the first group
      that does not read, and otherwise keeps satellites before i and fills
      the rest. */
  ghost predicate Fills(r: GsvData, words: seq<string>, i: nat)
    requires |words| >= FieldCount && i <= SatCount
  {
    var w := Walk(Step, r, words, FirstSat + 4 * i); var rest := ReadSats(words, i);
    (w.aborted <==> rest.None?) && (!w.aborted ==> w.rec == r.(sats := r.sats[..i] + rest.value))
  }

  /** Past the last satellite the walk only skips. */
  lemma {:induction false} FillsAtEnd(r: GsvData, words: seq<string>)
    requires |words| >= FieldCount
    ensures Fills(r, words, SatCount)
  {
    assert FirstSat + 4 * SatCount == FieldCount;
    SkipsAfterSats();
    WalkSkipped(Step, FieldCount, r, words, FieldCount);
    assert r.sats[..SatCount] + [] == r.sats;
  }

  /** The record after satellite i reads, or the record as it was when it
      does not. */
  function Put(r: GsvData, words: seq<string>, i: nat): GsvData
    requires |words| >= FieldCount && i < SatCount
  {
    var s := SatAt(words, i);
    if s.Some? then r.(sats := r.sats[i := s.value]) else r
  }

  /** Satellite i followed by what the walk does from satellite i + 1. */
  lemma {:induction false} FillsStep(r: GsvData, words: seq<string>, i: nat)
    requires |words| >= FieldCount && i < SatCount
    requires Fills(Put(r, words, i), words, i + 1)
    ensures Fills(r, words, i)
  {
    SatWalk(r, words, i);
    var s := SatAt(words, i);
    if s.Some? {
      var next := r.(sats := r.sats[i := s.value]);
      var rest := ReadSats(words, i + 1);
      if rest.Some? {
        assert ReadSats(words, i) == Some([s.value] + rest.value);
        Overwrite(r.sats, i, s.value, rest.value);
        assert next.(sats := next.sats[..i + 1] + rest.value) == r.(sats := r.sats[..i] + ([s.value] + rest.value));
      }
    }
  }

  /** All four satellites, one group after the other. */
  lemma {:induction false} FromSat(r: GsvData, words: seq<string>)
    requires |words| >= FieldCount
    ensures Fills(r, words, 0)
  {
    var r1 := Put(r, words, 0);
    var r2 := Put(r1, words, 1);
    var r3 := Put(r2, words, 2);
    FillsAtEnd(Put(r3, words, 3), words);
    FillsStep(r3, words, 3);
    FillsStep(r2, words, 2);
    FillsStep(r1, words, 1);
    FillsStep(r, words, 0);
  }

  /** Writing element i of a sequence and keeping its first i + 1 elements is
      keeping its first i and adding the new one. */
  lemma {:induction false} Overwrite<T>(a: seq<T>, i: nat, x: T, rest: seq<T>)
    requires i < |a|
    ensures a[i := x][..i + 1] + rest == a[..i] + ([x] + rest)
  {
    assert a[i := x][..i + 1] == a[..i] + [x];
  }

  /** The field map: walking a sentence of at least 20 fields aborts exactly
      when a satellite field does not read, and otherwise leaves the record
      that the fields say, whatever the record held before. */
  lemma {:induction false} WalkReading(r: GsvData, words: seq<string>)
    requires |words| >= FieldCount
    ensures var w := Walk(Step, r, words, 0);
      (w.aborted <==> Reading(words).None?) && (!w.aborted ==> w.rec == Reading(words).value)
  {
    var r1 := r.(source := Talker(words[0]));
    WalkNext(Step, r, words, 0, r1);
    WalkNext(Step, r1, words, 1, r1);
    WalkNext(Step, r1, words, 2, r1);
    WalkNext(Step, r1, words, 3, r1);
    FromSat(r1, words);
    assert r1.sats[..0] == [];
    var rest := ReadSats(words, 0);
    if rest.Some? {
      assert r1.sats[..0] + rest.value == rest.value;
    }
  }

  /** gsv::from_data returns true exactly when the text before the checksum
      has 20 fields whose satellite fields all read, and the record then
      holds what they say. */
  lemma {:induction false} Success(r: GsvData, data: string)
    ensures var words := Split(Body(data)); var w := Walk(Step, r, words, 0);
      (Verdict(w, |words|, FieldCount) == Returned(true) <==> |words| == FieldCount && Reading(words).Some?)
      && (Verdict(w, |words|, FieldCount) == Returned(true) ==> w.rec == Reading(words).value)
  {
    var words := Split(Body(data));
    if |words| >= FieldCount { WalkReading(r, words); }
  }

  /** Fields after the twentieth change nothing in the record (the call then
      returns false). */
  lemma {:induction false} ExtraFields(r: GsvData, words: seq<string>, extra: seq<string>)
    requires |words| >= FieldCount
    ensures Walk(Step, r, words + extra, 0) == Walk(Step, r, words, 0)
  {
    SkipsAfterSats();
    assert SkipsFrom(Step, |words|);
    WalkTrailing(Step, |words|, r, words + extra, 0);
    assert (words + extra)[..|words|] == words;
  }

  /** The satellites of the sentence at example/main.cpp:73, one by one. */
  lemma {:induction false} ExampleSat0(words: seq<string>)
    requires |words| >= FieldCount
    requires words[4] == "18" && words[5] == "16" && words[6] == "298" && words[7] == "25"
    ensures SatAt(words, 0) == Some(GsvSat(18, 16, 298, 25))
  {
    assert DigitsValue(words[6]) == 298 by { assert words[6][..2] == "29" && "29"[..1] == "2"; }
    SlotDigits(words[6]);
    TwoDigitSlot(words[4], 18);
    TwoDigitSlot(words[5], 16);
    TwoDigitSlot(words[7], 25);
  }

  /** Its second satellite reports no SNR: the empty field reads 0. */
  lemma {:induction false} ExampleSat1(words: seq<string>)
    requires |words| >= FieldCount
    requires words[8] == "24" && words[9] == "08" && words[10] == "249" && words[11] == ""
    ensures SatAt(words, 1) == Some(GsvSat(24, 8, 249, 0))
  {
    assert DigitsValue(words[10]) == 249 by { assert words[10][..2] == "24" && "24"[..1] == "2"; }
    SlotDigits(words[10]);
    TwoDigitSlot(words[8], 24);
    TwoDigitSlot(words[9], 8);
  }

  /** Its third satellite, with leading zeros. */
  lemma {:induction false} ExampleSat2(words: seq<string>)
    requires |words| >= FieldCount
    requires words[12] == "08" && words[13] == "08" && words[14] == "029" && words[15] == "18"
    ensures SatAt(words, 2) == Some(GsvSat(8, 8, 29, 18))
  {
    assert DigitsValue(words[14]) == 29 by { assert words[14][..2] == "02" && "02"[..1] == "0"; }
    SlotDigits(words[14]);
    TwoDigitSlot(words[12], 8);
    TwoDigitSlot(words[13], 8);
    TwoDigitSlot(words[15], 18);
  }

  /** Its last group is empty: a sentence with three satellites leaves the
      fourth all zeros. */
  lemma {:induction false} ExampleSat3(words: seq<string>)
    requires |words| >= FieldCount
    requires words[16] == "" && words[17] == "" && words[18] == "" && words[19] == ""
    ensures SatAt(words, 3) == Some(NoSat)
  {
  }

  /** Four satellites that read give the satellites of the record, in order. */
  lemma {:induction false} ReadsAll(words: seq<string>, s0: GsvSat, s1: GsvSat, s2: GsvSat, s3: GsvSat)
    requires |words| >= FieldCount
    requires SatAt(words, 0) == Some(s0) && SatAt(words, 1) == Some(s1)
    requires SatAt(words, 2) == Some(s2) && SatAt(words, 3) == Some(s3)
    ensures ReadSats(words, 0) == Some([s0, s1, s2, s3])
  {
    ReadsOn(words, 3, s3, []);
    ReadsOn(words, 2, s2, [s3] + []);
    ReadsOn(words, 1, s1, [s2] + ([s3] + []));
    ReadsOn(words, 0, s0, [s1] + ([s2] + ([s3] + [])));
    assert [s0] + ([s1] + ([s2] + ([s3] + []))) == [s0, s1, s2, s3];
  }

  /** The fields of that sentence. */
  lemma {:induction false} ExampleReading(words: seq<string>)
    requires |words| == 20 && words[0] == "$GPGSV"
    requires words[4] == "18" && words[5] == "16" && words[6] == "298" && words[7] == "25"
    requires words[8] == "24" && words[9] == "08" && words[10] == "249" && words[11] == ""
    requires words[12] == "08" && words[13] == "08" && words[14] == "029" && words[15] == "18"
    requires words[16] == "" && words[17] == "" && words[18] == "" && words[19] == ""
    ensures Reading(words) == Some(GsvData(Gps, [GsvSat(18, 16, 298, 25), GsvSat(24, 8, 249, 0),
                                                 GsvSat(8, 8, 29, 18), NoSat]))
  {
    assert Talker(words[0]) == Gps by { assert words[0][..3] == "$GP"; }
    ExampleSat0(words);
    ExampleSat1(words);
    ExampleSat2(words);
    ExampleSat3(words);
    ReadsAll(words, GsvSat(18, 16, 298, 25), GsvSat(24, 8, 249, 0), GsvSat(8, 8, 29, 18), NoSat);
  }

  /** Walking the words of the sentence at example/main.cpp:73 before its
      checksum, given as a list. */
  lemma {:induction false} Example(r: GsvData, words: seq<string>)
    requires words == ["$GPGSV", "3", "3", "11", "18", "16", "298", "25", "24", "08", "249", "",
                       "08", "08", "029", "18", "", "", "", ""]
    ensures var w := Walk(Step, r, words, 0);
      w == Walked(GsvData(Gps, [GsvSat(18, 16, 298, 25), GsvSat(24, 8, 249, 0), GsvSat(8, 8, 29, 18), NoSat]), false)
      && Verdict(w, |words|, FieldCount) == Returned(true)
  {
    ExampleReading(words);
    WalkReading(r, words);
  }

  /** Class gsv: the record, written in place by from_data, with its
      satellites in a fixed array of four. */
  class Gsv {
    var source: TalkerId
    const sats: array<GsvSat>

    predicate Valid()
      reads this
    {
      sats.Length == SatCount
    }

    function Value(): GsvData
      reads this, sats
      requires Valid()
    {
      GsvData(source, sats[..])
    }

    /** A record with the talker unset and every satellite all zeros. */
    constructor ()
      ensures Valid() && fresh(sats)
      ensures Value() == GsvData(NotSet, [NoSat, NoSat, NoSat, NoSat])
    {
      source := NotSet;
      sats := new GsvSat[4](_ => NoSat);
    }

    /** One turn of the switch in gsv::from_data: a satellite position
        writes one component of one satellite and leaves the other
        satellites as they were; an interpreter that throws writes nothing.
        Slot is the empty-or-stoi reading each arm repeats. */
    method Store(field: nat, word: string) returns (ok: bool)
      requires Valid()
      modifies this, sats
      ensures Valid()
      ensures FirstSat <= field < FirstSat + 4 * SatCount ==>
        forall j :: 0 <= j < SatCount && j != (field - FirstSat) / 4 ==> sats[j] == old(sats[j])
      ensures var next := Step(old(Value()), field, word);
        ok == next.Some? && Value() == (if ok then next.value else old(Value()))
    {
      ok := true;
      if field == 0 {
        source := Talker(word);
      } else if field == 4 || field == 8 || field == 12 || field == 16 {
        var n := Slot(word);
        if n.None? { return false; }
        sats[(field - 4) / 4] := sats[(field - 4) / 4].(prn := n.value);
      } else if field == 5 || field == 9 || field == 13 || field == 17 {
        var n := Slot(word);
        if n.None? { return false; }
        sats[(field - 5) / 4] := sats[(field - 5) / 4].(elev := n.value);
      } else if field == 6 || field == 10 || field == 14 || field == 18 {
        var n := Slot(word);
        if n.None? { return false; }
        sats[(field - 6) / 4] := sats[(field - 6) / 4].(azim := n.value);
      } else if field == 7 || field == 11 || field == 15 || field == 19 {
        var n := Slot(word);
        if n.None? { return false; }
        sats[(field - 7) / 4] := sats[(field - 7) / 4].(snr := n.value);
      }
    }

    /** gsv::from_data: cuts data at the checksum, walks its words, writing
        each mapped field into gsv as it goes; returns whether there were
        exactly 20 fields, or aborts where stoi throws. */
    static method FromData(data: string, gsv: Gsv) returns (result: Outcome)
      requires gsv.Valid()
      modifies gsv, gsv.sats
      ensures gsv.Valid()
      ensures var w := Walk(Step, old(gsv.Value()), Split(Body(data)), 0);
        gsv.Value() == w.rec && result == Verdict(w, |Split(Body(data))|, FieldCount)
    {
      var v := Before(data, '*');
      var words := Split(v);
      var field: nat := 0;
      while field < |words|
        invariant field <= |words| && gsv.Valid()
        invariant Walk(Step, old(gsv.Value()), words, 0) == Walk(Step, gsv.Value(), words, field)
      {
        ghost var before := gsv.Value();
        var ok := gsv.Store(field, words[field]);
        if !ok {
          WalkStop(Step, before, words, field);
          return Aborted;
        }
        WalkNext(Step, before, words, field, gsv.Value());
        field := field + 1;
      }
      result := Returned(field == FieldCount);
    }
  }
}
