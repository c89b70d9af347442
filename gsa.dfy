/** gsa::from_data (nmea/nmea.cpp): active satellites. The text is first
    cut at its first '*', then split. Fields: 0 talker, 1 mode and 2 fix type
    (skipped), 3 to 14 the twelve PRN slots, 15 system id, 16 and 17
    (skipped). */
module GsaSentence {
  import opened Text
  import opened Records
  import opened Nmea
  import opened Walks

  const FieldCount: nat := 18

  /** The first and one past the last position of the PRN slots. */
  const FirstSlot: nat := 3
  const SlotCount: nat := 12

  /** The switch of gsa::from_data: position field in 3..14 writes slot
      field - 3, and an empty field writes 0. */
  function Step(r: GsaData, field: nat, word: string): Option<GsaData>
  {
    if field == 0 then Some(r.(source := Talker(word)))
    else if FirstSlot <= field < FirstSlot + SlotCount then
      var n :- Slot(word);
      Some(r.(sats := r.sats[field - FirstSlot := n]))
    else if field == 15 then Some(r.(systemId := System(word)))
    else Some(r)
  }

  /** The PRN slots that a run of fields gives, or None when one of them
      does not read. */
  function ReadSlots(ws: seq<string>): (r: Option<seq<UInt>>)
    ensures r.Some? <==> forall i :: 0 <= i < |ws| ==> Slot(ws[i]).Some?
    ensures r.Some? ==> |r.value| == |ws| && forall i :: 0 <= i < |ws| ==> r.value[i] == Slot(ws[i]).value
  {
    if ws == [] then Some([])
    else
      var n :- Slot(ws[0]);
      var rest :- ReadSlots(ws[1..]);
      assert forall i :: 1 <= i < |ws| ==> ws[i] == ws[1..][i - 1];
      Some([n] + rest)
  }

  /** What the fields of a GSA sentence say, each read on its own. */
  function Reading(words: seq<string>): Option<GsaData>
    requires |words| >= 16
  {
    var sats :- ReadSlots(words[FirstSlot..FirstSlot + SlotCount]);
    Some(GsaData(Talker(words[0]), System(words[15]), sats))
  }

  lemma {:induction false} SkipsAfterSystem()
    ensures SkipsFrom(Step, 16)
  {
  }

  /** What the walk from slot i on does: it aborts at the first slot that
      does not read, and otherwise keeps slots before i, fills the rest and
      sets the system id. */
  ghost predicate Fills(r: GsaData, words: seq<string>, i: nat)
    requires |words| >= 16 && i <= SlotCount
  {
    var w := Walk(Step, r, words, FirstSlot + i); var rest := ReadSlots(words[FirstSlot + i..FirstSlot + SlotCount]);
    (w.aborted <==> rest.None?)
    && (!w.aborted ==> w.rec == GsaData(r.source, System(words[15]), r.sats[..i] + rest.value))
  }

  /** Past the last slot the walk sets the system id and then only skips. */
  lemma {:induction false} FillsAtEnd(r: GsaData, words: seq<string>)
    requires |words| >= 16
    ensures Fills(r, words, SlotCount)
  {
    assert words[FirstSlot + SlotCount..FirstSlot + SlotCount] == [] && r.sats[..SlotCount] == r.sats;
    var r16 := r.(systemId := System(words[15]));
    WalkNext(Step, r, words, 15, r16);
    SkipsAfterSystem();
    WalkSkipped(Step, 16, r16, words, 16);
  }

  /** The record after slot i reads, or the record as it was when it does
      not. */
  function Put(r: GsaData, words: seq<string>, i: nat): GsaData
    requires |words| >= 16 && i < SlotCount
  {
    var n := Slot(words[FirstSlot + i]);
    if n.Some? then r.(sats := r.sats[i := n.value]) else r
  }

  /** Slot i followed by what the walk does from slot i + 1. */
  lemma {:induction false} FillsStep(r: GsaData, words: seq<string>, i: nat)
    requires |words| >= 16 && i < SlotCount
    requires Fills(Put(r, words, i), words, i + 1)
    ensures Fills(r, words, i)
  {
    var ws := words[FirstSlot + i..FirstSlot + SlotCount];
    assert ws[0] == words[FirstSlot + i] && ws[1..] == words[FirstSlot + i + 1..FirstSlot + SlotCount];
    if Slot(words[FirstSlot + i]).None? {
      WalkStop(Step, r, words, FirstSlot + i);
    } else {
      var n := Slot(words[FirstSlot + i]).value;
      var next := r.(sats := r.sats[i := n]);
      WalkNext(Step, r, words, FirstSlot + i, next);
      assert next.sats[..i + 1] == r.sats[..i] + [n];
      if ReadSlots(ws[1..]).Some? {
        assert ReadSlots(ws).value == [n] + ReadSlots(ws[1..]).value;
      }
    }
  }

  /** Slots i to 11 and the system id, by induction on the slots left. */
  lemma {:induction false} FromSlot(r: GsaData, words: seq<string>, i: nat)
    requires |words| >= 16 && i <= SlotCount
    ensures Fills(r, words, i)
    decreases SlotCount - i
  {
    if i == SlotCount {
      FillsAtEnd(r, words);
    } else {
      FromSlot(Put(r, words, i), words, i + 1);
      FillsStep(r, words, i);
    }
  }

  /** The field map: walking a sentence that reaches the system id aborts
      exactly when a slot does not read, and otherwise leaves the record that
      the fields say, whatever the record held before. */
  lemma {:induction false} WalkReading(r: GsaData, words: seq<string>)
    requires |words| >= 16
    ensures var w := Walk(Step, r, words, 0);
      (w.aborted <==> Reading(words).None?) && (!w.aborted ==> w.rec == Reading(words).value)
  {
    var r1 := r.(source := Talker(words[0]));
    WalkNext(Step, r, words, 0, r1);
    WalkNext(Step, r1, words, 1, r1);
    WalkNext(Step, r1, words, 2, r1);
    FromSlot(r1, words, 0);
    assert r1.sats[..0] == [];
    var rest := ReadSlots(words[FirstSlot..FirstSlot + SlotCount]);
    if rest.Some? {
      assert r1.sats[..0] + rest.value == rest.value;
    }
  }

  /** gsa::from_data returns true exactly when the text before the checksum
      has 18 fields whose slots all read, and the record then holds what
      they say. */
  lemma {:induction false} Success(r: GsaData, data: string)
    ensures var words := Split(Body(data)); var w := Walk(Step, r, words, 0);
      (Verdict(w, |words|, FieldCount) == Returned(true) <==> |words| == FieldCount && Reading(words).Some?)
      && (Verdict(w, |words|, FieldCount) == Returned(true) ==> w.rec == Reading(words).value)
  {
    var words := Split(Body(data));
    if |words| >= 16 { WalkReading(r, words); }
  }

  /** Fields after the sixteenth change nothing in the record (the call then
      returns false). */
  lemma {:induction false} ExtraFields(r: GsaData, words: seq<string>, extra: seq<string>)
    requires |words| >= 16
    ensures Walk(Step, r, words + extra, 0) == Walk(Step, r, words, 0)
  {
    SkipsAfterSystem();
    assert SkipsFrom(Step, |words|);
    WalkTrailing(Step, |words|, r, words + extra, 0);
    assert (words + extra)[..|words|] == words;
  }

  /** The sentence at example/main.cpp:48 has its PDOP, 4.7, at position 15,
      so the system id reads as BeiDou. */
  lemma {:induction false} ExampleSystem(s: string)
    requires s == "4.7"
    ensures System(s) == Beidou
  {
    assert s[..1] == "4";
  }

  /** The slots of that sentence: two PRNs, then ten empty fields. */
  lemma {:induction false} ExampleSlots(ws: seq<string>, a: nat, b: nat)
    requires |ws| == 12 && a < 100 && b < 100 && ws[0] == TwoDigits(a) && ws[1] == TwoDigits(b)
    requires forall i :: 2 <= i < 12 ==> ws[i] == ""
    ensures ReadSlots(ws) == Some([a, b, 0, 0, 0, 0, 0, 0, 0, 0, 0, 0])
  {
    TwoDigitSlot(ws[0], a);
    TwoDigitSlot(ws[1], b);
    var want: seq<UInt> := [a, b, 0, 0, 0, 0, 0, 0, 0, 0, 0, 0];
    assert forall i :: 0 <= i < 12 ==> Slot(ws[i]) == Some(want[i]);
    assert ReadSlots(ws).value == want;
  }

  /** Walking the words of the sentence at example/main.cpp:48 before its
      checksum, given as a list. */
  lemma {:induction false} Example(r: GsaData, words: seq<string>)
    requires words == ["$GNGSA", "A", "3", "15", "18", "", "", "", "", "", "", "", "", "", "", "4.7", "3.7", "2.9"]
    ensures var w := Walk(Step, r, words, 0);
      w == Walked(GsaData(Multiconstellation, Beidou, [15, 18, 0, 0, 0, 0, 0, 0, 0, 0, 0, 0]), false)
      && Verdict(w, |words|, FieldCount) == Returned(true)
  {
    assert Talker(words[0]) == Multiconstellation by { assert words[0][..3] == "$GN"; }
    ExampleSystem(words[15]);
    assert words[3] == TwoDigits(15) && words[4] == TwoDigits(18);
    ExampleSlots(words[3..15], 15, 18);
    WalkReading(r, words);
  }

  /** Class gsa: the record, written in place by from_data, with its PRN
      slots in a fixed array of twelve. */
  class Gsa {
    var source: TalkerId
    var systemId: TalkerId
    const sats: array<UInt>

    predicate Valid()
      reads this
    {
      sats.Length == SlotCount
    }

    function Value(): GsaData
      reads this, sats
      requires Valid()
    {
      GsaData(source, systemId, sats[..])
    }

    /** A record with every member unset and every slot 0. */
    constructor ()
      ensures Valid() && fresh(sats)
      ensures Value() == GsaData(NotSet, NotSet, [0, 0, 0, 0, 0, 0, 0, 0, 0, 0, 0, 0])
    {
      source := NotSet;
      systemId := NotSet;
      sats := new UInt[12](_ => 0);
    }

    /** One turn of the switch in gsa::from_data: a slot position writes
        exactly one slot, sats[field - 3], and leaves the others as they
        were; an interpreter that throws writes nothing. */
    method Store(field: nat, word: string) returns (ok: bool)
      requires Valid()
      modifies this, sats
      ensures Valid()
      ensures FirstSlot <= field < FirstSlot + SlotCount ==>
        forall j :: 0 <= j < SlotCount && j != field - FirstSlot ==> sats[j] == old(sats[j])
      ensures var next := Step(old(Value()), field, word);
        ok == next.Some? && Value() == (if ok then next.value else old(Value()))
    {
      ok := true;
      if field == 0 {
        source := Talker(word);
      } else if FirstSlot <= field < FirstSlot + SlotCount {
        if |word| == 0 {
          sats[field - FirstSlot] := 0;
        } else {
          var n := Stoi(word);
          if n.None? { return false; }
          sats[field - FirstSlot] := n.value;
        }
      } else if field == 15 {
        systemId := System(word);
      }
    }

    /** gsa::from_data: cuts data at the checksum, walks its words, writing
        each mapped field into gsa as it goes; returns whether there were
        exactly 18 fields, or aborts where stoi throws. */
    static method FromData(data: string, gsa: Gsa) returns (result: Outcome)
      requires gsa.Valid()
      modifies gsa, gsa.sats
      ensures gsa.Valid()
      ensures var w := Walk(Step, old(gsa.Value()), Split(Body(data)), 0);
        gsa.Value() == w.rec && result == Verdict(w, |Split(Body(data))|, FieldCount)
    {
      var v := Before(data, '*');
      var words := Split(v);
      var field: nat := 0;
      while field < |words|
        invariant field <= |words| && gsa.Valid()
        invariant Walk(Step, old(gsa.Value()), words, 0) == Walk(Step, gsa.Value(), words, field)
      {
        ghost var before := gsa.Value();
        var ok := gsa.Store(field, words[field]);
        if !ok {
          WalkStop(Step, before, words, field);
          return Aborted;
        }
        WalkNext(Step, before, words, field, gsa.Value());
        field := field + 1;
      }
      result := Returned(field == FieldCount);
    }
  }
}
