/** The field interpreters: the static members of the utility class nmea
    in nmea/nmea.cpp. Each reads the text of one field. Where the C++ code
    throws (std::stoi, std::stof, substr) or fails an assert (dir, valid),
    the interpreter here returns None, and the decoders abort. The class
    holds no state, so these are plain functions. */
module Nmea {
  import opened Text
  import opened Records

  /** string_view::starts_with for a string prefix. */
  predicate StartsWith(s: string, prefix: string)
  {
    |prefix| <= |s| && s[..|prefix|] == prefix
  }

  /** string_view::starts_with for a single character. */
  predicate StartsWithChar(s: string, c: char)
  {
    s != [] && s[0] == c
  }

  // ---------------------------------------------------------------------
  // talker and system

  /** The constellation named by a sentence header; GPS when no known
      prefix matches, so a decoded source is never NotSet. */
  function Talker(s: string): (id: TalkerId)
    ensures id != NotSet
    ensures id == Glonass <==> StartsWith(s, "$GL")
    ensures id == Galileo <==> StartsWith(s, "$GA")
    ensures id == Beidou <==> StartsWith(s, "$BD")
    ensures id == Qzss <==> StartsWith(s, "$QZ")
    ensures id == Multiconstellation <==> StartsWith(s, "$GN")
  {
    if StartsWith(s, "$GP") then Gps
    else if StartsWith(s, "$GL") then Glonass
    else if StartsWith(s, "$GA") then Galileo
    else if StartsWith(s, "$BD") then Beidou
    else if StartsWith(s, "$QZ") then Qzss
    else if StartsWith(s, "$GN") then Multiconstellation
    else Gps
  }

  /** The header prefix a receiver sends for each constellation. */
  function Header(id: TalkerId): (h: string)
    requires id != NotSet
    ensures |h| == 3 && h[0] == '$'
  {
    match id
    case Gps => "$GP"
    case Glonass => "$GL"
    case Galileo => "$GA"
    case Beidou => "$BD"
    case Qzss => "$QZ"
    case Multiconstellation => "$GN"
  }

  /** Every constellation is recognised from its own header, whatever follows. */
  lemma {:induction false} TalkerOfHeader(id: TalkerId, rest: string)
    requires id != NotSet
    ensures Talker(Header(id) + rest) == id
  {
    assert (Header(id) + rest)[..3] == Header(id);
  }

  /** The constellation named by the leading digit of GSA's system-id field:
      1 to 5 for GPS to QZSS; GPS for anything else, the empty text included. */
  function System(s: string): (id: TalkerId)
    ensures id != NotSet && id != Multiconstellation
    ensures s == [] || !('1' <= s[0] <= '5') ==> id == Gps
  {
    if StartsWith(s, "1") then Gps
    else if StartsWith(s, "2") then Glonass
    else if StartsWith(s, "3") then Galileo
    else if StartsWith(s, "4") then Beidou
    else if StartsWith(s, "5") then Qzss
    else Gps
  }

  /** The digit that names a single constellation in the system-id field. */
  function SystemDigit(id: TalkerId): (c: char)
    requires id != NotSet && id != Multiconstellation
    ensures '1' <= c <= '5'
  {
    match id
    case Gps => '1'
    case Glonass => '2'
    case Galileo => '3'
    case Beidou => '4'
    case Qzss => '5'
  }

  /** Each single constellation is recognised from its digit, whatever follows. */
  lemma {:induction false} SystemOfDigit(id: TalkerId, rest: string)
    requires id != NotSet && id != Multiconstellation
    ensures System([SystemDigit(id)] + rest) == id
  {
    assert ([SystemDigit(id)] + rest)[..1] == [SystemDigit(id)];
  }

  // ---------------------------------------------------------------------
  // coord and dir

  /** Degrees and minutes to decimal degrees: the first k characters are
      whole degrees, the rest are minutes, divided by 60. Fails when either
      part does not read as a number (the empty minutes part included). */
  function Coord(k: nat, s: string): (r: Option<Angle>)
    ensures r.Some? <==> k <= |s| && Stof(s[..k]).Some? && Stof(s[k..]).Some?
    ensures r.Some? ==> !r.value.negative
  {
    if k > |s| then None
    else
      var degrees :- Stof(s[..k]);
      var minutes :- Stof(s[k..]);
      Some(Angle(false, degrees, minutes))
  }

  /** The value is the degrees read plus the minutes read over 60. */
  lemma {:induction false} CoordValue(k: nat, s: string)
    requires Coord(k, s).Some?
    ensures Degrees(Coord(k, s).value) == DecimalValue(Stof(s[..k]).value) + DecimalValue(Stof(s[k..]).value) / 60.0
  {
  }

  /** With whole degrees and fewer than 60 minutes, the result lies between
      the degrees and the next degree: the degrees are its whole part. */
  lemma {:induction false} CoordWithinDegree(k: nat, s: string)
    requires 0 < k <= |s| && AllDigits(s[..k])
    requires Coord(k, s).Some? && DecimalValue(Stof(s[k..]).value) < 60.0
    ensures DigitsValue(s[..k]) as real <= Degrees(Coord(k, s).value) < (DigitsValue(s[..k]) + 1) as real
  {
    var m := Stof(s[k..]).value;
    assert Stof(s[..k]) == Some(Whole(DigitsValue(s[..k])));
    assert 0.0 <= DecimalValue(m) by { DecimalNonNegative(m); }
    assert 0.0 <= DecimalValue(m) / 60.0 < 1.0;
  }

  /** The compass letter at the start of the field. The C++ asserts that it is
      one of N, S, E, W; here any other start, or the empty text, fails. */
  function Dir(s: string): (r: Option<Direction>)
    ensures r.Some? <==> s != [] && (s[0] == 'N' || s[0] == 'S' || s[0] == 'E' || s[0] == 'W')
  {
    if StartsWithChar(s, 'N') then Some(N)
    else if StartsWithChar(s, 'S') then Some(S)
    else if StartsWithChar(s, 'E') then Some(E)
    else if StartsWithChar(s, 'W') then Some(W)
    else None
  }

  function Letter(d: Direction): char
  {
    match d
    case N => 'N'
    case S => 'S'
    case E => 'E'
    case W => 'W'
  }

  /** A field starting with a direction's letter reads as that direction. */
  lemma {:induction false} DirOfLetter(d: Direction, rest: string)
    ensures Dir([Letter(d)] + rest) == Some(d)
  {
  }

  /** A coordinate together with its direction field, as the decoders
      combine them: negated exactly when the direction is the given one (S
      for a latitude, W for a longitude); any other letter leaves it as read. */
  function Signed(k: nat, value: string, dir: string, negative: Direction): (r: Option<Angle>)
    ensures r.Some? <==> Coord(k, value).Some? && Dir(dir).Some?
    ensures r.Some? ==> (r.value.negative <==> Dir(dir) == Some(negative))
    ensures r.Some? ==> Negate(r.value) == Coord(k, value).value || r.value == Coord(k, value).value
  {
    var v :- Coord(k, value);
    var d :- Dir(dir);
    Some(if d == negative then Negate(v) else v)
  }

  // ---------------------------------------------------------------------
  // time and date

  /** HHMMSS.sss to milliseconds since midnight: hours, minutes and seconds
      read by stoi from the slices [0,2), [2,4), [4,6), milliseconds from the
      text after position 7. Position 6 is never looked at, and nothing is
      range checked. Text shorter than 8 characters fails (substr or stoi
      throws). */
  function Time(s: string): (t: Option<Millis>)
    ensures t.Some? ==> |s| >= 8 && IsDigit(s[0]) && IsDigit(s[2]) && IsDigit(s[4]) && IsDigit(s[7])
  {
    if |s| < 8 then None
    else
      var h :- Stoi(s[0..2]);
      var m :- Stoi(s[2..4]);
      var sec :- Stoi(s[4..6]);
      var ms :- Stoi(s[7..]);
      Some(h * 3_600_000 + m * 60_000 + sec * 1000 + ms)
  }

  /** Two-digit hours, minutes and seconds, a point and the millisecond
      digits read as the time they spell. */
  lemma {:induction false} TimeOfText(hh: string, mm: string, ss: string, ms: string)
    requires |hh| == 2 && |mm| == 2 && |ss| == 2 && AllDigits(hh) && AllDigits(mm) && AllDigits(ss)
    requires ms != [] && AllDigits(ms) && |ms| <= 9
    ensures Time(hh + mm + ss + "." + ms)
         == Some(DigitsValue(hh) * 3_600_000 + DigitsValue(mm) * 60_000 + DigitsValue(ss) * 1000 + DigitsValue(ms))
  {
    var s := hh + mm + ss + "." + ms;
    TimeTextSlices(hh, mm, ss, ms);
    StoiDigits(hh);
    StoiDigits(mm);
    StoiDigits(ss);
    StoiDigits(ms);
    TimeOfSlices(s, DigitsValue(hh), DigitsValue(mm), DigitsValue(ss), DigitsValue(ms));
  }

  lemma {:induction false} TimeTextSlices(hh: string, mm: string, ss: string, ms: string)
    requires |hh| == 2 && |mm| == 2 && |ss| == 2
    ensures var s := hh + mm + ss + "." + ms;
      |s| == 7 + |ms| && s[0..2] == hh && s[2..4] == mm && s[4..6] == ss && s[7..] == ms
  {
  }

  /** Time adds up what stoi reads from its four slices. */
  lemma {:induction false} TimeOfSlices(s: string, h: nat, m: nat, sec: nat, ms: nat)
    requires |s| >= 8
    requires Stoi(s[0..2]) == Some(h) && Stoi(s[2..4]) == Some(m) && Stoi(s[4..6]) == Some(sec)
    requires Stoi(s[7..]) == Some(ms)
    ensures Time(s) == Some(h * 3_600_000 + m * 60_000 + sec * 1000 + ms)
  {
  }

  /** For an in-range time the hh_mm_ss accessors give back the fields read. */
  lemma {:induction false} TimeFields(h: nat, m: nat, sec: nat, ms: nat)
    requires m < 60 && sec < 60 && ms < 1000
    ensures var t := h * 3_600_000 + m * 60_000 + sec * 1000 + ms;
      Hours(t) == h && Minutes(t) == m && Seconds(t) == sec && Subseconds(t) == ms
  {
    var t := h * 3_600_000 + m * 60_000 + sec * 1000 + ms;
    assert t / 1000 == h * 3600 + m * 60 + sec;
    assert t / 60_000 == h * 60 + m;
  }

  /** The character between seconds and milliseconds is not checked. */
  lemma {:induction false} TimeIgnoresSeparator(s: string, c: char)
    requires |s| >= 8
    ensures Time(s[6 := c]) == Time(s)
  {
    var u := s[6 := c];
    assert u[0..2] == s[0..2] && u[2..4] == s[2..4] && u[4..6] == s[4..6] && u[7..] == s[7..];
  }

  /** DDMMYY to a calendar date: day from [0,2), month from [2,4), the year
      from the rest plus 2000. Nothing is checked against the calendar. */
  function Date(s: string): (r: Option<YearMonthDay>)
    ensures r.Some? ==> |s| >= 5 && r.value.year >= 2000 && r.value.month < 100 && r.value.day < 100
  {
    if |s| < 5 then None
    else
      StoiBound(s[0..2]);
      StoiBound(s[2..4]);
      var day :- Stoi(s[0..2]);
      var month :- Stoi(s[2..4]);
      var year :- Stoi(s[4..]);
      Some(YearMonthDay(year + 2000, month, day))
  }

  /** The text a receiver sends for a date. */
  function DateText(day: nat, month: nat, yy: nat): string
    requires day < 100 && month < 100 && yy < 100
  {
    TwoDigits(day) + TwoDigits(month) + TwoDigits(yy)
  }

  /** A date written out reads back, in the 21st century. */
  lemma {:induction false} DateOfText(day: nat, month: nat, yy: nat)
    requires day < 100 && month < 100 && yy < 100
    ensures Date(DateText(day, month, yy)) == Some(YearMonthDay(2000 + yy, month, day))
  {
    var s := DateText(day, month, yy);
    assert s[0..2] == TwoDigits(day) && s[2..4] == TwoDigits(month) && s[4..] == TwoDigits(yy);
    TwoDigitsValue(day);
    TwoDigitsValue(month);
    TwoDigitsValue(yy);
    StoiDigits(TwoDigits(day));
    StoiDigits(TwoDigits(month));
    StoiDigits(TwoDigits(yy));
  }

  // ---------------------------------------------------------------------
  // valid and qual

  /** The status flag: A is valid, V is not. The C++ asserts that the field
      starts with one of them; here any other start, or the empty text, fails. */
  function Valid(s: string): (r: Option<bool>)
    ensures r.Some? <==> s != [] && (s[0] == 'A' || s[0] == 'V')
    ensures r == Some(true) <==> s != [] && s[0] == 'A'
  {
    if StartsWithChar(s, 'A') || StartsWithChar(s, 'V') then Some(StartsWithChar(s, 'A')) else None
  }

  function Flag(valid: bool): char { if valid then 'A' else 'V' }

  /** A field starting with a status letter reads back as that status. */
  lemma {:induction false} ValidOfFlag(valid: bool, rest: string)
    ensures Valid([Flag(valid)] + rest) == Some(valid)
  {
  }

  /** The fix quality: the whole field read as an integer and cast to the
      enumeration, named value or not. */
  function Qual(s: string): (r: Option<Quality>)
    ensures r.Some? ==> r.value as int <= IntMax
  {
    var n :- Stoi(s);
    Some(n as Quality)
  }

  /** Every code up to INT_MAX written out reads back as that quality. */
  lemma {:induction false} QualOfCode(n: nat)
    requires n <= IntMax
    ensures Qual(NatText(n)) == Some(n as Quality)
  {
    StoiNatText(n);
  }

  // ---------------------------------------------------------------------
  // The satellite fields of GSA and GSV

  /** An empty field reads 0 (an unused slot); any other is read by stoi,
      so it must start with a digit, and up to nine digits read as written. */
  function Slot(s: string): (r: Option<UInt>)
    ensures s == [] ==> r == Some(0)
    ensures r.Some? && s != [] ==> IsDigit(s[0])
  {
    if |s| == 0 then Some(0)
    else
      var n :- Stoi(s);
      Some(n)
  }

  /** Up to nine digits read as written. */
  lemma {:induction false} SlotDigits(s: string)
    requires s != [] && AllDigits(s) && |s| <= 9
    ensures Slot(s) == Some(DigitsValue(s))
  {
    StoiDigits(s);
  }

  /** A satellite field written in two digits, as receivers send them. */
  lemma {:induction false} TwoDigitSlot(s: string, n: nat)
    requires n < 100 && s == TwoDigits(n)
    ensures Slot(s) == Some(n)
  {
    TwoDigitsValue(n);
    SlotDigits(s);
  }

  // ---------------------------------------------------------------------
  // The field values of the sentences in example/main.cpp

  /** The degree part of the coordinates in example/main.cpp: digits only. */
  lemma {:induction false} WholeDegrees(s: string, n: nat)
    requires s == "50" || s == "004"
    requires n == if s == "50" then 50 else 4
    ensures Stof(s) == Some(Whole(n))
  {
    if s == "50" {
      assert DigitsValue(s) == 50 by { assert s[..1] == "5"; }
    } else {
      assert s[..2] == "00" && s[..2][..1] == "0" && s[..2][..1][..0] == [];
      assert DigitsValue(s[..2]) == 0;
    }
  }

  /** A coordinate field is its degree part followed by its minutes part. */
  lemma {:induction false} CoordOfParts(k: nat, s: string, degrees: string, minutes: string, d: Decimal, m: Decimal)
    requires s == degrees + minutes && |degrees| == k
    requires Stof(degrees) == Some(d) && Stof(minutes) == Some(m)
    ensures Coord(k, s) == Some(Angle(false, d, m))
  {
    assert s[..k] == degrees && s[k..] == minutes;
  }

  /** The value of a five-digit text, digit by digit. */
  lemma {:induction false} Digits5(s: string)
    requires |s| == 5 && AllDigits(s)
    ensures DigitsValue(s) == (s[0] as int - '0' as int) * 10000 + (s[1] as int - '0' as int) * 1000
      + (s[2] as int - '0' as int) * 100 + (s[3] as int - '0' as int) * 10 + (s[4] as int - '0' as int)
  {
    assert s[..4][..3] == s[..3] && s[..3][..2] == s[..2] && s[..2][..1] == s[..1] && s[..1][..0] == [];
    assert DigitsValue(s[..1]) == s[0] as int - '0' as int;
    assert DigitsValue(s[..2]) == DigitsValue(s[..1]) * 10 + (s[1] as int - '0' as int);
    assert DigitsValue(s[..3]) == DigitsValue(s[..2]) * 10 + (s[2] as int - '0' as int);
    assert DigitsValue(s[..4]) == DigitsValue(s[..3]) * 10 + (s[3] as int - '0' as int);
    assert DigitsValue(s) == DigitsValue(s[..4]) * 10 + (s[4] as int - '0' as int);
  }

  /** Minutes as receivers send them: digits, a point, five digits. */
  lemma {:induction false} MinutesOfText(whole: string, frac: string, w: nat, f: nat)
    requires AllDigits(whole) && AllDigits(frac) && whole != [] && |frac| == 5
    requires DigitsValue(whole) == w && DigitsValue(frac) == f
    ensures Stof(whole + "." + frac) == Some(Decimal(w * 100_000 + f, 5))
  {
    StofPoint(whole, frac, w, f);
    assert Pow10(5) == 100_000;
  }

  lemma {:induction false} GllLatitudeMinutes()
    ensures Stof("51.83778") == Some(Decimal(5_183_778, 5))
  {
    assert DigitsValue("83778") == 83778 by { Digits5("83778"); }
    assert DigitsValue("51") == 51 by { assert "51"[..1] == "5"; }
    assert "51.83778" == "51" + "." + "83778";
    MinutesOfText("51", "83778", 51, 83778);
  }

  /** The latitude of the GLL and RMC sentences in example/main.cpp. */
  lemma {:induction false} GllLatitude(s: string)
    requires s == "5051.83778"
    ensures Coord(2, s) == Some(Angle(false, Whole(50), Decimal(5_183_778, 5)))
  {
    assert s == "50" + "51.83778";
    GllLatitudeMinutes();
    WholeDegrees("50", 50);
    CoordOfParts(2, s, "50", "51.83778", Whole(50), Decimal(5_183_778, 5));
  }

  lemma {:induction false} GllLongitudeMinutes()
    ensures Stof("22.55809") == Some(Decimal(2_255_809, 5))
  {
    assert DigitsValue("55809") == 55809 by { Digits5("55809"); }
    assert DigitsValue("22") == 22 by { assert "22"[..1] == "2"; }
    assert "22.55809" == "22" + "." + "55809";
    MinutesOfText("22", "55809", 22, 55809);
  }

  /** The longitude of the GLL and RMC sentences in example/main.cpp. */
  lemma {:induction false} GllLongitude(s: string)
    requires s == "00422.55809"
    ensures Coord(3, s) == Some(Angle(false, Whole(4), Decimal(2_255_809, 5)))
  {
    assert s == "004" + "22.55809";
    GllLongitudeMinutes();
    WholeDegrees("004", 4);
    CoordOfParts(3, s, "004", "22.55809", Whole(4), Decimal(2_255_809, 5));
  }

  lemma {:induction false} GgaLatitudeMinutes()
    ensures Stof("51.78066") == Some(Decimal(5_178_066, 5))
  {
    assert DigitsValue("78066") == 78066 by { Digits5("78066"); }
    assert DigitsValue("51") == 51 by { assert "51"[..1] == "5"; }
    assert "51.78066" == "51" + "." + "78066";
    MinutesOfText("51", "78066", 51, 78066);
  }

  /** The latitude of the GGA sentence in example/main.cpp. */
  lemma {:induction false} GgaLatitude(s: string)
    requires s == "5051.78066"
    ensures Coord(2, s) == Some(Angle(false, Whole(50), Decimal(5_178_066, 5)))
  {
    assert s == "50" + "51.78066";
    GgaLatitudeMinutes();
    WholeDegrees("50", 50);
    CoordOfParts(2, s, "50", "51.78066", Whole(50), Decimal(5_178_066, 5));
  }

  lemma {:induction false} GgaLongitudeMinutes()
    ensures Stof("22.57079") == Some(Decimal(2_257_079, 5))
  {
    assert DigitsValue("57079") == 57079 by { Digits5("57079"); }
    assert DigitsValue("22") == 22 by { assert "22"[..1] == "2"; }
    assert "22.57079" == "22" + "." + "57079";
    MinutesOfText("22", "57079", 22, 57079);
  }

  /** The longitude of the GGA sentence in example/main.cpp. */
  lemma {:induction false} GgaLongitude(s: string)
    requires s == "00422.57079"
    ensures Coord(3, s) == Some(Angle(false, Whole(4), Decimal(2_257_079, 5)))
  {
    assert s == "004" + "22.57079";
    GgaLongitudeMinutes();
    WholeDegrees("004", 4);
    CoordOfParts(3, s, "004", "22.57079", Whole(4), Decimal(2_257_079, 5));
  }

  /** In decimal degrees, the coordinates above are what the C++ computes
      before rounding to float. */
  lemma {:induction false} ExampleDegrees()
    ensures Degrees(Angle(false, Whole(50), Decimal(5_183_778, 5))) == 50.0 + 51.83778 / 60.0
    ensures Degrees(Angle(false, Whole(4), Decimal(2_255_809, 5))) == 4.0 + 22.55809 / 60.0
    ensures Degrees(Angle(false, Whole(50), Decimal(5_178_066, 5))) == 50.0 + 51.78066 / 60.0
    ensures Degrees(Angle(false, Whole(4), Decimal(2_257_079, 5))) == 4.0 + 22.57079 / 60.0
  {
    assert Pow10(5) == 100_000;
  }

  /** The time of the GLL and RMC sentences in example/main.cpp. */
  lemma {:induction false} GllTime(s: string)
    requires s == "185427.150"
    ensures Time(s) == Some(68_067_150)
  {
    assert DigitsValue("150") == 150 by { assert "150"[..2] == "15" && "15"[..1] == "1"; }
    assert s == TwoDigits(18) + TwoDigits(54) + TwoDigits(27) + "." + "150";
    TwoDigitsValue(18);
    TwoDigitsValue(54);
    TwoDigitsValue(27);
    TimeOfText(TwoDigits(18), TwoDigits(54), TwoDigits(27), "150");
  }

  /** The time of the GGA sentence in example/main.cpp. */
  lemma {:induction false} GgaTime(s: string)
    requires s == "191237.000"
    ensures Time(s) == Some(69_157_000)
  {
    AllZeros("000");
    assert s == TwoDigits(19) + TwoDigits(12) + TwoDigits(37) + "." + "000";
    TwoDigitsValue(19);
    TwoDigitsValue(12);
    TwoDigitsValue(37);
    TimeOfText(TwoDigits(19), TwoDigits(12), TwoDigits(37), "000");
  }

  /** 24 July 2024, as in the RMC sentence of example/main.cpp. */
  lemma {:induction false} RmcDate(s: string)
    requires s == "240724"
    ensures Date(s) == Some(YearMonthDay(2024, 7, 24))
  {
    assert s == DateText(24, 7, 24);
    DateOfText(24, 7, 24);
  }

  /** Time is not range checked: 25:61:99 reads. */
  lemma {:induction false} TimeOutOfRange(s: string)
    requires s == "256199.000"
    ensures Time(s) == Some(25 * 3_600_000 + 61 * 60_000 + 99 * 1000)
  {
    AllZeros("000");
    assert s == TwoDigits(25) + TwoDigits(61) + TwoDigits(99) + "." + "000";
    TwoDigitsValue(25);
    TwoDigitsValue(61);
    TwoDigitsValue(99);
    TimeOfText(TwoDigits(25), TwoDigits(61), TwoDigits(99), "000");
  }

  /** Nor is the date checked against the calendar: 31 February reads. */
  lemma {:induction false} DateOutOfRange(s: string)
    requires s == "310225"
    ensures Date(s) == Some(YearMonthDay(2025, 2, 31))
  {
    assert s == DateText(31, 2, 25);
    DateOfText(31, 2, 25);
  }

  /** Fix qualities outside the named four are kept, not rejected. */
  lemma {:induction false} UnnamedQuality()
    ensures Qual("3") == Some(3 as Quality) && !Named(3 as Quality)
  {
  }
}
