/** The enumerations and records of nmea/nmea.h, as values. The decoders
    keep the same fields in objects that they update in place (see the
    sentence modules); these datatypes are the values those objects hold. */
module Records {
  import opened Text

  /** The constellation that produced a sentence. NotSet is never produced by
      decoding; it marks a record that no decode has written yet. */
  datatype TalkerId = NotSet | Gps | Glonass | Galileo | Beidou | Qzss | Multiconstellation

  /** A compass letter of a coordinate's companion field. */
  datatype Direction = N | S | E | W

  /** A C++ unsigned int. */
  type UInt = n: int | 0 <= n <= 0xFFFF_FFFF

  /** The fix quality: an enumeration whose underlying type is unsigned int.
      Any unsigned value can be held, named or not. */
  newtype Quality = q: int | 0 <= q <= 0xFFFF_FFFF

  const NoFix: Quality := 0
  const GpsFix: Quality := 1
  const DgpsFix: Quality := 2
  const DeadReckoning: Quality := 6

  /** The four values the enumeration gives a name. */
  predicate Named(q: Quality)
  {
    q == NoFix || q == GpsFix || q == DgpsFix || q == DeadReckoning
  }

  /** time_t: a time of day as a millisecond count since midnight, with no
      range check (hh_mm_ss over a millisecond duration). */
  type Millis = nat

  /** The field accessors of hh_mm_ss for a non-negative duration. */
  function Hours(t: Millis): nat { t / 3_600_000 }
  function Minutes(t: Millis): nat { t / 60_000 % 60 }
  function Seconds(t: Millis): nat { t / 1000 % 60 }
  function Subseconds(t: Millis): nat { t % 1000 }

  /** std::chrono::year_month_day, without calendar validation. */
  datatype YearMonthDay = YearMonthDay(year: int, month: nat, day: nat)

  /** A latitude or longitude as nmea::coord computes it, degrees plus
      minutes over 60, kept exactly rather than as a float, with the sign that
      the direction field gives it. */
  datatype Angle = Angle(negative: bool, degrees: Decimal, minutes: Decimal)

  /** The value in decimal degrees. */
  function Degrees(a: Angle): real
  {
    var v := DecimalValue(a.degrees) + DecimalValue(a.minutes) / 60.0;
    if a.negative then -v else v
  }

  /** Multiplying by -1, as the decoders do for S and W. */
  function Negate(a: Angle): Angle
  {
    a.(negative := !a.negative)
  }

  lemma {:induction false} NegateDegrees(a: Angle)
    ensures Degrees(Negate(a)) == -Degrees(a)
    ensures Negate(Negate(a)) == a
  {
  }

  datatype GllData = GllData(source: TalkerId, lat: Angle, lon: Angle, t: Millis, valid: bool)

  datatype GgaData = GgaData(source: TalkerId, lat: Angle, lon: Angle, t: Millis,
                             sats: UInt, qual: Quality, alt: Decimal)

  /** The 12 PRN slots of a GSA sentence (0 marks an unused slot). */
  type GsaSats = s: seq<UInt> | |s| == 12 witness [0, 0, 0, 0, 0, 0, 0, 0, 0, 0, 0, 0]

  datatype GsaData = GsaData(source: TalkerId, systemId: TalkerId, sats: GsaSats)

  datatype GsvSat = GsvSat(prn: UInt, elev: UInt, azim: UInt, snr: UInt)

  const NoSat := GsvSat(0, 0, 0, 0)

  /** The 4 satellites of one GSV sentence. */
  type GsvSats = s: seq<GsvSat> | |s| == 4 witness [NoSat, NoSat, NoSat, NoSat]

  datatype GsvData = GsvData(source: TalkerId, sats: GsvSats)

  datatype RmcData = RmcData(source: TalkerId, lat: Angle, lon: Angle, speed: Decimal,
                             t: Millis, d: YearMonthDay, valid: bool)
}
