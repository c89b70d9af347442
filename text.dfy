/** The pieces of the C++ standard library that the decoders lean on, stated
    over Dafny strings: splitting on ',' (std::views::split), cutting at the
    first '*' (string_view::find and substr), and reading numbers
    (std::stoi and std::stof, restricted to unsigned decimal text). */
module Text {

  datatype Option<+T> = None | Some(value: T) {
    predicate IsFailure() { None? }
    function PropagateFailure<U>(): Option<U> requires None? { None }
    function Extract(): T requires Some? { value }
  }

  /** INT_MAX of a 32-bit int: std::stoi reports out_of_range above it. */
  const IntMax: nat := 0x7FFF_FFFF

  // ---------------------------------------------------------------------
  // Fields: std::views::split(data, ",")

  /** The comma-separated pieces of a non-empty or empty text, always at
      least one piece: "a,,b" has the pieces "a", "" and "b". */
  function Pieces(s: string): (r: seq<string>)
    ensures |r| >= 1
    ensures forall i :: 0 <= i < |r| ==> ',' !in r[i]
  {
    if s == [] then [""]
    else if s[0] == ',' then [""] + Pieces(s[1..])
    else
      var rest := Pieces(s[1..]);
      [[s[0]] + rest[0]] + rest[1..]
  }

  /** The words that std::views::split yields for the delimiter ",": none at
      all for the empty text, one more than the number of commas otherwise. */
  function Split(s: string): (r: seq<string>)
    ensures s == [] <==> r == []
    ensures forall i :: 0 <= i < |r| ==> ',' !in r[i]
  {
    if s == [] then [] else Pieces(s)
  }

  /** The words put back together with a ',' between neighbours. */
  function Join(words: seq<string>): string
  {
    if words == [] then ""
    else if |words| == 1 then words[0]
    else words[0] + "," + Join(words[1..])
  }

  function Occurrences(c: char, s: string): nat
  {
    if s == [] then 0 else (if s[0] == c then 1 else 0) + Occurrences(c, s[1..])
  }

  lemma {:induction false} JoinPieces(s: string)
    ensures Join(Pieces(s)) == s
  {
    if s == [] {
    } else if s[0] == ',' {
      JoinPieces(s[1..]);
      assert [""] + Pieces(s[1..]) == [""] + Pieces(s[1..]);
    } else {
      var rest := Pieces(s[1..]);
      JoinPieces(s[1..]);
      if |rest| == 1 {
        assert Join(rest) == rest[0];
      } else {
        assert Join(rest) == rest[0] + "," + Join(rest[1..]);
        assert [s[0]] + rest[0] + "," + Join(rest[1..]) == [s[0]] + (rest[0] + "," + Join(rest[1..]));
      }
    }
  }

  /** Splitting loses nothing: joining the words gives back the text. */
  lemma {:induction false} SplitJoin(s: string)
    ensures Join(Split(s)) == s
  {
    if s != [] { JoinPieces(s); }
  }

  lemma {:induction false} PiecesCount(s: string)
    ensures |Pieces(s)| == Occurrences(',', s) + 1
  {
    if s != [] { PiecesCount(s[1..]); }
  }

  /** The field count the decoders compare against: one more than the
      number of commas, except that the empty text has no field at all. */
  lemma {:induction false} SplitCount(s: string)
    ensures |Split(s)| == if s == [] then 0 else Occurrences(',', s) + 1
  {
    if s != [] { PiecesCount(s); }
  }

  lemma {:induction false} PiecesAfterWord(w: string, rest: string)
    requires ',' !in w
    ensures Pieces(w + [','] + rest) == [w] + Pieces(rest)
  {
    var s := w + [','] + rest;
    if w == [] {
      assert s == [','] + rest;
      assert s[1..] == rest;
    } else {
      assert s[1..] == w[1..] + [','] + rest;
      PiecesAfterWord(w[1..], rest);
      assert [w[0]] + w[1..] == w;
    }
  }

  lemma {:induction false} PiecesOfJoin(words: seq<string>)
    requires words != []
    requires forall i :: 0 <= i < |words| ==> ',' !in words[i]
    ensures Pieces(Join(words)) == words
  {
    if |words| == 1 {
      PiecesOfWord(words[0]);
    } else {
      PiecesOfJoin(words[1..]);
      assert Join(words) == words[0] + [','] + Join(words[1..]);
      PiecesAfterWord(words[0], Join(words[1..]));
      assert words == [words[0]] + words[1..];
    }
  }

  lemma {:induction false} PiecesOfWord(w: string)
    requires ',' !in w
    ensures Pieces(w) == [w]
  {
    if w != [] {
      PiecesOfWord(w[1..]);
      assert [w[0]] + w[1..] == w;
    }
  }

  /** Splitting undoes joining, for words free of ',' that do not join to
      the empty text (which splits into no word at all). */
  lemma {:induction false} JoinSplit(words: seq<string>)
    requires words != [] && Join(words) != []
    requires forall i :: 0 <= i < |words| ==> ',' !in words[i]
    ensures Split(Join(words)) == words
  {
    PiecesOfJoin(words);
  }

  // ---------------------------------------------------------------------
  // string_view(data).substr(0, data.find(c))

  /** The text up to, not including, the first c; all of it when there is none. */
  function Before(s: string, c: char): (r: string)
    ensures c !in r
    ensures |r| <= |s| && r == s[..|r|]
    ensures |r| < |s| ==> s[|r|] == c
  {
    if s == [] || s[0] == c then [] else [s[0]] + Before(s[1..], c)
  }

  /** Text followed by the first c is cut exactly there. */
  lemma {:induction false} BeforeFirst(p: string, c: char, q: string)
    requires c !in p
    ensures Before(p + [c] + q, c) == p
  {
    var s := p + [c] + q;
    if p != [] {
      assert s[0] == p[0] && s[1..] == p[1..] + [c] + q;
      BeforeFirst(p[1..], c, q);
      assert [p[0]] + p[1..] == p;
    }
  }

  /** Text without c is kept whole. */
  lemma {:induction false} BeforeAbsent(s: string, c: char)
    requires c !in s
    ensures Before(s, c) == s
  {
  }

  /** The text a GSA or GSV decoder splits: everything before the checksum. */
  function Body(data: string): string
  {
    Before(data, '*')
  }

  /** The checksum, and whatever else follows the first '*', is never looked
      at: the body of body*tail is body, whatever tail holds. */
  lemma {:induction false} ChecksumIgnored(body: string, tail: string)
    requires '*' !in body
    ensures Body(body + ['*'] + tail) == body && Body(body) == body
  {
    BeforeFirst(body, '*', tail);
    BeforeAbsent(body, '*');
  }

  // ---------------------------------------------------------------------
  // Decimal digits

  predicate IsDigit(c: char) { '0' <= c <= '9' }

  predicate AllDigits(s: string) { forall i :: 0 <= i < |s| ==> IsDigit(s[i]) }

  function Pow10(n: nat): (p: nat)
    ensures p >= 1
  {
    if n == 0 then 1 else 10 * Pow10(n - 1)
  }

  lemma {:induction false} Pow10Grows(m: nat, n: nat)
    requires m <= n
    ensures Pow10(m) <= Pow10(n)
    decreases n
  {
    if m < n { Pow10Grows(m, n - 1); }
  }

  /** The value of a digit string read in base 10; the empty string reads 0. */
  function DigitsValue(s: string): (n: nat)
    requires AllDigits(s)
    ensures n < Pow10(|s|)
  {
    if s == [] then 0 else DigitsValue(s[..|s| - 1]) * 10 + (s[|s| - 1] as int - '0' as int)
  }

  /** A run of zeros reads 0. */
  lemma {:induction false} AllZeros(s: string)
    requires forall i :: 0 <= i < |s| ==> s[i] == '0'
    ensures AllDigits(s) && DigitsValue(s) == 0
    decreases |s|
  {
    if s != [] {
      AllZeros(s[..|s| - 1]);
    }
  }

  function Digit(d: nat): (c: char)
    requires d < 10
    ensures IsDigit(c)
  {
    (d + '0' as int) as char
  }

  /** The shortest decimal text of n. */
  function NatText(n: nat): (s: string)
    ensures s != [] && AllDigits(s)
  {
    if n < 10 then [Digit(n)] else NatText(n / 10) + [Digit(n % 10)]
  }

  /** Reading back the text of a number gives the number. */
  lemma {:induction false} NatTextValue(n: nat)
    ensures DigitsValue(NatText(n)) == n
  {
    if n >= 10 {
      NatTextValue(n / 10);
      var s := NatText(n);
      assert s[..|s| - 1] == NatText(n / 10);
    }
  }

  /** Exactly two digits, with a leading zero below 10 (the HH, MM, DD... slots). */
  function TwoDigits(n: nat): (s: string)
    requires n < 100
    ensures |s| == 2 && AllDigits(s)
  {
    [Digit(n / 10), Digit(n % 10)]
  }

  lemma {:induction false} TwoDigitsValue(n: nat)
    requires n < 100
    ensures DigitsValue(TwoDigits(n)) == n
  {
    var s := TwoDigits(n);
    assert s[..1] == [Digit(n / 10)];
    assert s[..1][..0] == [];
  }

  // ---------------------------------------------------------------------
  // std::stoi and std::stof

  /** The leading run of decimal digits: as far as std::stoi and std::stof
      read, the rest of the text is ignored. */
  function DigitRun(s: string): (r: string)
    ensures AllDigits(r) && |r| <= |s| && r == s[..|r|]
    ensures |r| < |s| ==> !IsDigit(s[|r|])
  {
    if s == [] || !IsDigit(s[0]) then [] else [s[0]] + DigitRun(s[1..])
  }

  /** Text made of digits only is read whole. */
  lemma {:induction false} DigitRunAll(s: string)
    requires AllDigits(s)
    ensures DigitRun(s) == s
  {
    if s != [] {
      DigitRunAll(s[1..]);
      assert [s[0]] + s[1..] == s;
    }
  }

  /** Reading stops at the first character that is not a digit. */
  lemma {:induction false} DigitRunStop(p: string, q: string)
    requires AllDigits(p) && (q == [] || !IsDigit(q[0]))
    ensures DigitRun(p + q) == p
  {
    if p == [] {
      assert p + q == q;
    } else {
      assert (p + q)[1..] == p[1..] + q;
      DigitRunStop(p[1..], q);
      assert [p[0]] + p[1..] == p;
    }
  }

  /** The digits at the start of s read onto acc one at a time, as the
      conversion loop behind std::stoi does; reading stops at the first
      character that is not a digit. */
  function ReadDigits(s: string, acc: nat): nat
    decreases |s|
  {
    if s == [] || !IsDigit(s[0]) then acc else ReadDigits(s[1..], acc * 10 + (s[0] as int - '0' as int))
  }

  /** std::stoi on unsigned decimal text: the digits at the start are read
      and whatever follows them ignored; no digit at the start
      (invalid_argument) or a value above INT_MAX (out_of_range) fails. */
  function Stoi(s: string): (r: Option<nat>)
    ensures r.Some? ==> s != [] && IsDigit(s[0]) && r.value <= IntMax
  {
    if s == [] || !IsDigit(s[0]) then None
    else
      var n := ReadDigits(s, 0);
      if n <= IntMax then Some(n) else None
  }

  /** Reading a digit string onto acc shifts acc left by its length. */
  lemma {:induction false} ReadDigitsValue(s: string, acc: nat)
    requires AllDigits(s)
    ensures ReadDigits(s, acc) == acc * Pow10(|s|) + DigitsValue(s)
    decreases |s|
  {
    if s != [] {
      var d := s[0] as int - '0' as int;
      ReadDigitsValue(s[1..], acc * 10 + d);
      DigitsAppend([s[0]], s[1..]);
      assert [s[0]] + s[1..] == s;
      assert DigitsValue([s[0]]) == d by { assert [s[0]][..0] == []; }
      Spread(acc, d, Pow10(|s| - 1), DigitsValue(s[1..]));
    }
  }

  lemma {:induction false} Spread(a: int, d: int, p: int, v: int)
    ensures (a * 10 + d) * p + v == a * (10 * p) + (d * p + v)
  {
  }

  /** Reading onto acc at most shifts acc left by the length of the text. */
  lemma {:induction false} ReadDigitsBound(s: string, acc: nat)
    ensures ReadDigits(s, acc) < (acc + 1) * Pow10(|s|)
    decreases |s|
  {
    if s != [] && IsDigit(s[0]) {
      var d := s[0] as int - '0' as int;
      ReadDigitsBound(s[1..], acc * 10 + d);
      Widen(acc, d, Pow10(|s| - 1));
    }
  }

  lemma {:induction false} Widen(a: nat, d: nat, p: nat)
    requires d < 10
    ensures (a * 10 + d + 1) * p <= (a + 1) * (10 * p)
  {
    assert (a + 1) * (10 * p) == (a * 10 + d + 1) * p + (9 - d) * p;
  }

  /** What stoi reads from n characters has at most n digits. */
  lemma {:induction false} StoiBound(s: string)
    ensures Stoi(s).Some? ==> Stoi(s).value < Pow10(|s|)
  {
    ReadDigitsBound(s, 0);
  }

  /** Reading stops at the first character that is not a digit. */
  lemma {:induction false} ReadDigitsStop(p: string, q: string, acc: nat)
    requires AllDigits(p) && (q == [] || !IsDigit(q[0]))
    ensures ReadDigits(p + q, acc) == ReadDigits(p, acc)
    decreases |p|
  {
    if p == [] {
      assert p + q == q;
    } else {
      assert (p + q)[1..] == p[1..] + q;
      ReadDigitsStop(p[1..], q, acc * 10 + (p[0] as int - '0' as int));
    }
  }

  /** Up to nine digits always fit in an int and read as written. */
  lemma {:induction false} StoiDigits(s: string)
    requires s != [] && AllDigits(s) && |s| <= 9
    ensures Stoi(s) == Some(DigitsValue(s))
  {
    ReadDigitsValue(s, 0);
    Pow10Grows(|s|, 9);
  }

  /** Whatever follows the digits at the start is ignored. */
  lemma {:induction false} StoiIgnoresRest(p: string, q: string)
    requires p != [] && AllDigits(p) && (q == [] || !IsDigit(q[0]))
    ensures Stoi(p + q) == Stoi(p)
  {
    ReadDigitsStop(p, q, 0);
    assert (p + q)[0] == p[0];
  }

  /** Any number up to INT_MAX written out in decimal reads back as itself. */
  lemma {:induction false} StoiNatText(n: nat)
    requires n <= IntMax
    ensures Stoi(NatText(n)) == Some(n)
  {
    NatTextValue(n);
    ReadDigitsValue(NatText(n), 0);
  }

  /** Appending digits shifts the value read so far by their count. */
  lemma {:induction false} DigitsAppend(a: string, b: string)
    requires AllDigits(a) && AllDigits(b)
    ensures AllDigits(a + b)
    ensures DigitsValue(a + b) == DigitsValue(a) * Pow10(|b|) + DigitsValue(b)
    decreases |b|
  {
    if b == [] {
      assert a + b == a;
    } else {
      var ab := a + b;
      var init := b[..|b| - 1];
      var d := b[|b| - 1] as int - '0' as int;
      assert ab[..|ab| - 1] == a + init;
      assert ab[|ab| - 1] == b[|b| - 1];
      DigitsAppend(a, init);
      assert DigitsValue(ab) == DigitsValue(a + init) * 10 + d;
      assert DigitsValue(b) == DigitsValue(init) * 10 + d;
      assert Pow10(|b|) == Pow10(|init|) * 10;
      Shift(DigitsValue(a), Pow10(|init|), DigitsValue(init), d, Pow10(|b|));
    }
  }

  lemma {:induction false} Shift(x: int, p: int, y: int, d: int, q: int)
    requires q == p * 10
    ensures (x * p + y) * 10 + d == x * q + (y * 10 + d)
  {
  }

  /** A number read by std::stof, kept exactly rather than rounded to a
      float: units divided by ten to the power scale. */
  datatype Decimal = Decimal(units: nat, scale: nat)

  /** The exact value of a decimal. */
  function DecimalValue(d: Decimal): real
  {
    d.units as real / Pow10(d.scale) as real
  }

  lemma {:induction false} DecimalNonNegative(d: Decimal)
    ensures DecimalValue(d) >= 0.0
  {
    var n, p := d.units as real, Pow10(d.scale) as real;
    assert n / p * p == n;
  }

  /** The decimal of a whole number. */
  function Whole(n: nat): Decimal
  {
    Decimal(n, 0)
  }

  /** std::stof on unsigned decimal text: the longest start of the text
      made of digits with at most one '.', holding at least one digit ("5.",
      ".5" and "5" all read). The value is its digits without the point,
      scaled by the number of digits after the point. */
  function Stof(s: string): (r: Option<Decimal>)
    ensures r.Some? ==> s != []
    ensures s != [] && AllDigits(s) ==> r == Some(Whole(DigitsValue(s)))
  {
    var whole := DigitRun(s);
    var rest := s[|whole|..];
    var frac := if rest != [] && rest[0] == '.' then DigitRun(rest[1..]) else [];
    assert AllDigits(s) ==> whole == s by { if AllDigits(s) { DigitRunAll(s); } }
    if whole == [] && frac == [] then None
    else
      DigitsAppend(whole, frac);
      Some(Decimal(DigitsValue(whole + frac), |frac|))
  }

  /** Only decimal digits and one point are read: an exponent or a
      hexadecimal float is cut at its first other character. */
  lemma {:induction false} StofStopsAtLetter(whole: string, tail: string)
    requires whole != [] && AllDigits(whole) && tail != [] && !IsDigit(tail[0]) && tail[0] != '.'
    ensures Stof(whole + tail) == Some(Whole(DigitsValue(whole)))
  {
    DigitRunStop(whole, tail);
    assert (whole + tail)[|whole|..] == tail;
    assert whole + [] == whole;
  }

  lemma {:induction false} ExponentAndHex()
    ensures Stof("1e5") == Some(Whole(1)) && Stof("0x1A") == Some(Whole(0))
  {
    StofStopsAtLetter("1", "e5");
    StofStopsAtLetter("0", "x1A");
    assert "1" + "e5" == "1e5";
    assert "0" + "x1A" == "0x1A";
  }

  /** Which texts std::stof reads at all: those that start with a digit,
      or with a point and a digit. */
  lemma {:induction false} StofReads(s: string)
    ensures Stof(s).Some? <==> s != [] && (IsDigit(s[0]) || (s[0] == '.' && |s| > 1 && IsDigit(s[1])))
  {
    var whole := DigitRun(s);
    var rest := s[|whole|..];
    if whole == [] {
      assert rest == s;
      if s != [] && s[0] == '.' {
        assert rest[1..] == s[1..];
      }
    }
  }

  lemma {:induction false} Unshift(w: nat, p: nat, f: nat)
    requires p > 0
    ensures (w * p + f) as real / p as real == w as real + f as real / p as real
  {
    assert (w * p + f) as real == w as real * p as real + f as real;
  }

  /** Digits, a point and digits, followed by anything that does not go on
      with a digit, read as the digits without the point, scaled by the
      number of digits after it. */
  lemma {:induction false} StofParts(whole: string, frac: string, tail: string)
    requires AllDigits(whole) && AllDigits(frac) && |whole| + |frac| > 0
    requires tail == [] || !IsDigit(tail[0])
    ensures Stof(whole + "." + frac + tail) == Some(Decimal(DigitsValue(whole + frac), |frac|))
  {
    var s := whole + "." + frac + tail;
    assert s == whole + ("." + frac + tail);
    DigitRunStop(whole, "." + frac + tail);
    assert s[|whole|..] == "." + frac + tail;
    assert s[|whole|..][1..] == frac + tail;
    DigitRunStop(frac, tail);
  }

  /** The same, with the values of the two digit runs given. */
  lemma {:induction false} StofPoint(whole: string, frac: string, w: nat, f: nat)
    requires AllDigits(whole) && AllDigits(frac) && |whole| + |frac| > 0
    requires DigitsValue(whole) == w && DigitsValue(frac) == f
    ensures Stof(whole + "." + frac) == Some(Decimal(w * Pow10(|frac|) + f, |frac|))
  {
    StofParts(whole, frac, "");
    assert whole + "." + frac + "" == whole + "." + frac;
    DigitsAppend(whole, frac);
  }

  /** That decimal is the whole part plus the fraction over a power of ten:
      the value std::stof computes, without rounding. */
  lemma {:induction false} PointValue(whole: string, frac: string)
    requires AllDigits(whole) && AllDigits(frac)
    ensures AllDigits(whole + frac)
    ensures DecimalValue(Decimal(DigitsValue(whole + frac), |frac|))
         == DigitsValue(whole) as real + DigitsValue(frac) as real / Pow10(|frac|) as real
  {
    DigitsAppend(whole, frac);
    Unshift(DigitsValue(whole), Pow10(|frac|), DigitsValue(frac));
  }
}
