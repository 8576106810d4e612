/**
 * `formatTime`: a count of seconds rendered as minutes and seconds, each
 * left-padded with zeros to two digits and joined by a colon.
 */
module TimeFormat {

  datatype Option<T> = None | Some(value: T)

  predicate IsDigit(c: char) {
    '0' <= c <= '9'
  }

  predicate AllDigits(s: string) {
    forall i :: 0 <= i < |s| ==> IsDigit(s[i])
  }

  /** The value of a decimal digit; any other character counts as zero. */
  function DigitValue(c: char): nat
  {
    if IsDigit(c) then c as int - '0' as int else 0
  }

  function DigitChar(d: nat): (c: char)
    requires d < 10
    ensures IsDigit(c) && DigitValue(c) == d
  {
    ('0' as int + d) as char
  }

  /** The decimal numeral `toString()` gives for a non-negative integer. */
  function Decimal(n: nat): (r: string)
    ensures |r| >= 1 && AllDigits(r)
    ensures |r| == 1 <==> n < 10
    ensures n < 100 ==> |r| <= 2
    ensures |r| > 1 ==> r[0] != '0'
    decreases n
  {
    if n < 10 then [DigitChar(n)] else Decimal(n / 10) + [DigitChar(n % 10)]
  }

  /** The number the first `n` characters of `s` denote, read as decimal digits. */
  function PrefixValue(s: string, n: nat): nat
    requires n <= |s|
    decreases n
  {
    if n == 0 then 0 else PrefixValue(s, n - 1) * 10 + DigitValue(s[n - 1])
  }

  /** The number a string of digits denotes; leading zeros are allowed. */
  function ValueOf(s: string): nat {
    PrefixValue(s, |s|)
  }

  /** The value of a prefix depends only on the characters in it. */
  lemma {:induction false} PrefixValueAgrees(s: string, t: string, n: nat)
    requires n <= |s| && n <= |t|
    requires forall i :: 0 <= i < n ==> s[i] == t[i]
    ensures PrefixValue(s, n) == PrefixValue(t, n)
    decreases n
  {
    if n > 0 {
      PrefixValueAgrees(s, t, n - 1);
    }
  }

  lemma {:induction false} DecimalRoundTrip(n: nat)
    ensures ValueOf(Decimal(n)) == n
    decreases n
  {
    if n >= 10 {
      var r, d := Decimal(n), Decimal(n / 10);
      DecimalRoundTrip(n / 10);
      PrefixValueAgrees(r, d, |d|);
    }
  }

  /** A zero in front does not change the value. */
  lemma LeadingZero(s: string)
    requires AllDigits(s)
    ensures AllDigits("0" + s) && ValueOf("0" + s) == ValueOf(s)
  {
    ShiftedByZero(s, |s|);
  }

  lemma {:induction false} ShiftedByZero(s: string, n: nat)
    requires n <= |s|
    ensures PrefixValue("0" + s, n + 1) == PrefixValue(s, n)
    decreases n
  {
    if n > 0 {
      ShiftedByZero(s, n - 1);
    }
  }

  /** `padStart(width, fill)`: `s` preceded by as many `fill`s as bring it to `width`. */
  function PadStart(s: string, width: nat, fill: char): (r: string)
    ensures |r| == if |s| >= width then |s| else width
    ensures r[|r| - |s|..] == s
    ensures forall i :: 0 <= i < |r| - |s| ==> r[i] == fill
  {
    if |s| >= width then s else seq(width - |s|, _ => fill) + s
  }

  /** One field of the clock face: `n.toString().padStart(2, "0")`. */
  function Field(n: nat): (r: string)
    ensures |r| >= 2 && AllDigits(r)
    ensures ValueOf(r) == n
    ensures n < 100 ==> |r| == 2
    ensures |r| > 2 ==> r[0] != '0'
  {
    PaddedNumeral(n);
    PadStart(Decimal(n), 2, '0')
  }

  /** A numeral padded to two places with zeros keeps its digits and its value. */
  lemma PaddedNumeral(n: nat)
    ensures AllDigits(PadStart(Decimal(n), 2, '0'))
    ensures ValueOf(PadStart(Decimal(n), 2, '0')) == n
    ensures n < 100 ==> |PadStart(Decimal(n), 2, '0')| == 2
  {
    var d := Decimal(n);
    DecimalRoundTrip(n);
    if |d| < 2 {
      assert PadStart(d, 2, '0') == "0" + d;
      LeadingZero(d);
    }
  }

  /** `Math.floor(seconds / 60)` and `seconds % 60`; both agree with Dafny's operators on non-negative input. */
  function MinutesAndSeconds(seconds: nat): (r: (nat, nat))
    ensures r.0 * 60 + r.1 == seconds
    ensures r.1 < 60
    ensures seconds < 6000 ==> r.0 < 100
  {
    (seconds / 60, seconds % 60)
  }

  /** The minutes of a clock face: everything before the colon. */
  function MinutePart(t: string): string
    requires |t| >= 3
  {
    t[..|t| - 3]
  }

  /** The seconds of a clock face: the last two characters. */
  function SecondPart(t: string): string
    requires |t| >= 3
  {
    t[|t| - 2..]
  }

  /** Digits, a colon, exactly two digits. */
  predicate IsClockFace(t: string) {
    |t| >= 4 && t[|t| - 3] == ':' && AllDigits(MinutePart(t)) && AllDigits(SecondPart(t))
  }

  /**
   * The clock face: at least two minute digits, a colon, exactly two second
   * digits; below 100 minutes that is exactly `MM:SS`.
   */
  function FormatTime(seconds: nat): (r: string)
    ensures IsClockFace(r) && |r| >= 5
    ensures seconds < 6000 ==> |r| == 5
    ensures |r| > 5 ==> r[0] != '0'
  {
    var split := MinutesAndSeconds(seconds);
    var mm, ss := Field(split.0), Field(split.1);
    ColonJoin(mm, ss);
    assert (mm + ":" + ss)[0] == mm[0];
    mm + ":" + ss
  }

  /** Joining minute digits and two second digits with a colon gives a clock face with those parts. */
  lemma ColonJoin(mm: string, ss: string)
    requires |mm| >= 1 && AllDigits(mm)
    requires |ss| == 2 && AllDigits(ss)
    ensures |mm + ":" + ss| == |mm| + 3
    ensures MinutePart(mm + ":" + ss) == mm && SecondPart(mm + ":" + ss) == ss
    ensures IsClockFace(mm + ":" + ss)
  {
  }

  /** Reads a clock face back: minutes, a colon, two digits of seconds below 60. */
  function ParseTime(t: string): (r: Option<nat>)
  {
    if IsClockFace(t) && ValueOf(SecondPart(t)) < 60
    then Some(ValueOf(MinutePart(t)) * 60 + ValueOf(SecondPart(t)))
    else None
  }

  /** Nothing is lost on the clock face: reading it back gives the seconds it was made from. */
  lemma FormatRoundTrip(seconds: nat)
    ensures ParseTime(FormatTime(seconds)) == Some(seconds)
  {
    var split := MinutesAndSeconds(seconds);
    var mm, ss := Field(split.0), Field(split.1);
    assert FormatTime(seconds) == mm + ":" + ss;
    ParseFields(split.0, split.1);
    assert ParseTime(mm + ":" + ss) == Some(seconds);
  }

  /** The fields of `minutes` and `secs` joined by a colon parse back to `minutes * 60 + secs`. */
  lemma ParseFields(minutes: nat, secs: nat)
    requires secs < 60
    ensures ParseTime(Field(minutes) + ":" + Field(secs)) == Some(minutes * 60 + secs)
  {
    var mm, ss := Field(minutes), Field(secs);
    assert |mm| >= 2 && AllDigits(mm) && ValueOf(mm) == minutes;
    assert |ss| == 2 && AllDigits(ss) && ValueOf(ss) == secs;
    ParseJoined(mm, ss);
  }

  /** A face joined from minute digits and two second digits below 60 parses to minutes * 60 + seconds. */
  lemma ParseJoined(mm: string, ss: string)
    requires |mm| >= 1 && AllDigits(mm)
    requires |ss| == 2 && AllDigits(ss) && ValueOf(ss) < 60
    ensures ParseTime(mm + ":" + ss) == Some(ValueOf(mm) * 60 + ValueOf(ss))
  {
    ColonJoin(mm, ss);
    var t := mm + ":" + ss;
    assert IsClockFace(t) && MinutePart(t) == mm && SecondPart(t) == ss;
  }

  /** Different times never look the same. */
  lemma FormatInjective(a: nat, b: nat)
    requires FormatTime(a) == FormatTime(b)
    ensures a == b
  {
    FormatRoundTrip(a);
    FormatRoundTrip(b);
  }

  /** The mounted clock shows 25:00. */
  lemma FormatFullWorkSession()
    ensures FormatTime(1500) == "25:00"
  {
    assert MinutesAndSeconds(1500) == (25, 0);
    assert Decimal(2) == "2" && Decimal(5) == "5";
    assert Decimal(25) == "25";
    assert PadStart("25", 2, '0') == "25";
    assert Decimal(0) == "0";
    assert PadStart("0", 2, '0') == "00";
  }

  /** Single digits get their leading zero. */
  lemma FormatSingleDigits()
    ensures FormatTime(65) == "01:05"
  {
    assert MinutesAndSeconds(65) == (1, 5);
    assert Decimal(1) == "1" && Decimal(5) == "5";
    assert PadStart("1", 2, '0') == "01";
    assert PadStart("5", 2, '0') == "05";
  }
}
