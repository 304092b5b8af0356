/** The clock face of `src/components/Timer.jsx`: `formatTime` turns the
    remaining seconds into `MM:SS`, each part zero-padded to two characters.
    Only non-negative inputs are modelled. `ReadClock` reads such a face back
    and is the inverse the lemmas below use. */
module TimerDisplay {
  import opened Numerals

  /** `s.padStart(width, '0')`: zeros are added on the left up to `width`
      characters; a string already that long is returned as it is. */
  function PadZeros(s: string, width: nat): (r: string)
    ensures |r| == if |s| < width then width else |s|
    ensures r[|r| - |s|..] == s
    ensures forall i :: 0 <= i < |r| - |s| ==> r[i] == '0'
  {
    if |s| >= width then s else Zeros(width - |s|) + s
  }

  /** A face made of a minutes and a seconds count. */
  function Face(minutes: nat, seconds: nat): string {
    PadZeros(Decimal(minutes), 2) + ":" + PadZeros(Decimal(seconds), 2)
  }

  /** `formatTime(seconds)`: the whole minutes (`Math.floor(seconds / 60)`),
      a colon, the seconds left over (`seconds % 60`). */
  function FormatTime(seconds: nat): string {
    Face(seconds / 60, seconds % 60)
  }

  /** A clock face read back: minutes and seconds, or not a face at all. */
  datatype Clock = Clock(minutes: nat, seconds: nat) | Malformed

  /** The position of the first colon in `r`, or `|r|` when there is none. */
  function ColonIndex(r: string): (i: nat)
    ensures i <= |r|
    ensures i < |r| ==> r[i] == ':'
    ensures forall j :: 0 <= j < i ==> r[j] != ':'
  {
    if r == [] || r[0] == ':' then 0 else 1 + ColonIndex(r[1..])
  }

  /** Reads `digits ":" digits` back as minutes and seconds. */
  function ReadClock(r: string): Clock {
    var i := ColonIndex(r);
    if i == |r| then Malformed
    else
      var mm, ss := r[..i], r[i + 1..];
      if mm != [] && ss != [] && AllDecimal(mm) && AllDecimal(ss)
      then Clock(ValueOf(mm, 10), ValueOf(ss, 10))
      else Malformed
  }

  /** Padding with zeros keeps the digits and their value. */
  lemma PaddedValue(ds: string, width: nat)
    requires AllDecimal(ds)
    ensures AllDecimal(PadZeros(ds, width))
    ensures ValueOf(PadZeros(ds, width), 10) == ValueOf(ds, 10)
  {
    if |ds| < width {
      LeadingZeros(width - |ds|, ds, 10);
    }
  }

  /** A string ending in a colon and two characters splits back there. */
  lemma SplitAtColon(mm: string, ss: string)
    requires |ss| == 2
    ensures var r := mm + ":" + ss;
      |r| == |mm| + 3 && r[..|r| - 3] == mm && r[|r| - 3] == ':' && r[|r| - 2..] == ss
  {
    var r := mm + ":" + ss;
    assert r[..|mm|] == mm;
    assert r[|mm| + 1..] == ss;
  }

  /** A face splits at its last three characters into the padded minutes,
      the colon and the two-digit padded seconds. */
  lemma FaceParts(minutes: nat, seconds: nat)
    requires seconds < 100
    ensures var r := Face(minutes, seconds);
      && |r| >= 5
      && r[..|r| - 3] == PadZeros(Decimal(minutes), 2)
      && r[|r| - 3] == ':'
      && r[|r| - 2..] == PadZeros(Decimal(seconds), 2)
  {
    DecimalLength(seconds);
    var mm := PadZeros(Decimal(minutes), 2);
    var ss := PadZeros(Decimal(seconds), 2);
    assert |ss| == 2 && |mm| >= 2;
    SplitAtColon(mm, ss);
    assert Face(minutes, seconds) == mm + ":" + ss;
  }

  /** The part after the colon is exactly two digits and denotes the
      seconds left over, a value in 0..59. */
  lemma SecondsField(seconds: nat)
    ensures var r := FormatTime(seconds);
      && |r| >= 5 && r[|r| - 3] == ':'
      && var ss := r[|r| - 2..];
         AllDecimal(ss) && ValueOf(ss, 10) == seconds % 60 < 60
  {
    var s := seconds % 60;
    FaceParts(seconds / 60, s);
    PaddedValue(Decimal(s), 2);
    DecimalValue(s);
  }

  /** The part before the colon holds every digit of the whole minutes,
      padded to at least two: it has three or more digits exactly when the
      time is 100 minutes or longer. */
  lemma MinutesField(seconds: nat)
    ensures var r := FormatTime(seconds);
      var mm := r[..|r| - 3];
      && AllDecimal(mm)
      && ValueOf(mm, 10) == seconds / 60
      && |mm| == (if |Decimal(seconds / 60)| < 2 then 2 else |Decimal(seconds / 60)|)
      && (|mm| >= 3 <==> seconds >= 6000)
  {
    var m := seconds / 60;
    FaceParts(m, seconds % 60);
    PaddedMinutes(m);
    HundredMinutes(seconds);
  }

  /** The padded minutes: all digits, the value kept, at least two wide, and
      three or more digits exactly from 100 on. */
  lemma PaddedMinutes(m: nat)
    ensures var mm := PadZeros(Decimal(m), 2);
      && AllDecimal(mm)
      && ValueOf(mm, 10) == m
      && |mm| == (if |Decimal(m)| < 2 then 2 else |Decimal(m)|)
      && (|mm| >= 3 <==> m >= 100)
  {
    DecimalValue(m);
    PaddedValue(Decimal(m), 2);
    DecimalLength(m);
  }

  /** Whole minutes reach 100 exactly from 6000 seconds on. */
  lemma HundredMinutes(seconds: nat)
    ensures seconds / 60 >= 100 <==> seconds >= 6000
  {
    assert seconds == seconds / 60 * 60 + seconds % 60 && seconds % 60 < 60;
  }

  /** Digits, a colon and digits read back as the two values. */
  lemma ReadDigitsColonDigits(mm: string, ss: string)
    requires mm != [] && ss != [] && AllDecimal(mm) && AllDecimal(ss)
    ensures ReadClock(mm + ":" + ss) == Clock(ValueOf(mm, 10), ValueOf(ss, 10))
  {
    var r := mm + ":" + ss;
    var i := ColonIndex(r);
    forall j | 0 <= j < |mm| ensures r[j] != ':' {
      assert r[j] == mm[j];
    }
    assert r[|mm|] == ':';
    assert i == |mm|;
    assert r[..i] == mm;
    assert r[i + 1..] == ss;
  }

  /** Reading the face back gives the minutes and seconds it was made from,
      and they add up to the input again. */
  lemma FormatTimeRoundTrip(seconds: nat)
    ensures ReadClock(FormatTime(seconds)) == Clock(seconds / 60, seconds % 60)
    ensures ReadClock(FormatTime(seconds)).minutes * 60
            + ReadClock(FormatTime(seconds)).seconds == seconds
  {
    var m, s := seconds / 60, seconds % 60;
    var mm, ss := PadZeros(Decimal(m), 2), PadZeros(Decimal(s), 2);
    DecimalValue(m);
    DecimalValue(s);
    PaddedValue(Decimal(m), 2);
    PaddedValue(Decimal(s), 2);
    ReadDigitsColonDigits(mm, ss);
    assert FormatTime(seconds) == mm + ":" + ss;
  }

  /** Two different times never show the same face. */
  lemma FormatTimeInjective(a: nat, b: nat)
    requires FormatTime(a) == FormatTime(b)
    ensures a == b
  {
    FormatTimeRoundTrip(a);
    FormatTimeRoundTrip(b);
  }

  /** Below 100 minutes the face is exactly five characters with the colon
      in the middle; from 100 minutes on it is longer. */
  lemma FormatTimeWidth(seconds: nat)
    ensures |FormatTime(seconds)| == 5 <==> seconds < 6000
    ensures seconds < 6000 ==> FormatTime(seconds)[2] == ':'
  {
    MinutesField(seconds);
    SecondsField(seconds);
  }

  /** The idle face of a fresh timer, and two other sample faces. */
  lemma FormatTimeZero()
    ensures FormatTime(0) == "00:00"
  {
    assert Zeros(1) == "0";
    assert Decimal(0) == "0";
  }

  lemma FormatTimeFocusDefault()
    ensures FormatTime(1500) == "25:00"
  {
    assert Face(25, 0) == "25:00" by {
      assert Zeros(1) == "0";
      assert Decimal(0) == "0";
      assert Decimal(25) == "25";
    }
    assert 1500 / 60 == 25 && 1500 % 60 == 0;
  }

  lemma FormatTimeHundredMinutes()
    ensures FormatTime(6000) == "100:00"
  {
    assert Face(100, 0) == "100:00" by {
      assert Zeros(1) == "0";
      assert Decimal(0) == "0";
      assert Decimal(100) == "100";
    }
    assert 6000 / 60 == 100 && 6000 % 60 == 0;
  }
}
