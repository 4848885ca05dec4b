/**
  `formatTime`, which renders a number of seconds as minutes and two-digit
  seconds (`m:ss`). The same helper is written out in
  src/components/QuizQuestion.tsx and in src/components/QuizStats.tsx.
*/
module TimeFormat {
  import opened Wrappers
  import opened TextUtil

  /** `padStart(2, '0')`: left-pads with zeros up to two characters. */
  function PadStart2(s: string): (r: string)
    ensures |r| == if |s| >= 2 then |s| else 2
    ensures r[|r| - |s|..] == s
  {
    if |s| >= 2 then s else if |s| == 1 then "0" + s else "00"
  }

  /** `${mins}:${secs.toString().padStart(2, '0')}` with
      `mins = Math.floor(seconds / 60)` and `secs = seconds % 60`. */
  function FormatTime(seconds: nat): string {
    NatToString(seconds / 60) + ":" + PadStart2(NatToString(seconds % 60))
  }

  /** Numbers below 100 have at most two digits. */
  lemma NatToStringLength(n: nat)
    requires n < 100
    ensures |NatToString(n)| <= 2
  {
    if n >= 10 {
      assert NatToString(n) == NatToString(n / 10) + [DigitChar(n % 10)];
    }
  }

  /** Reads `m:ss` back as a number of seconds: all digits before the colon
      are minutes and exactly two digits after it are seconds. */
  function ParseTime(t: string): Option<nat> {
    if |t| >= 4 && t[|t| - 3] == ':' && AllDigits(t[..|t| - 3]) && AllDigits(t[|t| - 2..])
    then Some(ParseNat(t[..|t| - 3]) * 60 + ParseNat(t[|t| - 2..]))
    else None
  }

  /** A leading zero does not change the value of a digit string. */
  lemma {:induction false} ParseNatLeadingZero(s: string)
    requires AllDigits(s)
    ensures AllDigits("0" + s) && ParseNat("0" + s) == ParseNat(s)
  {
    if s != [] {
      ParseNatLeadingZero(s[..|s| - 1]);
      assert ("0" + s)[..|"0" + s| - 1] == "0" + s[..|s| - 1];
    }
  }

  /** The seconds field holds the remainder, zero-padded to two digits. */
  lemma SecondsField(seconds: nat)
    ensures var t := FormatTime(seconds);
            t[|t| - 2..] == PadStart2(NatToString(seconds % 60))
            && ParseNat(t[|t| - 2..]) == seconds % 60
            && ParseNat(t[|t| - 2..]) < 60
  {
    var s := seconds % 60;
    var text := NatToString(s);
    ParseNatToString(s);
    if s < 10 {
      ParseNatLeadingZero(text);
      assert PadStart2(text) == "0" + text;
    } else {
      NatToStringLength(s);
    }
  }

  /** The minutes field holds the quotient, without padding. */
  lemma MinutesField(seconds: nat)
    ensures var t := FormatTime(seconds);
            t[..|t| - 3] == NatToString(seconds / 60)
            && ParseNat(t[..|t| - 3]) == seconds / 60
  {
    NatToStringLength(seconds % 60);
    ParseNatToString(seconds / 60);
  }

  /** Reading a colon-separated pair of digit strings with a two-digit right part. */
  lemma ParseTimeOf(minsText: string, secsText: string)
    requires |minsText| >= 1 && AllDigits(minsText) && AllDigits(secsText) && |secsText| == 2
    ensures ParseTime(minsText + ":" + secsText) == Some(ParseNat(minsText) * 60 + ParseNat(secsText))
  {
    var t := minsText + ":" + secsText;
    assert t[|t| - 3] == ':';
    assert t[..|t| - 3] == minsText;
    assert t[|t| - 2..] == secsText;
  }

  /** The padded remainder reads back as the remainder. */
  lemma PaddedSeconds(secs: nat)
    requires secs < 60
    ensures var text := PadStart2(NatToString(secs));
            |text| == 2 && AllDigits(text) && ParseNat(text) == secs
  {
    var digits := NatToString(secs);
    ParseNatToString(secs);
    if secs < 10 {
      ParseNatLeadingZero(digits);
      assert PadStart2(digits) == "0" + digits;
    } else {
      NatToStringLength(secs);
    }
  }

  /** Minutes times 60 plus seconds is the input: reading the text back
      gives the number of seconds it was made from. */
  lemma FormatTimeRoundTrip(seconds: nat)
    ensures ParseTime(FormatTime(seconds)) == Some(seconds)
  {
    var mins, secs := seconds / 60, seconds % 60;
    var minsText, secsText := NatToString(mins), PadStart2(NatToString(secs));
    PaddedSeconds(secs);
    ParseNatToString(mins);
    ParseTimeOf(minsText, secsText);
    assert FormatTime(seconds) == minsText + ":" + secsText;
  }

  /** Different durations are shown differently. */
  lemma FormatTimeInjective(a: nat, b: nat)
    requires FormatTime(a) == FormatTime(b)
    ensures a == b
  {
    FormatTimeRoundTrip(a);
    FormatTimeRoundTrip(b);
  }
}
