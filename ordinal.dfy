/** get_date_with_ordinal: a day number followed by its English ordinal suffix. */
module Ordinal {
  import opened Wrappers
  import opened PyStr

  /**
   The suffix the source chooses: "th" whenever the last two digits are
   4 to 20, otherwise by the last digit. Python's % and Dafny's agree for a
   positive divisor, so this holds for negative numbers too.
   */
  function OrdinalSuffix(n: int): (r: string)
    ensures r in {"st", "nd", "rd", "th"}
  {
    if 4 <= n % 100 <= 20 then "th"
    else if n % 10 == 1 then "st"
    else if n % 10 == 2 then "nd"
    else if n % 10 == 3 then "rd"
    else "th"
  }

  /**
   get_date_with_ordinal(n): str(n), unchanged, followed by the English
   ordinal suffix of n, which is one of the four suffixes.
   */
  function DateWithOrdinal(n: int): (r: string)
    ensures |r| >= 3
    ensures r[..|r| - 2] == IntToString(n)
    ensures r[|r| - 2..] == EnglishSuffix(n)
    ensures r[|r| - 2..] in {"st", "nd", "rd", "th"}
  {
    OrdinalSuffixIsEnglish(n);
    var r := IntToString(n) + OrdinalSuffix(n);
    assert r[|r| - 2..] == OrdinalSuffix(n);
    r
  }

  /** The English rule as usually stated: 1st, 2nd, 3rd, except 11th, 12th, 13th. */
  function EnglishSuffix(n: int): string {
    var units, tens := n % 10, n % 100;
    if units == 1 && tens != 11 then "st"
    else if units == 2 && tens != 12 then "nd"
    else if units == 3 && tens != 13 then "rd"
    else "th"
  }

  /** The last digit of n is the last digit of its last two digits. */
  lemma LastDigitOfLastTwo(n: int)
    ensures (n % 100) % 10 == n % 10
  {
    var q, t := n / 100, n % 100;
    assert n == 100 * q + t;
    var u := t % 10;
    assert t == 10 * (t / 10) + u;
    assert n == 10 * (10 * q + t / 10) + u;
    assert 0 <= u < 10;
  }

  /** The source's "4 to 20" test is the usual English rule. */
  lemma OrdinalSuffixIsEnglish(n: int)
    ensures OrdinalSuffix(n) == EnglishSuffix(n)
  {
    LastDigitOfLastTwo(n);
  }

  /** Reading an ordinal back: the number in front of a known suffix. */
  function ParseOrdinal(s: string): Option<int> {
    if |s| >= 2 && s[|s| - 2..] in {"st", "nd", "rd", "th"} then ParseInt(s[..|s| - 2]) else None
  }

  lemma DateWithOrdinalRoundTrip(n: int)
    ensures ParseOrdinal(DateWithOrdinal(n)) == Some(n)
  {
    IntToStringRoundTrip(n);
  }

  /** Different numbers get different ordinals. */
  lemma DateWithOrdinalInjective(m: int, n: int)
    requires DateWithOrdinal(m) == DateWithOrdinal(n)
    ensures m == n
  {
    DateWithOrdinalRoundTrip(m);
    DateWithOrdinalRoundTrip(n);
  }

  lemma OrdinalExamples()
    ensures DateWithOrdinal(1) == "1st"
    ensures DateWithOrdinal(2) == "2nd"
    ensures DateWithOrdinal(3) == "3rd"
    ensures DateWithOrdinal(4) == "4th"
    ensures DateWithOrdinal(11) == "11th"
    ensures DateWithOrdinal(21) == "21st"
    ensures DateWithOrdinal(112) == "112th"
  {
    assert IntToString(1) == "1" && OrdinalSuffix(1) == "st";
    assert IntToString(2) == "2" && OrdinalSuffix(2) == "nd";
    assert IntToString(3) == "3" && OrdinalSuffix(3) == "rd";
    assert IntToString(4) == "4" && OrdinalSuffix(4) == "th";
    assert NatToString(11) == "11" && OrdinalSuffix(11) == "th";
    assert NatToString(21) == "21" && OrdinalSuffix(21) == "st";
    assert NatToString(112) == NatToString(11) + "2" && OrdinalSuffix(112) == "th";
  }
}
