/**
 The UK postcode pattern that check_postcode matches with re.fullmatch:

   ^([A-Za-z][A-Ha-hJ-Yj-y]?[0-9][A-Za-z0-9]? ?[0-9][A-Za-z]{2}|[Gg][Ii][Rr] ?0[Aa]{2})$

 MatchesPattern gives the pattern's meaning directly: a string matches the
 first alternative when some choice of which optional atoms are present lays
 the atoms over the whole string. IsPostcode is a character-by-character
 recognizer that needs no such choice, and PostcodeRecognizerCorrect proves
 that the two agree on every string.
 */
module Postcode {
  import opened PyStr

  // Character classes of the pattern (ASCII only: the pattern has no flags);
  // [0-9] is PyStr.IsDigit.

  /** [A-Za-z] */
  predicate IsLetter(c: char) {
    ('A' <= c <= 'Z') || ('a' <= c <= 'z')
  }

  /** [A-Ha-hJ-Yj-y]: a letter other than I and Z, in either case. */
  predicate IsSecondLetter(c: char) {
    ('A' <= c <= 'H') || ('a' <= c <= 'h') || ('J' <= c <= 'Y') || ('j' <= c <= 'y')
  }

  /** [A-Za-z0-9] */
  predicate IsAlnum(c: char) {
    IsLetter(c) || IsDigit(c)
  }

  function Count(b: bool): nat {
    if b then 1 else 0
  }

  // ---------------------------------------------------------------------
  // The pattern's meaning

  /**
   The first alternative lays out exactly over s, with the optional second
   letter, the optional fourth character and the optional space present as
   the three flags say.
   */
  ghost predicate GeneralAt(s: string, second: bool, fourth: bool, space: bool) {
    var digit := 1 + Count(second);
    var afterDigit := digit + 1;
    var spaceAt := afterDigit + Count(fourth);
    var inward := spaceAt + Count(space);
    && |s| == inward + 3
    && IsLetter(s[0])
    && (second ==> IsSecondLetter(s[1]))
    && IsDigit(s[digit])
    && (fourth ==> IsAlnum(s[afterDigit]))
    && (space ==> s[spaceAt] == ' ')
    && IsDigit(s[inward])
    && IsLetter(s[inward + 1])
    && IsLetter(s[inward + 2])
  }

  /** The second alternative, [Gg][Ii][Rr] ?0[Aa]{2}, with or without its space. */
  ghost predicate GirAt(s: string, space: bool) {
    var zero := 3 + Count(space);
    && |s| == zero + 3
    && (s[0] == 'G' || s[0] == 'g')
    && (s[1] == 'I' || s[1] == 'i')
    && (s[2] == 'R' || s[2] == 'r')
    && (space ==> s[3] == ' ')
    && s[zero] == '0'
    && (s[zero + 1] == 'A' || s[zero + 1] == 'a')
    && (s[zero + 2] == 'A' || s[zero + 2] == 'a')
  }

  /** re.fullmatch of the postcode pattern succeeds on s. */
  ghost predicate MatchesPattern(s: string) {
    || (exists second, fourth, space :: GeneralAt(s, second, fourth, space))
    || (exists space :: GirAt(s, space))
  }

  // ---------------------------------------------------------------------
  // The recognizer

  /** The inward code: a digit and two letters. */
  predicate IsInward(s: string) {
    |s| == 3 && IsDigit(s[0]) && IsLetter(s[1]) && IsLetter(s[2])
  }

  /** The outward code: a letter, an optional second letter, a digit, an optional letter or digit. */
  predicate IsOutward(s: string) {
    || (|s| == 2 && IsLetter(s[0]) && IsDigit(s[1]))
    || (|s| == 3 && IsLetter(s[0]) && IsSecondLetter(s[1]) && IsDigit(s[2]))
    || (|s| == 3 && IsLetter(s[0]) && IsDigit(s[1]) && IsAlnum(s[2]))
    || (|s| == 4 && IsLetter(s[0]) && IsSecondLetter(s[1]) && IsDigit(s[2]) && IsAlnum(s[3]))
  }

  /**
   The inward code is the last three characters; a space just before it can
   only be the optional separator, since the outward code has none.
   */
  predicate IsGeneralPostcode(s: string) {
    && |s| >= 3
    && IsInward(s[|s| - 3..])
    && var rest := s[..|s| - 3];
       var outward := if |rest| > 0 && rest[|rest| - 1] == ' ' then rest[..|rest| - 1] else rest;
       IsOutward(outward)
  }

  predicate IsGir(c0: char, c1: char, c2: char) {
    (c0 == 'G' || c0 == 'g') && (c1 == 'I' || c1 == 'i') && (c2 == 'R' || c2 == 'r')
  }

  predicate IsZeroAA(s: string) {
    |s| == 3 && s[0] == '0' && (s[1] == 'A' || s[1] == 'a') && (s[2] == 'A' || s[2] == 'a')
  }

  /** GIR 0AA, in any case, with or without the space. */
  predicate IsGirPostcode(s: string) {
    || (|s| == 6 && IsGir(s[0], s[1], s[2]) && IsZeroAA(s[3..]))
    || (|s| == 7 && IsGir(s[0], s[1], s[2]) && s[3] == ' ' && IsZeroAA(s[4..]))
  }

  predicate IsPostcode(s: string) {
    IsGeneralPostcode(s) || IsGirPostcode(s)
  }

  // ---------------------------------------------------------------------
  // The recognizer decides the pattern

  lemma GeneralSound(s: string)
    requires IsGeneralPostcode(s)
    ensures exists second, fourth, space :: GeneralAt(s, second, fourth, space)
  {
    var rest := s[..|s| - 3];
    var space := |rest| > 0 && rest[|rest| - 1] == ' ';
    var o := if space then rest[..|rest| - 1] else rest;
    assert |s| == |o| + Count(space) + 3;
    if |o| == 2 {
      assert GeneralAt(s, false, false, space);
    } else if |o| == 4 {
      assert GeneralAt(s, true, true, space);
    } else if IsSecondLetter(o[1]) && IsDigit(o[2]) {
      assert GeneralAt(s, true, false, space);
    } else {
      assert GeneralAt(s, false, true, space);
    }
  }

  lemma GeneralComplete(s: string, second: bool, fourth: bool, space: bool)
    requires GeneralAt(s, second, fourth, space)
    ensures IsGeneralPostcode(s)
  {
    var rest := s[..|s| - 3];
    assert IsInward(s[|s| - 3..]);
    var outward := if space then rest[..|rest| - 1] else rest;
    assert |outward| == 2 + Count(second) + Count(fourth);
    // The character before the inward code is either the space or an outward character.
    assert (|rest| > 0 && rest[|rest| - 1] == ' ') == space;
    assert IsOutward(outward);
  }

  lemma GirSound(s: string)
    requires IsGirPostcode(s)
    ensures exists space :: GirAt(s, space)
  {
    if |s| == 6 {
      assert GirAt(s, false);
    } else {
      assert GirAt(s, true);
    }
  }

  /** The recognizer accepts exactly the strings the pattern fully matches. */
  lemma PostcodeRecognizerCorrect(s: string)
    ensures IsPostcode(s) <==> MatchesPattern(s)
  {
    if IsGeneralPostcode(s) {
      GeneralSound(s);
    }
    if IsGirPostcode(s) {
      GirSound(s);
    }
    if exists second, fourth, space :: GeneralAt(s, second, fourth, space) {
      var second, fourth, space :| GeneralAt(s, second, fourth, space);
      GeneralComplete(s, second, fourth, space);
    }
  }

  /** GIR 0AA needs its own alternative: I may not be the second letter. */
  lemma GirIsSpecial()
    ensures IsGirPostcode("GIR 0AA") && !IsGeneralPostcode("GIR 0AA")
    ensures IsGirPostcode("gir0aa") && !IsGeneralPostcode("gir0aa")
  {
  }
}
