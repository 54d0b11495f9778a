/** Concrete texts and the token the numeric pattern takes from them. */
module Scenarios {
  import opened Wrappers
  import opened NumberPattern
  import opened Extractor

  /** A '.' is part of the token only when a digit follows it: "12." gives "12", "12.5" gives "12.5". */
  lemma FractionNeedsDigit()
    ensures Search("12.") == Some(Span(0, 2))
    ensures Search("12.5") == Some(Span(0, 4))
  {
    assert DigitsEnd("12.", 0) == 2;
    assert DigitsEnd("12.5", 3) == 4;
    assert DigitsEnd("12.5", 0) == 2;
  }

  /** An exponent mark, with or without a sign, is part of the token only when digits follow. */
  lemma ExponentNeedsDigits()
    ensures Search("1e") == Some(Span(0, 1))
    ensures Search("1e+x") == Some(Span(0, 1))
    ensures Search("1E-5") == Some(Span(0, 4))
  {
    assert DigitsEnd("1e", 0) == 1;
    assert DigitsEnd("1e+x", 0) == 1;
    assert DigitsEnd("1E-5", 0) == 1;
    assert DigitsEnd("1E-5", 3) == 4;
  }

  /** The token starts at the first digit, taking a '-' just before it. */
  lemma MinusBeforeFirstDigit()
    ensures Search("a-7") == Some(Span(1, 3))
    ensures Search("-a7") == Some(Span(2, 3))
  {
    assert DigitsEnd("a-7", 2) == 3;
    assert DigitsEnd("-a7", 2) == 3;
  }

  /** The number need not follow the marker: the first number of the line is taken. */
  lemma NumberBeforeMarker()
    ensures LineSample("5 Packet PDCP delay 7") == Some("5")
  {
    var line := "5 Packet PDCP delay 7";
    assert line[2..][..17] == Marker;
    assert Contains(line[2..], Marker);
    assert Contains(line, Marker);
    assert DigitsEnd(line, 0) == 1;
    assert MatchAt(line, 0) == Some(1);
    assert Search(line) == Some(Span(0, 1));
    assert line[0..1] == "5";
  }
}
