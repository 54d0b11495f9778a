/**
 * The numeric-token pattern of the extractor,
 *     -?\d+(?:\.\d+)?(?:[eE][-+]?\d+)?
 * and how Python's backtracking regular-expression engine applies it:
 * `MatchAt` is the match anchored at one position, `Search` the first
 * position, scanning left to right, where an anchored match succeeds.
 *
 * `NumberAt` states the pattern independently, as a decomposition of the
 * matched text into sign, integer digits, fraction and exponent; the lemmas
 * show that the engine returns the leftmost, and there the longest, such text.
 */
module NumberPattern {
  import opened Wrappers

  predicate IsDigit(c: char) { '0' <= c <= '9' }
  predicate IsExpMark(c: char) { c == 'e' || c == 'E' }
  predicate IsSign(c: char) { c == '-' || c == '+' }

  /** s[lo..hi] is a non-empty run of digits */
  predicate DigitRun(s: string, lo: int, hi: int)
  {
    0 <= lo < hi <= |s| && forall k :: lo <= k < hi ==> IsDigit(s[k])
  }

  /**
   * s[i..e] splits as s[i..a] (an optional '-'), s[a..b] (digits),
   * s[b..c] (empty, or '.' and digits) and s[c..e] (empty, or 'e'/'E',
   * an optional sign, and digits).
   */
  predicate NumberSplit(s: string, i: int, a: int, b: int, c: int, e: int)
  {
    0 <= i <= a <= b <= c <= e <= |s| &&
    (a == i || (a == i + 1 && s[i] == '-')) &&
    DigitRun(s, a, b) &&
    (c == b || (s[b] == '.' && DigitRun(s, b + 1, c))) &&
    (e == c ||
     (IsExpMark(s[c]) &&
      (DigitRun(s, c + 1, e) || (c + 1 < e && IsSign(s[c + 1]) && DigitRun(s, c + 2, e)))))
  }

  /** s[i..e] is a text the pattern matches in full */
  ghost predicate NumberAt(s: string, i: int, e: int)
  {
    exists a, b, c :: NumberSplit(s, i, a, b, c, e)
  }

  ghost predicate IsNumber(t: string)
  {
    NumberAt(t, 0, |t|)
  }

  /** Where a match of the pattern lies in a line: s[start..stop]. */
  datatype Span = Span(start: nat, stop: nat)

  /** The end of the maximal digit run that starts at k (`\d+`, greedy). */
  function DigitsEnd(s: string, k: nat): (r: nat)
    requires k <= |s|
    ensures k <= r <= |s|
    ensures forall j :: k <= j < r ==> IsDigit(s[j])
    ensures r == |s| || !IsDigit(s[r])
    decreases |s| - k
  {
    if k < |s| && IsDigit(s[k]) then DigitsEnd(s, k + 1) else k
  }

  /** `(?:\.\d+)?` at k: taken only when a digit follows the '.' */
  function FractionEnd(s: string, k: nat): (r: nat)
    requires k <= |s|
    ensures k <= r <= |s|
  {
    if k + 1 < |s| && s[k] == '.' && IsDigit(s[k + 1]) then DigitsEnd(s, k + 1) else k
  }

  /** `(?:[eE][-+]?\d+)?` at k: taken only when digits follow the mark and sign */
  function ExponentEnd(s: string, k: nat): (r: nat)
    requires k <= |s|
    ensures k <= r <= |s|
  {
    if k + 1 < |s| && IsExpMark(s[k]) then
      if IsDigit(s[k + 1]) then DigitsEnd(s, k + 1)
      else if k + 2 < |s| && IsSign(s[k + 1]) && IsDigit(s[k + 2]) then DigitsEnd(s, k + 2)
      else k
    else k
  }

  /** The end of the match anchored at i (`NUM_RE.match(s, i)`), if any. */
  function MatchAt(s: string, i: nat): (r: Option<nat>)
    requires i <= |s|
    ensures r.Some? ==> i < r.value <= |s|
  {
    var a := if i + 1 < |s| && s[i] == '-' && IsDigit(s[i + 1]) then i + 1 else i;
    if a < |s| && IsDigit(s[a]) then
      Some(ExponentEnd(s, FractionEnd(s, DigitsEnd(s, a))))
    else
      None
  }

  /** The first anchored match at position i or later. */
  function SearchFrom(s: string, i: nat): (r: Option<Span>)
    requires i <= |s|
    ensures r.Some? ==> i <= r.value.start < r.value.stop <= |s|
    decreases |s| - i
  {
    if i == |s| then None
    else match MatchAt(s, i)
      case Some(e) => Some(Span(i, e))
      case None => SearchFrom(s, i + 1)
  }

  /** `NUM_RE.search(s)` */
  function Search(s: string): (r: Option<Span>)
    ensures r.Some? ==> r.value.start < r.value.stop <= |s|
  {
    SearchFrom(s, 0)
  }

  // ---------------------------------------------------------------------
  // The engine against the declarative pattern

  lemma RunReachesEnd(s: string, k: nat, hi: int)
    requires k <= hi <= |s|
    requires forall j :: k <= j < hi ==> IsDigit(s[j])
    ensures hi <= DigitsEnd(s, k)
  {
  }

  /** Whatever the anchored match returns is text the pattern matches in full. */
  lemma MatchAtIsNumber(s: string, i: nat)
    requires i <= |s| && MatchAt(s, i).Some?
    ensures NumberAt(s, i, MatchAt(s, i).value)
  {
    var a := if i + 1 < |s| && s[i] == '-' && IsDigit(s[i + 1]) then i + 1 else i;
    var b := DigitsEnd(s, a);
    var c := FractionEnd(s, b);
    var e := ExponentEnd(s, c);
    assert NumberSplit(s, i, a, b, c, e);
  }

  /** The exponent part of a number ending at e cannot reach beyond ExponentEnd. */
  lemma ExponentCovers(s: string, c: nat, e: int)
    requires c < e <= |s| && IsExpMark(s[c])
    requires DigitRun(s, c + 1, e) || (c + 1 < e && IsSign(s[c + 1]) && DigitRun(s, c + 2, e))
    ensures e <= ExponentEnd(s, c)
  {
    if DigitRun(s, c + 1, e) {
      RunReachesEnd(s, c + 1, e);
    } else {
      RunReachesEnd(s, c + 2, e);
    }
  }

  /** The fraction part of a number ending at c cannot reach beyond FractionEnd. */
  lemma FractionCovers(s: string, b: nat, c: int)
    requires b < c <= |s| && s[b] == '.' && DigitRun(s, b + 1, c)
    ensures FractionEnd(s, b) == DigitsEnd(s, b + 1) && c <= FractionEnd(s, b)
  {
    RunReachesEnd(s, b + 1, c);
  }

  /** What follows the integer digits of a number, within the anchored match. */
  lemma TailWithinMatch(s: string, i: nat, a: nat, b: nat, c: nat, e: nat)
    requires NumberSplit(s, i, a, b, c, e) && b == DigitsEnd(s, a)
    ensures e <= ExponentEnd(s, FractionEnd(s, b))
  {
    var c0 := FractionEnd(s, b);
    if c == b {
      if e != c {
        assert c0 == b;
        ExponentCovers(s, c0, e);
      }
    } else {
      FractionCovers(s, b, c);
      if c < c0 {
        assert IsDigit(s[c]);
      } else if e != c {
        ExponentCovers(s, c0, e);
      }
    }
  }

  lemma SplitWithinMatch(s: string, i: nat, a: nat, b: nat, c: nat, e: nat)
    requires NumberSplit(s, i, a, b, c, e)
    ensures MatchAt(s, i).Some? && e <= MatchAt(s, i).value
  {
    var a0 := if i + 1 < |s| && s[i] == '-' && IsDigit(s[i + 1]) then i + 1 else i;
    assert IsDigit(s[a]);
    assert a == a0;
    var b0 := DigitsEnd(s, a);
    RunReachesEnd(s, a, b);
    assert MatchAt(s, i) == Some(ExponentEnd(s, FractionEnd(s, b0)));
    if b < b0 {
      assert IsDigit(s[b]);
    } else {
      TailWithinMatch(s, i, a, b, c, e);
    }
  }

  /** Every number starting at i ends at or before the end of the anchored match. */
  lemma NumberWithinMatch(s: string, i: nat, e: int)
    requires NumberAt(s, i, e)
    ensures i <= |s| && MatchAt(s, i).Some? && e <= MatchAt(s, i).value
  {
    var a, b, c :| NumberSplit(s, i, a, b, c, e);
    SplitWithinMatch(s, i, a, b, c, e);
  }

  /** The anchored match is exactly the longest number starting at i. */
  lemma MatchAtLongest(s: string, i: nat, e: int)
    requires i <= |s|
    ensures MatchAt(s, i) == Some(e) <==>
              NumberAt(s, i, e) && forall e' :: NumberAt(s, i, e') ==> e' <= e
  {
    if MatchAt(s, i) == Some(e) {
      MatchAtIsNumber(s, i);
      forall e' | NumberAt(s, i, e') ensures e' <= e {
        NumberWithinMatch(s, i, e');
      }
    }
    if NumberAt(s, i, e) && forall e' :: NumberAt(s, i, e') ==> e' <= e {
      NumberWithinMatch(s, i, e);
      MatchAtIsNumber(s, i);
    }
  }

  /** Scanning from i finds nothing only when no anchored match succeeds from i onward. */
  lemma {:induction false} SearchFromNone(s: string, i: nat)
    requires i <= |s| && SearchFrom(s, i).None?
    ensures forall j :: i <= j <= |s| ==> MatchAt(s, j).None?
    decreases |s| - i
  {
    if i < |s| {
      assert MatchAt(s, i).None?;
      SearchFromNone(s, i + 1);
    }
  }

  /** Scanning from i stops at the first position whose anchored match succeeds. */
  lemma {:induction false} SearchFromSome(s: string, i: nat)
    requires i <= |s| && SearchFrom(s, i).Some?
    ensures MatchAt(s, SearchFrom(s, i).value.start) == Some(SearchFrom(s, i).value.stop)
    ensures forall j :: i <= j < SearchFrom(s, i).value.start ==> MatchAt(s, j).None?
    decreases |s| - i
  {
    if MatchAt(s, i).None? {
      assert SearchFrom(s, i) == SearchFrom(s, i + 1);
      SearchFromSome(s, i + 1);
    }
  }

  /** SearchFromNone and SearchFromSome together, for either outcome of the scan. */
  lemma SearchFromFirst(s: string, i: nat)
    requires i <= |s|
    ensures SearchFrom(s, i).None? ==> forall j :: i <= j <= |s| ==> MatchAt(s, j).None?
    ensures SearchFrom(s, i).Some? ==>
              MatchAt(s, SearchFrom(s, i).value.start) == Some(SearchFrom(s, i).value.stop) &&
              forall j :: i <= j < SearchFrom(s, i).value.start ==> MatchAt(s, j).None?
  {
    if SearchFrom(s, i).None? {
      SearchFromNone(s, i);
    } else {
      SearchFromSome(s, i);
    }
  }

  /**
   * `Search` finds the leftmost number in s, and at that position the
   * longest one; when it finds nothing, s contains no number at all.
   */
  lemma SearchLeftmostLongest(s: string)
    ensures Search(s).Some? ==>
              NumberAt(s, Search(s).value.start, Search(s).value.stop) &&
              forall i, e :: NumberAt(s, i, e) ==>
                Search(s).value.start < i || (Search(s).value.start == i && e <= Search(s).value.stop)
    ensures Search(s).None? ==> forall i, e :: !NumberAt(s, i, e)
  {
    SearchFromFirst(s, 0);
    forall i, e | NumberAt(s, i, e)
      ensures Search(s).Some? &&
              (Search(s).value.start < i || (Search(s).value.start == i && e <= Search(s).value.stop))
    {
      NumberWithinMatch(s, i, e);
      assert MatchAt(s, i).Some?;
    }
    if Search(s).Some? {
      MatchAtLongest(s, Search(s).value.start, Search(s).value.stop);
    }
  }

  /**
   * The match starts at the first digit of the line, or at the '-'
   * immediately before it.
   */
  lemma SearchStartsAtFirstDigit(s: string, d: nat)
    requires d < |s| && IsDigit(s[d])
    requires forall k :: 0 <= k < d ==> !IsDigit(s[k])
    ensures Search(s).Some?
    ensures Search(s).value.start == if 0 < d && s[d - 1] == '-' then d - 1 else d
  {
    var st := if 0 < d && s[d - 1] == '-' then d - 1 else d;
    SearchFromFirst(s, 0);
    assert MatchAt(s, st).Some?;
    forall j | 0 <= j < st ensures MatchAt(s, j).None? {
      assert !IsDigit(s[j]);
      assert j + 1 < d || s[j] != '-';
    }
  }

  /** A line yields a match exactly when it contains a digit. */
  lemma SearchFindsIffDigit(s: string)
    ensures Search(s).Some? <==> exists k :: 0 <= k < |s| && IsDigit(s[k])
  {
    SearchFromFirst(s, 0);
    if k :| 0 <= k < |s| && IsDigit(s[k]) {
      assert MatchAt(s, k).Some?;
    }
    if Search(s).Some? {
      var st := Search(s).value.start;
      var a := if st + 1 < |s| && s[st] == '-' && IsDigit(s[st + 1]) then st + 1 else st;
      assert IsDigit(s[a]);
    }
  }

  /** A number found inside a line is, taken on its own, a number. */
  lemma NumberAtSlice(s: string, i: int, e: int)
    requires NumberAt(s, i, e)
    ensures 0 <= i <= e <= |s| && IsNumber(s[i..e])
  {
    var a, b, c :| NumberSplit(s, i, a, b, c, e);
    var t := s[i..e];
    assert forall k :: 0 <= k < |t| ==> t[k] == s[i + k];
    assert NumberSplit(t, 0, a - i, b - i, c - i, e - i);
  }
}
