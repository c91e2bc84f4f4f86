/** What the price and rating patterns read out of messages built from
    a number's decimal digits: the round trips from a number, through the
    text a customer would type, back to the bound or threshold. */
module Readings {
  import opened Wrappers
  import opened Text
  import opened Patterns

  /** Python's `str(n)` for a natural number: its decimal digits. */
  function Decimal(n: nat): (d: string)
    ensures |d| > 0
    ensures forall k :: 0 <= k < |d| ==> IsDigit(d[k])
    ensures DigitsValue(d) == n
  {
    var last := ('0' as int + n % 10) as char;
    if n < 10 then
      assert [last][..0] == [];
      [last]
    else
      var d := Decimal(n / 10) + [last];
      assert d[..|d| - 1] == Decimal(n / 10);
      d
  }

  /** A number written out at the end of a message is read whole, and the
      match runs to the end. */
  lemma NumberAtEnd(s: string, p: string, n: nat)
    requires s == p + Decimal(n)
    ensures NumberAt(s, |p|) == Some((n as real, |s|))
  {
    var d := Decimal(n);
    assert s[|p|..|p| + |d|] == d;
    IntegerAt(s, |p|, |d|);
  }

  /** A message made of lower-case text and digits is its own lowercase. */
  lemma LowerOfDigits(s: string, p: string, n: nat)
    requires s == p + Decimal(n) && forall k :: 0 <= k < |p| ==> !IsUpper(p[k])
    ensures Lower(s) == s
  {
    LowerKeeps(s);
  }

  /** "under $N" at the start of a message is read as the bound N. */
  lemma UnderText(s: string, n: nat)
    requires s == "under $" + Decimal(n)
    ensures UnderAt(s, 0) == Some(n as real)
  {
    NumberAtEnd(s, "under $", n);
    assert s[..5] == "under" && s[5] == ' ' && s[6] == '$';
    UnderReads(s, 0, 0, 5, 1, 1, n as real, |s|);
  }

  /** "over N" at the start of a message is read as the bound N. */
  lemma OverText(s: string, n: nat)
    requires s == "over " + Decimal(n)
    ensures OverAt(s, 0) == Some(n as real)
  {
    NumberAtEnd(s, "over ", n);
    assert s[..4] == "over" && s[4] == ' ' && s[5] == Decimal(n)[0];
    OverReads(s, 0, 0, 4, 1, 0, n as real, |s|);
  }

  /** "under $N" sets an upper bound of N and no lower bound. */
  lemma UnderRoundTrip(n: nat)
    ensures ExtractPriceRange("under $" + Decimal(n)) == PriceRange(None, Some(n as real))
  {
    var s := "under $" + Decimal(n);
    LowerOfDigits(s, "under $", n);
    assert 'b' !in s;
    BetweenNeedsB(s);
    UnderText(s, n);
    SearchAtStart(s, UnderAt);
  }

  /** "over N" sets a lower bound of N and no upper bound. */
  lemma OverRoundTrip(n: nat)
    ensures ExtractPriceRange("over " + Decimal(n)) == PriceRange(Some(n as real), None)
  {
    var s := "over " + Decimal(n);
    LowerOfDigits(s, "over ", n);
    assert 'b' !in s && 'u' !in s && 'l' !in s;
    BetweenNeedsB(s);
    UnderNeedsLetters(s);
    OverText(s, n);
    SearchAtStart(s, OverAt);
  }

  /** A number followed by white space is read whole, and the match ends
      before the white space. */
  lemma NumberBeforeSpace(s: string, p: string, n: nat, q: string)
    requires s == p + Decimal(n) + q && |q| > 0 && IsSpace(q[0])
    ensures NumberAt(s, |p|) == Some((n as real, |p| + |Decimal(n)|))
  {
    var d := Decimal(n);
    assert s[|p|..|p| + |d|] == d;
    assert s[|p| + |d|] == q[0];
    IntegerAt(s, |p|, |d|);
  }

  /** Digits are their own lowercase. */
  lemma DecimalIsLower(n: nat)
    ensures Lower(Decimal(n)) == Decimal(n)
  {
    LowerKeeps(Decimal(n));
  }

  /** Lowercasing works piece by piece. */
  lemma LowerAppend(p: string, q: string)
    ensures Lower(p + q) == Lower(p) + Lower(q)
  {
    assert forall i :: 0 <= i < |p + q| ==> Lower(p + q)[i] == (Lower(p) + Lower(q))[i] by {
      forall i | 0 <= i < |p + q|
        ensures Lower(p + q)[i] == (Lower(p) + Lower(q))[i]
      {
        if i < |p| {
          assert (p + q)[i] == p[i];
        } else {
          assert (p + q)[i] == q[i - |p|];
        }
      }
    }
  }

  /** "between A" followed by white space: the keyword, one space, and the
      number A ending where the white space starts. */
  lemma BetweenFirst(s: string, a: nat, q: string)
    requires s == "between " + Decimal(a) + q && |q| > 0 && IsSpace(q[0])
    ensures OccursAt(s, "between", 0) && SpaceRun(s, 7, 1)
    ensures NumberAt(s, 8) == Some((a as real, 8 + |Decimal(a)|))
  {
    NumberBeforeSpace(s, "between ", a, q);
    assert s[..7] == "between";
    assert s[7] == ' ' && s[8] == Decimal(a)[0];
  }

  /** " and B" at the end of a message reads B. */
  lemma AndSecond(s: string, p: string, b: nat)
    requires s == p + " and " + Decimal(b)
    ensures AndNumber(s, |p|) == Some(b as real)
  {
    var k := |p|;
    NumberAtEnd(s, p + " and ", b);
    assert s[k..k + 5] == " and ";
    assert s[k + 1..k + 4] == "and";
    assert s[k + 5] == Decimal(b)[0];
    AndReads(s, k, 1, 1, b as real, |s|);
  }

  /** Concatenation regroups freely. */
  lemma Regroup(x: string, y: string, z: string)
    ensures x + y + z == x + (y + z)
  {
  }

  /** "between A and B" at the start of a message is read as the range
      from A to B. */
  lemma BetweenText(s: string, a: nat, b: nat)
    requires s == "between " + Decimal(a) + " and " + Decimal(b)
    ensures BetweenAt(s, 0) == Some((a as real, b as real))
  {
    AndSecond(s, "between " + Decimal(a), b);
    Regroup("between " + Decimal(a), " and ", Decimal(b));
    BetweenFirst(s, a, " and " + Decimal(b));
    BetweenAtStart(s, a as real, 8 + |Decimal(a)|, b as real);
  }

  /** `BetweenReads` at the start of a message. */
  lemma BetweenAtStart(s: string, a: real, k: nat, b: real)
    requires OccursAt(s, "between", 0) && SpaceRun(s, 7, 1) && NumberAt(s, 8) == Some((a, k))
    requires AndNumber(s, k) == Some(b)
    ensures BetweenAt(s, 0) == Some((a, b))
  {
    BetweenReads(s, 0, 1, a, k, b);
  }

  /** The keywords of the range message are already lowercase. */
  lemma KeywordsAreLower()
    ensures Lower("between ") == "between " && Lower(" and ") == " and "
  {
    LowerKeeps("between ");
    LowerKeeps(" and ");
  }

  /** "between A and B" is its own lowercase. */
  lemma BetweenIsLower(a: nat, b: nat)
    ensures Lower("between " + Decimal(a) + " and " + Decimal(b))
      == "between " + Decimal(a) + " and " + Decimal(b)
  {
    var first := "between " + Decimal(a);
    KeywordsAreLower();
    DecimalIsLower(a);
    DecimalIsLower(b);
    LowerAppend("between ", Decimal(a));
    LowerAppend(first, " and ");
    LowerAppend(first + " and ", Decimal(b));
  }

  /** "between A and B" sets both bounds, to A and B. */
  lemma BetweenRoundTrip(a: nat, b: nat)
    ensures ExtractPriceRange("between " + Decimal(a) + " and " + Decimal(b))
      == PriceRange(Some(a as real), Some(b as real))
  {
    var s := "between " + Decimal(a) + " and " + Decimal(b);
    BetweenText(s, a, b);
    SearchAtStart(s, BetweenAt);
    BetweenIsLower(a, b);
  }

  /** "ratings above N" at `|p|` is read as the threshold N. */
  lemma RatingsAboveText(s: string, p: string, n: nat)
    requires s == p + "ratings above " + Decimal(n)
    ensures RatingThresholdAt(s, |p|) == Some(n as real)
  {
    RatingsPart(s, p, n);
    AbovePart(s, p, n);
    RatingsReads(s, |p|, 1, n as real);
  }

  /** The "ratings " of "ratings above N". */
  lemma RatingsPart(s: string, p: string, n: nat)
    requires s == p + "ratings above " + Decimal(n)
    ensures OccursAt(s, "ratings", |p|) && SpaceRun(s, |p| + 7, 1)
  {
    var i := |p|;
    assert s[i..i + 14] == "ratings above ";
    assert s[i..i + 7] == "ratings";
    assert s[i + 7] == ' ' && s[i + 8] == 'a';
  }

  /** The "above N" of "ratings above N" reads N. */
  lemma AbovePart(s: string, p: string, n: nat)
    requires s == p + "ratings above " + Decimal(n)
    ensures AfterKeyword(s, |p| + 7 + 1, RatingComparisons, SpacesNumber) == Some(n as real)
  {
    var i := |p|;
    NumberAtEnd(s, p + "ratings above ", n);
    assert s[i..i + 14] == "ratings above ";
    assert s[i + 8..i + 13] == "above";
    assert s[i + 13] == ' ' && s[i + 14] == Decimal(n)[0];
    AboveNumberReads(s, i + 8, 1, n as real, |s|);
  }

  /** No rating pattern starts before "ratings above N" when the text in
      front has no "g": every "rating" ends in one. */
  lemma NoRatingBefore(s: string, p: string, n: nat)
    requires s == p + "ratings above " + Decimal(n) && 'g' !in p
    ensures forall j :: 0 <= j < |p| ==> RatingThresholdAt(s, j).None?
  {
    forall j | 0 <= j < |p| ensures RatingThresholdAt(s, j).None? {
      if j + 5 < |p| {
        assert s[j + 5] == p[j + 5];
      } else {
        assert s[j + 5] == "ratings above "[j + 5 - |p|];
      }
      NoRatingWithoutG(s, j);
    }
  }

  /** "…ratings above N" asks for a rating above N, whatever comes in front
      as long as it has no "g". */
  lemma RatingsAboveRoundTrip(message: string, p: string, n: nat)
    requires Lower(message) == p + "ratings above " + Decimal(n) && 'g' !in p
    ensures RatingThreshold(message) == Some(n as real)
  {
    var s := Lower(message);
    RatingsAboveText(s, p, n);
    NoRatingBefore(s, p, n);
    SearchFinds(s, RatingThresholdAt, |p|);
  }

  /** A customer's request for well-rated products. */
  lemma RatingExample()
    ensures RatingThreshold("Show me products with ratings above 4") == Some(4.0)
  {
    var front := "how me products with ";
    ExampleText();
    ExampleLower();
    assert Decimal(4) == "4";
    RatingsAboveRoundTrip("S" + front + "ratings above " + "4", "s" + front, 4);
  }

  lemma ExampleText()
    ensures "Show me products with ratings above 4" == "S" + "how me products with " + "ratings above " + "4"
  {
  }

  lemma ExampleLower()
    ensures Lower("S" + "how me products with " + "ratings above " + "4")
      == "s" + "how me products with " + "ratings above " + "4"
  {
    var front := "how me products with ";
    LowerKeeps(front);
    LowerKeeps("ratings above ");
    LowerKeeps("4");
    assert Lower("S") == "s";
    LowerAppend("S", front);
    LowerAppend("S" + front, "ratings above ");
    LowerAppend("S" + front + "ratings above ", "4");
  }
}
