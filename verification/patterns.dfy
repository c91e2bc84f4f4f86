/** The fixed regular expressions of the chatbot, each hand-coded as a
    matcher at one position plus a leftmost search (`re.search`).
    Case-insensitive patterns are matched against the ASCII-lowercased
    text. Where a pattern has `\s+` or `\s*` in front of an element that
    cannot begin with white space, only the longest run of white space can
    lead to a match, so the matchers take the longest run. */
module Patterns {
  import opened Wrappers
  import opened Seqs
  import opened Text

  /** Leftmost position `0..|s|` at which `at` matches. */
  function Leftmost<T>(s: string, at: (string, nat) -> Option<T>): (r: Option<nat>)
    ensures r.None? <==> forall j :: 0 <= j <= |s| ==> at(s, j).None?
    ensures r.Some? ==> r.value <= |s| && at(s, r.value).Some?
    ensures r.Some? ==> forall j :: 0 <= j < r.value ==> at(s, j).None?
  {
    var positions: seq<nat> := seq(|s| + 1, (j: int) requires 0 <= j => j as nat);
    var matches := (j: nat) => at(s, j).Some?;
    assert forall j :: 0 <= j <= |s| ==> positions[j] == j && matches(positions[j]) == at(s, j).Some?;
    FirstIndex(positions, matches)
  }

  /** `re.search`: what the pattern yields at its leftmost match. */
  function Search<T>(s: string, at: (string, nat) -> Option<T>): (r: Option<T>)
    ensures r.None? <==> forall j :: 0 <= j <= |s| ==> at(s, j).None?
    ensures r.Some? ==> r == at(s, Leftmost(s, at).value)
  {
    match Leftmost(s, at)
    case None => None
    case Some(j) => at(s, j)
  }

  /** A pattern that matches at the start is found there. */
  lemma SearchAtStart<T>(s: string, at: (string, nat) -> Option<T>)
    requires at(s, 0).Some?
    ensures Search(s, at) == at(s, 0)
  {
  }

  /** A pattern that matches at `m` and nowhere before is found there. */
  lemma SearchFinds<T>(s: string, at: (string, nat) -> Option<T>, m: nat)
    requires m <= |s| && at(s, m).Some?
    requires forall j :: 0 <= j < m ==> at(s, j).None?
    ensures Search(s, at) == at(s, m)
  {
    var l := Leftmost(s, at).value;
    assert at(s, l).Some? && at(s, m).Some?;
    assert l == m;
  }

  /** Number of white-space characters starting at `i`: what a greedy
      `\s*` consumes there (`SpacesExact` characterises it). */
  function Spaces(s: string, i: nat): (n: nat)
    requires i <= |s|
    ensures i + n <= |s|
    ensures i + n < |s| ==> !IsSpace(s[i + n])
    decreases |s| - i
  {
    if i < |s| && IsSpace(s[i]) then 1 + Spaces(s, i + 1) else 0
  }

  /** `w` white-space characters from `i` on, and no more. */
  predicate SpaceSpan(s: string, i: nat, w: nat) {
    && i + w <= |s|
    && (forall k :: i <= k < i + w ==> IsSpace(s[k]))
    && (i + w == |s| || !IsSpace(s[i + w]))
  }

  /** `n` decimal digits from `i` on, and no more. */
  predicate DigitSpan(s: string, i: nat, n: nat) {
    && i + n <= |s|
    && (forall k :: i <= k < i + n ==> IsDigit(s[k]))
    && (i + n == |s| || !IsDigit(s[i + n]))
  }

  /** `\s*` at `i` consumes exactly the white space that starts there. */
  lemma SpacesExact(s: string, i: nat, w: nat)
    requires i <= |s|
    ensures Spaces(s, i) == w <==> SpaceSpan(s, i, w)
  {
    SpacesSpan(s, i);
    if SpaceSpan(s, i, w) {
      SpanIsSpaces(s, i, w);
    }
  }

  lemma {:induction false} SpacesSpan(s: string, i: nat)
    requires i <= |s|
    ensures SpaceSpan(s, i, Spaces(s, i))
    decreases |s| - i
  {
    if i < |s| && IsSpace(s[i]) {
      SpacesSpan(s, i + 1);
    }
  }

  lemma {:induction false} SpanIsSpaces(s: string, i: nat, w: nat)
    requires SpaceSpan(s, i, w)
    ensures Spaces(s, i) == w
    decreases w
  {
    if w > 0 {
      SpanIsSpaces(s, i + 1, w - 1);
    }
  }

  /** Number of decimal digits starting at `i`: what a greedy `\d*`
      consumes there (`DigitsExact` characterises it). */
  function Digits(s: string, i: nat): (n: nat)
    requires i <= |s|
    ensures i + n <= |s|
    ensures i + n < |s| ==> !IsDigit(s[i + n])
    decreases |s| - i
  {
    if i < |s| && IsDigit(s[i]) then 1 + Digits(s, i + 1) else 0
  }

  /** `\d*` at `i` consumes exactly the digits that start there. */
  lemma DigitsExact(s: string, i: nat, n: nat)
    requires i <= |s|
    ensures Digits(s, i) == n <==> DigitSpan(s, i, n)
  {
    DigitsSpan(s, i);
    if DigitSpan(s, i, n) {
      SpanIsDigits(s, i, n);
    }
  }

  lemma {:induction false} DigitsSpan(s: string, i: nat)
    requires i <= |s|
    ensures DigitSpan(s, i, Digits(s, i))
    decreases |s| - i
  {
    if i < |s| && IsDigit(s[i]) {
      DigitsSpan(s, i + 1);
    }
  }

  lemma {:induction false} SpanIsDigits(s: string, i: nat, n: nat)
    requires DigitSpan(s, i, n)
    ensures Digits(s, i) == n
    decreases n
  {
    if n > 0 {
      SpanIsDigits(s, i + 1, n - 1);
    }
  }

  /** Value of a non-empty string of decimal digits. */
  function DigitsValue(d: string): nat
    decreases |d|
  {
    if |d| == 0 then 0
    else DigitsValue(d[..|d| - 1]) * 10 + (if IsDigit(d[|d| - 1]) then d[|d| - 1] as int - '0' as int else 0)
  }

  function Pow10(n: nat): (r: nat)
    ensures r > 0
  {
    if n == 0 then 1 else 10 * Pow10(n - 1)
  }

  /** `\d+(?:\.\d+)?` at `i`: the value `float()` gives it and the index
      just past it. Both repetitions are greedy; the fraction is taken
      when a digit follows the point. */
  function NumberAt(s: string, i: nat): (r: Option<(real, nat)>)
    ensures r.Some? <==> i < |s| && IsDigit(s[i])
    ensures r.Some? ==> i < r.value.1 <= |s| && r.value.0 >= 0.0
    ensures r.Some? ==> r.value.1 == |s| || !IsDigit(s[r.value.1])
  {
    if i >= |s| then None
    else
      var n := Digits(s, i);
      if n == 0 then None
      else
        var whole := DigitsValue(s[i..i + n]) as real;
        var j := i + n;
        if j + 1 < |s| && s[j] == '.' && IsDigit(s[j + 1]) then
          var m := Digits(s, j + 1);
          Some((whole + DigitsValue(s[j + 1..j + 1 + m]) as real / Pow10(m) as real, j + 1 + m))
        else Some((whole, j))
  }

  /** A run of `w > 0` white-space characters at `j`: what `\s+` consumes. */
  predicate SpaceRun(s: string, j: nat, w: nat) {
    w > 0 && SpaceSpan(s, j, w)
  }

  /** `\s+` takes the whole run of white space. */
  lemma SpacesIs(s: string, j: nat, w: nat)
    requires SpaceRun(s, j, w)
    ensures Spaces(s, j) == w
  {
    SpanIsSpaces(s, j, w);
  }

  /** `n` digits at `j`, followed by the end or by a character that
      neither is a digit nor is a point before a digit. */
  predicate IntegerSpan(s: string, j: nat, n: nat) {
    && n > 0 && DigitSpan(s, j, n)
    && !(j + n + 1 < |s| && s[j + n] == '.' && IsDigit(s[j + n + 1]))
  }

  /** A whole number is read as the value of its digits, and the match
      ends right after them. */
  lemma IntegerAt(s: string, j: nat, n: nat)
    requires IntegerSpan(s, j, n)
    ensures NumberAt(s, j) == Some((DigitsValue(s[j..j + n]) as real, j + n))
  {
    SpanIsDigits(s, j, n);
  }

  /** A number with a fraction is read as its whole part plus its
      fractional digits scaled down, and the match ends after them. */
  lemma FractionAt(s: string, j: nat, n: nat, m: nat)
    requires n > 0 && DigitSpan(s, j, n) && j + n < |s| && s[j + n] == '.'
    requires m > 0 && DigitSpan(s, j + n + 1, m)
    ensures NumberAt(s, j) == Some((DigitsValue(s[j..j + n]) as real
      + DigitsValue(s[j + n + 1..j + n + 1 + m]) as real / Pow10(m) as real, j + n + 1 + m))
  {
    SpanIsDigits(s, j, n);
    SpanIsDigits(s, j + n + 1, m);
  }

  /** `(?:w1|w2|…)` at `i` followed by `rest`: the alternatives are tried
      in order, and a later one is tried when `rest` fails after an earlier
      (`AfterKeywordFirst` states what it yields). */
  function AfterKeyword<T>(s: string, i: nat, words: seq<string>, rest: (string, nat) -> Option<T>): Option<T>
    decreases |words|
  {
    if |words| == 0 then None
    else if OccursAt(s, words[0], i) && rest(s, i + |words[0]|).Some? then rest(s, i + |words[0]|)
    else AfterKeyword(s, i, words[1..], rest)
  }

  /** The alternation matches exactly when some alternative fires, and it
      yields what `rest` yields after the first alternative that fires. */
  lemma {:induction false} AfterKeywordFirst<T>(s: string, i: nat, words: seq<string>, rest: (string, nat) -> Option<T>)
    ensures AfterKeyword(s, i, words, rest).Some? <==> FirstIndex(words, Fires(s, i, rest)).Some?
    ensures AfterKeyword(s, i, words, rest).Some? ==>
      AfterKeyword(s, i, words, rest) == rest(s, i + |words[FirstIndex(words, Fires(s, i, rest)).value]|)
    decreases |words|
  {
    var fires := Fires(s, i, rest);
    if |words| > 0 && !fires(words[0]) {
      AfterKeywordFirst(s, i, words[1..], rest);
      var tail := FirstIndex(words[1..], fires);
      assert FirstIndex(words, fires) == if tail.None? then None else Some(tail.value + 1);
      if tail.Some? {
        assert words[tail.value + 1] == words[1..][tail.value];
      }
    }
  }

  /** The alternation matches exactly when some alternative occurs with
      `rest` matching after it. */
  lemma AfterKeywordSucceeds<T>(s: string, i: nat, words: seq<string>, rest: (string, nat) -> Option<T>)
    ensures AfterKeyword(s, i, words, rest).Some? <==>
      exists k :: 0 <= k < |words| && OccursAt(s, words[k], i) && rest(s, i + |words[k]|).Some?
  {
    AfterKeywordFirst(s, i, words, rest);
    var fires := Fires(s, i, rest);
    if FirstIndex(words, fires).Some? {
      var k := FirstIndex(words, fires).value;
      assert fires(words[k]);
    } else {
      forall k | 0 <= k < |words| ensures !(OccursAt(s, words[k], i) && rest(s, i + |words[k]|).Some?) {
        assert !fires(words[k]);
      }
    }
  }

  /** Alternative `w` occurs at `i` and `rest` matches right after it. */
  function Fires<T>(s: string, i: nat, rest: (string, nat) -> Option<T>): string -> bool {
    (w: string) => OccursAt(s, w, i) && rest(s, i + |w|).Some?
  }

  /** When the alternatives start with different letters, the one that
      occurs is the one taken. */
  lemma KeywordReads<T>(s: string, i: nat, words: seq<string>, k: nat, rest: (string, nat) -> Option<T>)
    requires k < |words| && |words[k]| > 0 && OccursAt(s, words[k], i)
    requires forall m :: 0 <= m < k ==> |words[m]| > 0 && words[m][0] != words[k][0]
    requires rest(s, i + |words[k]|).Some?
    ensures AfterKeyword(s, i, words, rest) == rest(s, i + |words[k]|)
  {
    AfterKeywordFirst(s, i, words, rest);
    var fires := Fires(s, i, rest);
    forall m | 0 <= m < k ensures !fires(words[m]) {
      assert s[i..i + |words[k]|][0] == s[i];
    }
    assert fires(words[k]);
  }

  // ---------------------------------------------------------------------
  // Price range

  /** `\s+\$?(\d+(?:\.\d+)?)` at `j`: the number's value. */
  function SpacesDollarNumber(s: string, j: nat): Option<real> {
    if j > |s| then None
    else
      var w := Spaces(s, j);
      if w == 0 then None
      else
        var k := j + w;
        if k < |s| && s[k] == '$' && NumberAt(s, k + 1).Some? then Some(NumberAt(s, k + 1).value.0)
        else match NumberAt(s, k)
          case Some((x, _)) => Some(x)
          case None => None
  }

  /** `\s+(\d+(?:\.\d+)?)` at `j`: the number's value and the index just
      past it. */
  function SpacedNumber(s: string, j: nat): (r: Option<(real, nat)>)
    ensures r.Some? ==> r.value.0 >= 0.0 && j < r.value.1 <= |s|
  {
    if j > |s| then None
    else
      var w := Spaces(s, j);
      if w == 0 then None else NumberAt(s, j + w)
  }

  /** `\s+and\s+(B)` at `k`: the value of B. */
  function AndNumber(s: string, k: nat): (r: Option<real>)
    ensures r.Some? ==> r.value >= 0.0
  {
    if k > |s| then None
    else
      var w := Spaces(s, k);
      if w == 0 || !OccursAt(s, "and", k + w) then None
      else
        var b := SpacedNumber(s, k + w + 3);
        if b.None? then None else Some(b.value.0)
  }

  /** `between\s+(A)\s+and\s+(B)` at `i`: "between", white space, the
      number A, white space, "and", white space, the number B. */
  function BetweenAt(s: string, i: nat): (r: Option<(real, real)>)
    ensures r.Some? ==> r.value.0 >= 0.0 && r.value.1 >= 0.0
  {
    if !OccursAt(s, "between", i) then None
    else
      var a := SpacedNumber(s, i + 7);
      if a.None? then None
      else
        var b := AndNumber(s, a.value.1);
        if b.None? then None else Some((a.value.0, b.value))
  }

  const UpperWords: seq<string> := ["under", "below", "less than"]
  const LowerWords: seq<string> := ["over", "above", "more than"]

  /** `(?:under|below|less than)\s+\$?(X)` at `i`. */
  function UnderAt(s: string, i: nat): Option<real> {
    AfterKeyword(s, i, UpperWords, SpacesDollarNumber)
  }

  /** `(?:over|above|more than)\s+\$?(X)` at `i`. */
  function OverAt(s: string, i: nat): Option<real> {
    AfterKeyword(s, i, LowerWords, SpacesDollarNumber)
  }

  /** `\s+(X)` reads the number after the whole run of white space. */
  lemma SpacedNumberReads(s: string, j: nat, w: nat)
    requires SpaceRun(s, j, w)
    ensures SpacedNumber(s, j) == NumberAt(s, j + w)
  {
    SpacesIs(s, j, w);
  }

  /** `\s+\$?(X)` reads the number after the whole run of white space and
      the optional dollar sign (`d` is 1 when the sign is there). */
  lemma DollarNumberReads(s: string, j: nat, w: nat, d: nat, x: real, e: nat)
    requires SpaceRun(s, j, w) && d <= 1 && (d == 0 || (j + w < |s| && s[j + w] == '$'))
    requires NumberAt(s, j + w + d) == Some((x, e))
    ensures SpacesDollarNumber(s, j) == Some(x)
  {
    SpacesIs(s, j, w);
  }

  /** `\s+and\s+(B)` yields the number after the white space, "and" and
      white space. */
  lemma AndReads(s: string, k: nat, w2: nat, w3: nat, b: real, e: nat)
    requires SpaceRun(s, k, w2) && OccursAt(s, "and", k + w2) && SpaceRun(s, k + w2 + 3, w3)
    requires NumberAt(s, k + w2 + 3 + w3) == Some((b, e))
    ensures AndNumber(s, k) == Some(b)
  {
    SpacesIs(s, k, w2);
    SpacedNumberReads(s, k + w2 + 3, w3);
    AndOfParts(s, k, w2, b, e);
  }

  lemma AndOfParts(s: string, k: nat, w: nat, b: real, e: nat)
    requires k <= |s| && Spaces(s, k) == w && w > 0 && OccursAt(s, "and", k + w)
    requires SpacedNumber(s, k + w + 3) == Some((b, e))
    ensures AndNumber(s, k) == Some(b)
  {
  }

  /** `between\s+(A)\s+and\s+(B)` yields A, the number after "between"
      and its white space, and B, what `\s+and\s+(B)` reads after A
      (`AndReads` says what that is). */
  lemma BetweenReads(s: string, i: nat, w1: nat, a: real, k: nat, b: real)
    requires OccursAt(s, "between", i) && SpaceRun(s, i + 7, w1) && NumberAt(s, i + 7 + w1) == Some((a, k))
    requires AndNumber(s, k) == Some(b)
    ensures BetweenAt(s, i) == Some((a, b))
  {
    SpacedNumberReads(s, i + 7, w1);
    BetweenOfParts(s, i, a, k, b);
  }

  lemma BetweenOfParts(s: string, i: nat, a: real, k: nat, b: real)
    requires OccursAt(s, "between", i) && SpacedNumber(s, i + 7) == Some((a, k)) && AndNumber(s, k) == Some(b)
    ensures BetweenAt(s, i) == Some((a, b))
  {
  }

  /** After "under", "below" or "less than" (alternative `k`, ending at
      `j`), white space and an optional dollar sign, the upper bound is
      the number read. */
  lemma UnderReads(s: string, i: nat, k: nat, j: nat, w: nat, d: nat, x: real, e: nat)
    requires k < |UpperWords| && OccursAt(s, UpperWords[k], i) && j == i + |UpperWords[k]|
    requires SpaceRun(s, j, w) && d <= 1 && (d == 0 || (j + w < |s| && s[j + w] == '$'))
    requires NumberAt(s, j + w + d) == Some((x, e))
    ensures UnderAt(s, i) == Some(x)
  {
    DollarNumberReads(s, j, w, d, x, e);
    if k == 0 {
      KeywordReads(s, i, UpperWords, 0, SpacesDollarNumber);
    } else if k == 1 {
      KeywordReads(s, i, UpperWords, 1, SpacesDollarNumber);
    } else {
      KeywordReads(s, i, UpperWords, 2, SpacesDollarNumber);
    }
  }

  /** After "over", "above" or "more than" (alternative `k`, ending at
      `j`), white space and an optional dollar sign, the lower bound is
      the number read. */
  lemma OverReads(s: string, i: nat, k: nat, j: nat, w: nat, d: nat, x: real, e: nat)
    requires k < |LowerWords| && OccursAt(s, LowerWords[k], i) && j == i + |LowerWords[k]|
    requires SpaceRun(s, j, w) && d <= 1 && (d == 0 || (j + w < |s| && s[j + w] == '$'))
    requires NumberAt(s, j + w + d) == Some((x, e))
    ensures OverAt(s, i) == Some(x)
  {
    DollarNumberReads(s, j, w, d, x, e);
    if k == 0 {
      KeywordReads(s, i, LowerWords, 0, SpacesDollarNumber);
    } else if k == 1 {
      KeywordReads(s, i, LowerWords, 1, SpacesDollarNumber);
    } else {
      KeywordReads(s, i, LowerWords, 2, SpacesDollarNumber);
    }
  }

  /** Optional lower and upper price bounds. */
  datatype PriceRange = PriceRange(low: Option<real>, high: Option<real>)

  /** `_extract_price_range`: a "between" range wins over an upper bound,
      which wins over a lower bound; without any, both bounds are absent.
      Matching ignores case. */
  function ExtractPriceRange(message: string): (r: PriceRange)
    ensures r.low.Some? ==> r.low.value >= 0.0
    ensures r.high.Some? ==> r.high.value >= 0.0
    ensures Search(Lower(message), BetweenAt).Some? ==>
      r.low == Some(Search(Lower(message), BetweenAt).value.0)
      && r.high == Some(Search(Lower(message), BetweenAt).value.1)
    ensures Search(Lower(message), BetweenAt).None? && Search(Lower(message), UnderAt).Some? ==>
      r == PriceRange(None, Search(Lower(message), UnderAt))
    ensures Search(Lower(message), BetweenAt).None? && Search(Lower(message), UnderAt).None? ==>
      r == PriceRange(Search(Lower(message), OverAt), None)
  {
    var s := Lower(message);
    var between: Option<(real, real)> := Search(s, BetweenAt);
    match between
    case Some((a, b)) => PriceRange(Some(a), Some(b))
    case None =>
      match Search(s, UnderAt)
      case Some(x) =>
        assert x >= 0.0 by { SearchUnderNonNegative(s); }
        PriceRange(None, Some(x))
      case None =>
        match Search(s, OverAt)
        case Some(x) =>
          assert x >= 0.0 by { SearchOverNonNegative(s); }
          PriceRange(Some(x), None)
        case None => PriceRange(None, None)
  }

  lemma SpacesDollarNumberNonNegative(s: string, j: nat)
    ensures SpacesDollarNumber(s, j).Some? ==> SpacesDollarNumber(s, j).value >= 0.0
  {
  }

  lemma {:induction false} AfterKeywordNonNegative(s: string, i: nat, words: seq<string>)
    ensures AfterKeyword(s, i, words, SpacesDollarNumber).Some? ==>
      AfterKeyword(s, i, words, SpacesDollarNumber).value >= 0.0
    decreases |words|
  {
    if |words| > 0 {
      SpacesDollarNumberNonNegative(s, i + |words[0]|);
      AfterKeywordNonNegative(s, i, words[1..]);
    }
  }

  lemma SearchUnderNonNegative(s: string)
    ensures Search(s, UnderAt).Some? ==> Search(s, UnderAt).value >= 0.0
  {
    if Search(s, UnderAt).Some? {
      AfterKeywordNonNegative(s, Leftmost(s, UnderAt).value, UpperWords);
    }
  }

  lemma SearchOverNonNegative(s: string)
    ensures Search(s, OverAt).Some? ==> Search(s, OverAt).value >= 0.0
  {
    if Search(s, OverAt).Some? {
      AfterKeywordNonNegative(s, Leftmost(s, OverAt).value, LowerWords);
    }
  }

  /** The pattern ignores case: it sees only the lowercased text. */
  lemma {:induction false} PriceRangeIgnoresCase(message: string)
    ensures ExtractPriceRange(Lower(message)) == ExtractPriceRange(message)
  {
    LowerIsLower(message);
  }

  /** Without its keywords' first letters a message has no such bound. */
  lemma BetweenNeedsB(s: string)
    requires 'b' !in s
    ensures Search(s, BetweenAt).None?
  {
    forall j: nat | j <= |s| ensures BetweenAt(s, j).None? {
      AbsentChar(s, "between", 0, j);
    }
  }

  lemma UnderNeedsLetters(s: string)
    requires 'u' !in s && 'b' !in s && 'l' !in s
    ensures Search(s, UnderAt).None?
  {
    forall j: nat | j <= |s| ensures UnderAt(s, j).None? {
      AbsentChar(s, "under", 0, j);
      AbsentChar(s, "below", 0, j);
      AbsentChar(s, "less than", 0, j);
    }
  }

  lemma OverNeedsLetters(s: string)
    requires 'o' !in s && 'a' !in s && 'm' !in s
    ensures Search(s, OverAt).None?
  {
    forall j: nat | j <= |s| ensures OverAt(s, j).None? {
      AbsentChar(s, "over", 0, j);
      AbsentChar(s, "above", 0, j);
      AbsentChar(s, "more than", 0, j);
    }
  }

  /** A message none of whose bound keywords can start has no price range. */
  lemma NoBoundLetters(message: string)
    requires forall c :: c in "bulaom" ==> c !in Lower(message)
    ensures ExtractPriceRange(message) == PriceRange(None, None)
  {
    var s := Lower(message);
    assert 'b' in "bulaom" && 'u' in "bulaom" && 'l' in "bulaom";
    assert 'a' in "bulaom" && 'o' in "bulaom" && 'm' in "bulaom";
    BetweenNeedsB(s);
    UnderNeedsLetters(s);
    OverNeedsLetters(s);
  }

  lemma NoRangeExample()
    ensures ExtractPriceRange("hi there") == PriceRange(None, None)
  {
    assert Lower("hi there") == "hi there";
    NoBoundLetters("hi there");
  }

  // ---------------------------------------------------------------------
  // Rating threshold

  const RatingComparisons: seq<string> := ["above", "over", "greater than"]

  /** `\s*(\d+(?:\.\d+)?)` at `j`: the number's value. */
  function SpacesNumber(s: string, j: nat): Option<real> {
    if j > |s| then None
    else match NumberAt(s, j + Spaces(s, j))
      case Some((x, _)) => Some(x)
      case None => None
  }

  /** `\s*\d` at `j`: the position of the digit. */
  function SpacesDigit(s: string, j: nat): Option<nat> {
    if j > |s| then None
    else
      var k := j + Spaces(s, j);
      if k < |s| && IsDigit(s[k]) then Some(k) else None
  }

  /** `ratings?\s*(?:above|over|greater than)` at `i` followed by `rest`;
      the optional "s" is taken when present and dropped when that fails. */
  function RatingLeadThen<T>(s: string, i: nat, rest: (string, nat) -> Option<T>): (r: Option<T>)
    ensures r.Some? ==> OccursAt(s, "rating", i)
    ensures r.Some? <==>
      || (OccursAt(s, "ratings", i) && AfterKeyword(s, i + 7 + Spaces(s, i + 7), RatingComparisons, rest).Some?)
      || (OccursAt(s, "rating", i) && AfterKeyword(s, i + 6 + Spaces(s, i + 6), RatingComparisons, rest).Some?)
    ensures OccursAt(s, "ratings", i) && AfterKeyword(s, i + 7 + Spaces(s, i + 7), RatingComparisons, rest).Some? ==>
      r == AfterKeyword(s, i + 7 + Spaces(s, i + 7), RatingComparisons, rest)
    ensures OccursAt(s, "rating", i)
      && !(OccursAt(s, "ratings", i) && AfterKeyword(s, i + 7 + Spaces(s, i + 7), RatingComparisons, rest).Some?)
      ==> r == AfterKeyword(s, i + 6 + Spaces(s, i + 6), RatingComparisons, rest)
  {
    PluralRating(s, i);
    var plural := OccursAt(s, "ratings", i);
    var withS := if plural then AfterKeyword(s, i + 7 + Spaces(s, i + 7), RatingComparisons, rest) else None;
    var withoutS := if OccursAt(s, "rating", i) then AfterKeyword(s, i + 6 + Spaces(s, i + 6), RatingComparisons, rest) else None;
    if withS.Some? then withS else withoutS
  }

  /** "ratings" is "rating" followed by an "s". */
  lemma PluralRating(s: string, i: nat)
    ensures OccursAt(s, "ratings", i) <==> OccursAt(s, "rating", i) && i + 6 < |s| && s[i + 6] == 's'
  {
    if i + 7 <= |s| {
      assert s[i..i + 7] == s[i..i + 6] + [s[i + 6]];
      assert "ratings" == "rating" + ['s'];
      assert s[i..i + 7][..6] == s[i..i + 6];
    }
  }

  /** Every rating pattern starts with "rating", whose sixth letter is a
      "g". */
  lemma NoRatingWithoutG(s: string, j: nat)
    requires j + 5 < |s| ==> s[j + 5] != 'g'
    ensures RatingThresholdAt(s, j).None?
  {
    if j + 6 <= |s| {
      assert s[j..j + 6][5] == s[j + 5];
    }
  }

  /** "ratings", white space, and a comparison that reads `x` at `i`: the
      threshold is `x`. */
  lemma RatingsReads(s: string, i: nat, w: nat, x: real)
    requires OccursAt(s, "ratings", i) && SpaceRun(s, i + 7, w)
    requires AfterKeyword(s, i + 7 + w, RatingComparisons, SpacesNumber) == Some(x)
    ensures RatingThresholdAt(s, i) == Some(x)
  {
    SpacesIs(s, i + 7, w);
    PluralRatingLead(s, i, w, SpacesNumber, x);
  }

  /** "above", white space and a number at `j`: the comparison yields the
      number. */
  lemma AboveNumberReads(s: string, j: nat, w: nat, x: real, e: nat)
    requires OccursAt(s, "above", j) && SpaceRun(s, j + 5, w)
    requires NumberAt(s, j + 5 + w) == Some((x, e))
    ensures AfterKeyword(s, j, RatingComparisons, SpacesNumber) == Some(x)
  {
    SpacesIs(s, j + 5, w);
    assert SpacesNumber(s, j + 5) == Some(x);
    KeywordReads(s, j, RatingComparisons, 0, SpacesNumber);
  }

  /** When "ratings" and what follows it match, the plural is taken. */
  lemma PluralRatingLead<T>(s: string, i: nat, w: nat, rest: (string, nat) -> Option<T>, v: T)
    requires OccursAt(s, "ratings", i) && i + 7 <= |s| && Spaces(s, i + 7) == w
    requires AfterKeyword(s, i + 7 + w, RatingComparisons, rest) == Some(v)
    ensures RatingLeadThen(s, i, rest) == Some(v)
  {
  }

  /** `ratings?\s*(?:above|over|greater than)\s*(\d+(?:\.\d+)?)` at `i`. */
  function RatingThresholdAt(s: string, i: nat): Option<real> {
    RatingLeadThen(s, i, SpacesNumber)
  }

  /** `ratings?\s*(?:above|over|greater than)\s*\d` at `i`. */
  function RatingGuardAt(s: string, i: nat): Option<nat> {
    RatingLeadThen(s, i, SpacesDigit)
  }

  /** The minimum rating a message asks for, matched without regard to case. */
  function RatingThreshold(message: string): (r: Option<real>)
    ensures r.Some? ==> r.value >= 0.0
    ensures r.Some? ==> Contains(Lower(message), "rating")
  {
    var s := Lower(message);
    var r := Search(s, RatingThresholdAt);
    if r.Some? then
      var j := Leftmost(s, RatingThresholdAt).value;
      RatingThresholdNonNegative(s, j);
      assert OccursAt(s, "rating", j);
      r
    else r
  }

  /** Whether the message asks for products rated above some number. */
  function RatingGuard(message: string): bool {
    Search(Lower(message), RatingGuardAt).Some?
  }

  lemma SpacesNumberSucceedsWithDigit(s: string, j: nat)
    ensures SpacesNumber(s, j).Some? <==> SpacesDigit(s, j).Some?
  {
  }

  /** Whether `(?:w1|w2|…)` followed by `rest` matches depends only on
      where `rest` matches. */
  lemma AfterKeywordSameSuccess<T, U>(s: string, i: nat, words: seq<string>,
                                      rest1: (string, nat) -> Option<T>, rest2: (string, nat) -> Option<U>)
    requires forall j: nat :: rest1(s, j).Some? <==> rest2(s, j).Some?
    ensures AfterKeyword(s, i, words, rest1).Some? <==> AfterKeyword(s, i, words, rest2).Some?
  {
  }

  /** Whether the rating lead followed by `rest` matches depends only on
      where `rest` matches. */
  lemma RatingLeadSameSuccess<T, U>(s: string, i: nat,
                                    rest1: (string, nat) -> Option<T>, rest2: (string, nat) -> Option<U>)
    requires forall j: nat :: rest1(s, j).Some? <==> rest2(s, j).Some?
    ensures RatingLeadThen(s, i, rest1).Some? <==> RatingLeadThen(s, i, rest2).Some?
  {
    if OccursAt(s, "rating", i) {
      AfterKeywordSameSuccess(s, i + 6 + Spaces(s, i + 6), RatingComparisons, rest1, rest2);
      if i + 6 < |s| && s[i + 6] == 's' {
        AfterKeywordSameSuccess(s, i + 7 + Spaces(s, i + 7), RatingComparisons, rest1, rest2);
      }
    }
  }

  lemma {:induction false} RatingThresholdNonNegative(s: string, i: nat)
    ensures RatingThresholdAt(s, i).Some? ==> RatingThresholdAt(s, i).value >= 0.0
  {
    forall j: nat, words: seq<string> ensures AfterKeyword(s, j, words, SpacesNumber).Some? ==>
      AfterKeyword(s, j, words, SpacesNumber).value >= 0.0 {
      AfterKeywordNumberNonNegative(s, j, words);
    }
  }

  lemma {:induction false} AfterKeywordNumberNonNegative(s: string, i: nat, words: seq<string>)
    ensures AfterKeyword(s, i, words, SpacesNumber).Some? ==>
      AfterKeyword(s, i, words, SpacesNumber).value >= 0.0
    decreases |words|
  {
    if |words| > 0 {
      AfterKeywordNumberNonNegative(s, i, words[1..]);
    }
  }

  /** The guard that keeps rating questions away from single-product
      answers fires exactly when a rating threshold can be read. */
  lemma {:induction false} RatingGuardIffThreshold(message: string)
    ensures RatingGuard(message) <==> RatingThreshold(message).Some?
  {
    var s := Lower(message);
    forall i: nat ensures RatingGuardAt(s, i).Some? <==> RatingThresholdAt(s, i).Some? {
      RatingAtIff(s, i);
    }
  }

  lemma RatingAtIff(s: string, i: nat)
    ensures RatingGuardAt(s, i).Some? <==> RatingThresholdAt(s, i).Some?
  {
    forall j: nat ensures SpacesNumber(s, j).Some? <==> SpacesDigit(s, j).Some? {
      SpacesNumberSucceedsWithDigit(s, j);
    }
    RatingLeadSameSuccess(s, i, SpacesNumber, SpacesDigit);
  }

  // ---------------------------------------------------------------------
  // Category question

  /** Python's `\b` at `i`: exactly one side is a word character. */
  predicate Boundary(s: string, i: nat)
    requires i <= |s|
  {
    (i > 0 && IsWordChar(s[i - 1])) != (i < |s| && IsWordChar(s[i]))
  }

  /** "categories" followed by a word boundary occurs at `k`. */
  predicate CategoriesWordAt(s: string, k: nat) {
    OccursAt(s, "categories", k) && Boundary(s, k + 10)
  }

  /** `.*categories\b` at `j`: characters other than a newline, then
      "categories" and a word boundary. */
  function WhatTail(s: string, j: nat): (r: bool)
    ensures r <==> exists k :: j <= k && CategoriesWordAt(s, k) && '\n' !in s[j..k]
    decreases |s| - j
  {
    if j > |s| then false
    else if CategoriesWordAt(s, j) then
      assert s[j..j] == [];
      true
    else if j < |s| && s[j] != '\n' then
      var r := WhatTail(s, j + 1);
      assert forall k :: j + 1 <= k <= |s| ==> s[j..k] == [s[j]] + s[j + 1..k];
      r
    else
      assert forall k :: j < k <= |s| ==> s[j..k][0] == s[j];
      false
  }

  /** `\b(categories|types of products|what.*categories)\b` at `i`. */
  function CategoryQuestionAt(s: string, i: nat): Option<()> {
    if i > |s| || !Boundary(s, i) then None
    else if CategoriesWordAt(s, i) then Some(())
    else if OccursAt(s, "types of products", i) && Boundary(s, i + 17) then Some(())
    else if OccursAt(s, "what", i) && WhatTail(s, i + 4) then Some(())
    else None
  }

  /** Whether an already lowercased message asks which categories exist. */
  function AsksForCategories(lowerText: string): (r: bool)
    ensures r <==> exists i :: 0 <= i <= |lowerText| && CategoryQuestionAt(lowerText, i).Some?
  {
    Search(lowerText, CategoryQuestionAt).Some?
  }

  /** The word "categories" on its own is a category question. */
  lemma CategoriesWordAsks(s: string, i: nat)
    requires i <= |s| && CategoriesWordAt(s, i)
    requires i == 0 || !IsWordChar(s[i - 1])
    ensures AsksForCategories(s)
  {
    assert CategoryQuestionAt(s, i).Some?;
  }
}
