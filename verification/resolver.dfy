/** Product identification: the three tiers `generate_chat_response`
    tries, in order, to find the product a message is about. */
module Resolver {
  import opened Wrappers
  import opened Seqs
  import opened Text
  import opened Inflection
  import opened Catalog

  /** The message's tokens of two or more characters, each normalised,
      joined by single blanks. */
  function NormalizedText(lowerTxt: string): string {
    Join(Map(NormalizeWord, Tokens(lowerTxt, 2)), " ")
  }

  /** Tier 1: the whole lowercased message is the lowercased title. */
  function ExactTitle(lowerTxt: string): Product -> bool {
    (p: Product) => Lower(p.title) == lowerTxt
  }

  /** Tier 2: the normalised title occurs in the normalised message. */
  function TitleInText(normTxt: string): Product -> bool {
    (p: Product) => Contains(normTxt, NormalizeWord(Lower(p.title)))
  }

  /** Tier 3 query: the normalised tokens of three or more characters of
      the normalised message. */
  function QueryTokens(normTxt: string): seq<string> {
    Map(NormalizeWord, Tokens(normTxt, 3))
  }

  /** The normalised blank-separated words of a title. */
  function TitleWords(title: string): seq<string> {
    Map(NormalizeWord, Split(Lower(title)))
  }

  function Elements(s: seq<string>): set<string> {
    set i | 0 <= i < |s| :: s[i]
  }

  /** The number of distinct words the query and the title share. */
  function Score(tokens: seq<string>, p: Product): nat {
    |Elements(tokens) * Elements(TitleWords(p.title))|
  }

  /** The normalised form of every message token of two or more
      characters occurs in the normalised message. */
  lemma NormalizedTextHolds(lowerTxt: string, w: string)
    requires |w| >= 2 && IsMaximalRun(lowerTxt, IsTokenChar, w)
    ensures Contains(NormalizedText(lowerTxt), NormalizeWord(w))
  {
    var toks := Tokens(lowerTxt, 2);
    TokensExact(lowerTxt, 2, w);
    var k :| 0 <= k < |toks| && toks[k] == w;
    var words := Map(NormalizeWord, toks);
    assert words[k] == NormalizeWord(w);
    JoinHolds(words, " ", k);
  }

  /** The query words are exactly the normalised maximal token runs of
      three or more characters. */
  lemma QueryTokensAre(normTxt: string, q: string)
    ensures q in QueryTokens(normTxt) <==>
      exists w :: |w| >= 3 && IsMaximalRun(normTxt, IsTokenChar, w) && q == NormalizeWord(w)
  {
    var toks := Tokens(normTxt, 3);
    if q in QueryTokens(normTxt) {
      var k :| 0 <= k < |toks| && QueryTokens(normTxt)[k] == q;
      TokensExact(normTxt, 3, toks[k]);
    }
    if exists w :: |w| >= 3 && IsMaximalRun(normTxt, IsTokenChar, w) && q == NormalizeWord(w) {
      var w :| |w| >= 3 && IsMaximalRun(normTxt, IsTokenChar, w) && q == NormalizeWord(w);
      TokensExact(normTxt, 3, w);
      var k :| 0 <= k < |toks| && toks[k] == w;
      assert QueryTokens(normTxt)[k] == q;
    }
  }

  /** The title words are exactly the normalised blank-separated words of
      the lowercased title. */
  lemma TitleWordsAre(title: string, q: string)
    ensures q in TitleWords(title) <==>
      exists w :: w != [] && IsMaximalRun(Lower(title), NonSpace, w) && q == NormalizeWord(w)
  {
    var words := Split(Lower(title));
    if q in TitleWords(title) {
      var k :| 0 <= k < |words| && TitleWords(title)[k] == q;
      SplitWords(Lower(title), words[k]);
    }
    if exists w :: w != [] && IsMaximalRun(Lower(title), NonSpace, w) && q == NormalizeWord(w) {
      var w :| w != [] && IsMaximalRun(Lower(title), NonSpace, w) && q == NormalizeWord(w);
      SplitWords(Lower(title), w);
      var k :| 0 <= k < |words| && words[k] == w;
      assert TitleWords(title)[k] == q;
    }
  }

  /** A product scores iff some query word is one of its title words. */
  lemma ScorePositive(tokens: seq<string>, p: Product)
    ensures Score(tokens, p) > 0 <==>
      exists i, j :: 0 <= i < |tokens| && 0 <= j < |TitleWords(p.title)| && tokens[i] == TitleWords(p.title)[j]
  {
    var words := TitleWords(p.title);
    var shared := Elements(tokens) * Elements(words);
    if |shared| > 0 {
      var x := Pick(shared);
      SharedWord(tokens, words, x);
    }
    if exists i, j :: 0 <= i < |tokens| && 0 <= j < |words| && tokens[i] == words[j] {
      var i, j :| 0 <= i < |tokens| && 0 <= j < |words| && tokens[i] == words[j];
      SharedWord(tokens, words, tokens[i]);
      assert tokens[i] in shared;
    }
  }

  ghost function Pick(s: set<string>): (x: string)
    requires |s| > 0
    ensures x in s
  {
    var x :| x in s; x
  }

  lemma SharedWord(tokens: seq<string>, words: seq<string>, x: string)
    ensures x in Elements(tokens) * Elements(words) <==>
      exists i, j :: 0 <= i < |tokens| && 0 <= j < |words| && tokens[i] == x && words[j] == x
  {
  }

  function Scores(tokens: seq<string>, products: seq<Product>): (r: seq<nat>)
    ensures |r| == |products|
    ensures forall i :: 0 <= i < |products| ==> r[i] == Score(tokens, products[i])
  {
    Map((p: Product) => Score(tokens, p), products)
  }

  /** Index `j` is what a stable descending sort of the positive scores
      puts first: a positive, maximal score that no earlier index ties. */
  predicate IsBest(scores: seq<nat>, j: nat) {
    && j < |scores|
    && scores[j] > 0
    && (forall i :: 0 <= i < |scores| ==> scores[i] <= scores[j])
    && (forall i :: 0 <= i < j ==> scores[i] < scores[j])
  }

  /** A left-to-right scan that moves to a later index only on a strictly
      greater positive score. */
  function {:induction false} BestIndex(scores: seq<nat>): (r: Option<nat>)
    ensures r.None? <==> forall i :: 0 <= i < |scores| ==> scores[i] == 0
    ensures r.Some? ==> IsBest(scores, r.value)
    decreases |scores|
  {
    if |scores| == 0 then None
    else
      var n := |scores| - 1;
      var prefix := scores[..n];
      assert forall i :: 0 <= i < n ==> prefix[i] == scores[i];
      var b := BestIndex(prefix);
      if scores[n] > 0 && (b.None? || scores[n] > scores[b.value]) then Some(n)
      else b
  }

  /** At most one index is best, so the scan finds exactly the product a
      stable descending sort would put first. */
  lemma BestIsUnique(scores: seq<nat>, j: nat)
    ensures IsBest(scores, j) <==> BestIndex(scores) == Some(j)
  {
    if IsBest(scores, j) {
      assert scores[j] != 0;
    }
  }

  /** The resolver: the first exact-title product; failing that the first
      product whose normalised title occurs in the normalised message;
      failing that the best-scoring product; otherwise nothing. */
  function Resolve(lowerTxt: string, products: seq<Product>): (r: Option<Product>)
    ensures r.Some? ==> r.value in products
    ensures r.None? <==> forall i :: 0 <= i < |products| ==>
      && Lower(products[i].title) != lowerTxt
      && !Contains(NormalizedText(lowerTxt), NormalizeWord(Lower(products[i].title)))
      && Score(QueryTokens(NormalizedText(lowerTxt)), products[i]) == 0
  {
    var exact := Filter(products, ExactTitle(lowerTxt));
    if exact != [] then Some(exact[0])
    else
      var normTxt := NormalizedText(lowerTxt);
      var bySubstring := Filter(products, TitleInText(normTxt));
      if bySubstring != [] then Some(bySubstring[0])
      else
        var scores := Scores(QueryTokens(normTxt), products);
        var best := BestIndex(scores);
        if best.Some? then Some(products[best.value]) else None
  }

  /** Tier 1 wins: the first product whose title is the message. */
  lemma ResolveExact(lowerTxt: string, products: seq<Product>, j: nat)
    requires j < |products| && Lower(products[j].title) == lowerTxt
    requires forall i :: 0 <= i < j ==> Lower(products[i].title) != lowerTxt
    ensures Resolve(lowerTxt, products) == Some(products[j])
  {
    var keep := ExactTitle(lowerTxt);
    assert keep(products[j]);
    assert products[j] in Filter(products, keep);
    FilterHeadIsFirst(products, keep);
    assert FirstIndex(products, keep) == Some(j);
    var exact := Filter(products, keep);
    assert exact != [] && exact[0] == products[j];
  }

  /** Tier 2 runs only when no title equals the message, and then picks
      the first product whose normalised title occurs in the normalised
      message. */
  lemma ResolveBySubstring(lowerTxt: string, products: seq<Product>, j: nat)
    requires forall i :: 0 <= i < |products| ==> Lower(products[i].title) != lowerTxt
    requires j < |products| && Contains(NormalizedText(lowerTxt), NormalizeWord(Lower(products[j].title)))
    requires forall i :: 0 <= i < j ==> !Contains(NormalizedText(lowerTxt), NormalizeWord(Lower(products[i].title)))
    ensures Resolve(lowerTxt, products) == Some(products[j])
  {
    var keep := TitleInText(NormalizedText(lowerTxt));
    FilterNone(products, ExactTitle(lowerTxt));
    assert keep(products[j]);
    assert products[j] in Filter(products, keep);
    FilterHeadIsFirst(products, keep);
    assert FirstIndex(products, keep) == Some(j);
    var bySubstring := Filter(products, keep);
    assert bySubstring != [] && bySubstring[0] == products[j];
  }

  /** Tier 3 runs only when the first two found nothing, and then picks
      the best-scoring product. */
  lemma ResolveByOverlap(lowerTxt: string, products: seq<Product>, j: nat)
    requires forall i :: 0 <= i < |products| ==> Lower(products[i].title) != lowerTxt
    requires forall i :: 0 <= i < |products| ==> !Contains(NormalizedText(lowerTxt), NormalizeWord(Lower(products[i].title)))
    requires IsBest(Scores(QueryTokens(NormalizedText(lowerTxt)), products), j)
    ensures Resolve(lowerTxt, products) == Some(products[j])
  {
    var normTxt := NormalizedText(lowerTxt);
    FilterNone(products, ExactTitle(lowerTxt));
    FilterNone(products, TitleInText(normTxt));
    var scores := Scores(QueryTokens(normTxt), products);
    BestIsUnique(scores, j);
    assert BestIndex(scores) == Some(j);
  }
}
