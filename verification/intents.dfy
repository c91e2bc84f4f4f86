/** The fixed keyword vocabularies and the substring tests over them. */
module Intents {
  import opened Text

  const Greetings: set<string> := {"hi", "hello", "hey", "good morning", "good afternoon", "good evening", "greetings"}
  const Farewells: set<string> := {"bye", "goodbye", "see you", "take care"}
  const PriceWords: set<string> := {"price", "cost", "how much", "what is the price", "priced"}
  const StockWords: set<string> := {"stock", "available", "availability", "in stock"}
  const RatingWords: set<string> := {"rating", "ratings", "review", "reviews", "stars"}
  const CategoryWords: set<string> := {"category", "categories", "show me", "any", "do you have"}

  /** `_contains_keyword`: some keyword occurs anywhere in the lowercased
      message, inside a longer word or not. */
  function ContainsKeyword(message: string, keywords: set<string>): (r: bool)
    ensures r <==> exists k, i: nat :: k in keywords && OccursAt(Lower(message), k, i)
  {
    exists k | k in keywords :: Contains(Lower(message), k)
  }

  /** `_is_greeting`. */
  function IsGreeting(message: string): bool {
    ContainsKeyword(message, Greetings)
  }

  /** `_is_farewell`. */
  function IsFarewell(message: string): bool {
    ContainsKeyword(message, Farewells)
  }

  function WantsPrice(message: string): bool { ContainsKeyword(message, PriceWords) }
  function WantsStock(message: string): bool { ContainsKeyword(message, StockWords) }
  function WantsRating(message: string): bool { ContainsKeyword(message, RatingWords) }

  /** Each intent test is a substring test of the lowercased message
      against its own vocabulary. */
  lemma IntentsAreSubstrings(message: string)
    ensures IsGreeting(message) <==> exists g, i: nat :: g in Greetings && OccursAt(Lower(message), g, i)
    ensures IsFarewell(message) <==> exists g, i: nat :: g in Farewells && OccursAt(Lower(message), g, i)
    ensures WantsPrice(message) <==> exists k, i: nat :: k in PriceWords && OccursAt(Lower(message), k, i)
    ensures WantsStock(message) <==> exists k, i: nat :: k in StockWords && OccursAt(Lower(message), k, i)
    ensures WantsRating(message) <==> exists k, i: nat :: k in RatingWords && OccursAt(Lower(message), k, i)
  {
  }

  /** A keyword that contains another keyword of the set adds nothing: the
      smaller set finds the same messages. */
  lemma Subsumed(message: string, keywords: set<string>, core: set<string>)
    requires core <= keywords
    requires forall k | k in keywords :: exists c, j: nat :: c in core && OccursAt(k, c, j)
    ensures ContainsKeyword(message, keywords) == ContainsKeyword(message, core)
  {
    var m := Lower(message);
    if ContainsKeyword(message, keywords) {
      var k, i: nat :| k in keywords && OccursAt(m, k, i);
      var c, j: nat :| c in core && OccursAt(k, c, j);
      OccursWithin(m, k, i, c, j);
    }
  }

  /** Matching ignores case. */
  lemma {:induction false} KeywordIgnoresCase(message: string, keywords: set<string>)
    ensures ContainsKeyword(Lower(message), keywords) == ContainsKeyword(message, keywords)
  {
    LowerIsLower(message);
  }

  /** A keyword that occurs in the message is found wherever it sits. */
  lemma KeywordFound(message: string, keywords: set<string>, k: string, i: nat)
    requires k in keywords && OccursAt(Lower(message), k, i)
    ensures ContainsKeyword(message, keywords)
  {
  }

  /** No keyword is found when none of their first letters occurs. */
  lemma NoKeywordInitial(message: string, lowerText: string, keywords: set<string>)
    requires Lower(message) == lowerText
    requires forall k | k in keywords :: |k| > 0 && k[0] !in lowerText
    ensures !ContainsKeyword(message, keywords)
  {
    forall k, i: nat | k in keywords ensures !OccursAt(lowerText, k, i) {
      AbsentChar(lowerText, k, 0, i);
    }
  }

  /** Because matching is by substring, "hi" inside "which" makes a
      question read as a greeting. */
  lemma WhichIsAGreeting()
    ensures IsGreeting("Which kiwi is cheapest?")
  {
    var m := "Which kiwi is cheapest?";
    assert Lower(m)[1] == 'h' && Lower(m)[2] == 'i';
    assert Lower(m)[1..3] == "hi";
    KeywordFound(m, Greetings, "hi", 1);
  }

  lemma GreetingExample()
    ensures IsGreeting("hi")
  {
    assert Lower("hi") == "hi";
    KeywordFound("hi", Greetings, "hi", 0);
  }

  lemma FarewellExample()
    ensures !IsGreeting("bye") && IsFarewell("bye")
  {
    var m := "bye";
    assert Lower(m) == m;
    KeywordFound(m, Farewells, "bye", 0);
    forall k, i: nat | k in Greetings ensures !OccursAt(m, k, i) {
      AbsentChar(m, k, 0, i);
    }
  }
}
