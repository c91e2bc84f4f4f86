# Shop chatbot intent resolution, in Dafny

This project models the deterministic core of a shop assistant's chat
endpoint. The endpoint takes one customer message and decides, by a fixed
cascade, what to answer:

- a blank message, a greeting or a farewell is answered at once;
- otherwise the product catalog is consulted and the message is resolved to
  a product in three tiers: exact title, normalised title inside the
  normalised message, and best word overlap;
- for a resolved product the reply is a price, stock or rating template, or
  the language model's reply. When the model was unreachable, a local
  summary is given instead;
- without a product the reply is the category list, a listing of one
  mentioned category, a listing filtered by the price range and the rating
  threshold read from the message, or the model's generic reply.

The catalog helpers are modelled as well: discounted price, search by name,
search by category, and the three-bound filter.

The catalog (`seq<Product>`) and the language model (a function from a
`Prompt` to its reply text) are parameters. The cascade is the pure function
`Chatbot.Respond`. It returns an `Outcome` that carries the facts, items and
heading a reply shows, not the formatted text.

Modules, one per file:

- `Wrappers`: `Option` and Python's `x or default`.
- `Seqs`: order-preserving filter, map, slice, join.
- `Text`: ASCII case, Python white space, `strip`, substring search, splitting and tokenising.
- `StringOrder`: Python's string order and `sorted(set(...))`.
- `Inflection`: the word normaliser.
- `Patterns`: the fixed regular expressions, hand-coded as matchers.
- `Readings`: numerals and the price and rating phrases read back through the matchers.
- `Catalog`: the product record and the product helpers.
- `Intents`: the keyword sets.
- `Resolver`: the three resolution tiers.
- `Chatbot`: the cascade.

Where the documentation and the code disagree, the model follows the code.
The documentation calls the word normaliser idempotent. It is not:
"glasses" becomes "glass", which becomes "glas" (`Inflection.SingularNotIdempotent`).

## Model

| member | source | states |
|---|---|---|
| Wrappers.Or | app/services/chatbot_service.py:118-123 | `x or d` yields the value when it is present and not falsy; a missing value and the falsy value both yield the default |
| Seqs.Filter | app/services/product_service.py:63 | a list comprehension keeps exactly the elements that pass, and nothing else (multiplicity is stated by `Seqs.FilterCounts`) |
| Seqs.FilterCounts | app/services/product_service.py:63 | a comprehension keeps each passing element as many times as the list holds it, and drops every other element |
| Seqs.FilterKeepAll | app/services/product_service.py:72 | a filter that everything passes keeps the list |
| Seqs.FilterIsSubsequence | app/services/product_service.py:63 | a comprehension keeps the original order |
| Seqs.FilterFuse | app/services/product_service.py:71-79 | two successive filters equal one filter by the conjunction |
| Seqs.FilterCongruent | app/services/product_service.py:71-79 | filters by predicates that agree on the elements give the same result |
| Seqs.FirstIndex | app/services/chatbot_service.py:169-170 | the index of the first element that passes, and none when none passes |
| Seqs.FilterHeadIsFirst | app/services/chatbot_service.py:109 | the head of a non-empty filter is the first passing element in original order |
| Seqs.FilterNone | app/services/chatbot_service.py:89 | a filter that no element passes is empty |
| Seqs.Map | app/services/chatbot_service.py:83 | a mapped list has the same length and the function applied pointwise |
| Seqs.Take | app/services/chatbot_service.py:175 | `s[:n]` is the prefix of length min(n, len(s)) |
| Text.LowerChar | app/services/chatbot_service.py:82 | an upper-case letter becomes the letter 32 code points above it, every other character is unchanged, and token and white-space classes are kept |
| Text.Lower | app/services/chatbot_service.py:22 | `lower()` lowers every character in place |
| Text.LowerIsLower | app/services/chatbot_service.py:22 | lowering twice is lowering once |
| Text.LowerKeeps | app/services/chatbot_service.py:22 | a text with no upper-case letter is its own lowercase |
| Text.Capitalize | app/services/chatbot_service.py:164 | `capitalize()` keeps the length |
| Text.TrimLeft | app/services/product_service.py:60 | left strip removes exactly the leading white space |
| Text.TrimRight | app/services/product_service.py:60 | right strip removes exactly the trailing white space |
| Text.Strip | app/services/chatbot_service.py:66-67 | the result is a slice of the text with only white space before and after it; it is empty iff the text is all white space, and otherwise neither starts nor ends with white space |
| Text.StripUnpadded | app/services/chatbot_service.py:66 | stripping leaves a text without surrounding white space unchanged |
| Text.AbsentChar | app/services/chatbot_service.py:29-31 | a string cannot occur where one of its characters is missing |
| Text.Contains | app/services/product_service.py:63 | `sub in s` holds iff `sub` occurs at some position of `s` |
| Text.OccursWithin | app/services/chatbot_service.py:29-31 | a string occurring inside an occurrence of a longer string occurs in the text |
| Text.JoinHolds | app/services/chatbot_service.py:83 | each word joined by `" ".join` occurs in the joined text |
| Text.RunLength | app/services/chatbot_service.py:83 | the length of the leading run of class members, stopped by a non-member |
| Text.RunLengthIs | app/services/chatbot_service.py:83 | a leading run of members stopped by a non-member or the end is the run length |
| Text.Runs | app/services/chatbot_service.py:83 | the runs are non-empty and contain members only (their maximality is stated by `Text.RunsExact`) |
| Text.RunsExact | app/services/chatbot_service.py:83 | a string is one of the runs iff it is non-empty and a maximal run of the text: preceded by the start or a non-member, followed by the end or a non-member |
| Text.RunsCoverMembers | app/services/chatbot_service.py:83 | the runs, concatenated, are exactly the members of the text in order |
| Text.FilterAppend | app/services/chatbot_service.py:83 | filtering distributes over concatenation |
| Text.Split | app/services/chatbot_service.py:97 | the words are non-empty and hold no white space (which words they are is stated by `Text.SplitWords`) |
| Text.SplitWords | app/services/chatbot_service.py:97 | `split()` yields exactly the maximal non-blank runs of the text |
| Text.Tokens | app/services/chatbot_service.py:83 | the matches are runs of token characters of length at least k (which runs they are is stated by `Text.TokensExact`) |
| Text.TokensExact | app/services/chatbot_service.py:83 | `findall` of `[A-Za-z0-9\-']{k,}` yields exactly the maximal runs of token characters of length at least k |
| StringOrder.LessIrreflexive | app/services/chatbot_service.py:164 | no string sorts before itself |
| StringOrder.LessIsLexicographic | app/services/chatbot_service.py:164 | a string sorts first iff it is a proper prefix of the other, or the first position where they differ holds the lower code point |
| StringOrder.LessTransitive | app/services/chatbot_service.py:164 | string order is transitive |
| StringOrder.LessTotal | app/services/chatbot_service.py:164 | of two different strings one sorts first |
| StringOrder.Insert | app/services/chatbot_service.py:164 | inserting into a strictly sorted list keeps it strictly sorted and adds exactly the new element |
| StringOrder.SortedDistinct | app/services/chatbot_service.py:164 | `sorted(set(xs))` is strictly sorted and has exactly the elements of `xs` |
| StringOrder.FirstAcceptedIsLeast | app/services/chatbot_service.py:168-170 | scanning a strictly sorted list, the first accepted element is the least accepted one |
| Inflection.Singular | app/services/chatbot_service.py:36-46 | the result is never longer, and a word not ending in "s" is returned unchanged |
| Inflection.NormalizeWord | app/services/chatbot_service.py:33-46 | the result is never longer than the lowercased, stripped word, and equals it unless that ends in "s" |
| Inflection.SingularIsFirstRule | app/services/chatbot_service.py:36-46 | the rules act as a priority table: the first applicable rule wins |
| Inflection.EndsWithLast | app/services/chatbot_service.py:36 | a word ending in a suffix ends in the suffix's last character |
| Inflection.SuffixChar | app/services/chatbot_service.py:36 | a word ending in a suffix has the suffix's characters at the end |
| Inflection.PlainPlural | app/services/chatbot_service.py:44-45 | a word longer than three ending in "s" but not "es" loses its "s" |
| Inflection.SesPlural | app/services/chatbot_service.py:42-43 | a word longer than four ending in "ses" loses "es" |
| Inflection.SingularNotIdempotent | app/services/chatbot_service.py:42-45 | normalising twice differs from normalising once ("glasses", "glass", "glas") |
| Inflection.IesExample | app/services/chatbot_service.py:36-37 | "categories" becomes "category" |
| Inflection.OesExample | app/services/chatbot_service.py:38-39 | "potatoes" becomes "potato" |
| Inflection.XesExample | app/services/chatbot_service.py:40-41 | "boxes" becomes "box" |
| Inflection.SExample | app/services/chatbot_service.py:44-45 | "kiwis" becomes "kiwi" |
| Patterns.Leftmost | app/services/chatbot_service.py:51 | the leftmost position where a pattern matches, with no match before it |
| Patterns.Search | app/services/chatbot_service.py:51 | `re.search` fails iff the pattern matches nowhere, and otherwise yields the leftmost match |
| Patterns.SearchAtStart | app/services/chatbot_service.py:51 | a pattern that matches at the start is found there |
| Patterns.SearchFinds | app/services/chatbot_service.py:51 | a pattern that matches at a position and nowhere before is found there |
| Patterns.SpacesExact | app/services/chatbot_service.py:51 | `\s*` consumes w characters iff the w characters are white space and are followed by a non-space or the end |
| Patterns.SpacesIs | app/services/chatbot_service.py:51 | a non-empty white-space run stopped by a non-space is what `\s+` consumes |
| Patterns.DigitsExact | app/services/chatbot_service.py:51 | `\d+` consumes n characters iff the n characters are digits and are followed by a non-digit or the end |
| Patterns.NumberAt | app/services/chatbot_service.py:51 | `\d+(?:\.\d+)?` matches iff a digit is at the position; a match reads a non-negative value, moves forward and stops before a digit or at the end (the value read is stated by `Patterns.IntegerAt` and `Patterns.FractionAt`) |
| Patterns.IntegerAt | app/services/chatbot_service.py:51 | a run of digits not followed by "." and a digit reads as the value of those digits and ends after them |
| Patterns.FractionAt | app/services/chatbot_service.py:51 | digits, a point and more digits read as the whole part plus the fraction over its power of ten, and end after the fraction |
| Readings.Decimal | app/services/chatbot_service.py:51 | every natural number has a non-empty decimal numeral of digits whose value is that number |
| Readings.NumberAtEnd | app/services/chatbot_service.py:51 | a numeral at the end of a text is read whole, as its number |
| Patterns.AfterKeywordFirst | app/services/chatbot_service.py:54 | an alternation followed by more matches iff some alternative fires there, and yields the tail read after the first alternative that fires |
| Patterns.AfterKeywordSucceeds | app/services/chatbot_service.py:54 | an alternation followed by more matches iff some alternative occurs there and the rest matches after it |
| Patterns.KeywordReads | app/services/chatbot_service.py:54 | when an alternative occurs and no earlier one starts with its letter, the alternation yields what follows that alternative |
| Patterns.SpacedNumberReads | app/services/chatbot_service.py:51 | `\s+` then a number reads the number after the blanks |
| Patterns.DollarNumberReads | app/services/chatbot_service.py:54 | `\s+\$?` then a number reads the number after the blanks and an optional dollar sign |
| Patterns.AndReads | app/services/chatbot_service.py:51 | `\s+and\s+` then a number reads that number |
| Patterns.BetweenAt | app/services/chatbot_service.py:51 | both numbers of a "between" match are non-negative (which numbers they are is stated by `Patterns.BetweenReads`) |
| Patterns.BetweenReads | app/services/chatbot_service.py:51 | "between", blanks, a number A, then "and" and a number B reads the pair (A, B) |
| Patterns.UnderReads | app/services/chatbot_service.py:54 | under, below or less than, blanks, an optional dollar sign and a number X reads X |
| Patterns.OverReads | app/services/chatbot_service.py:57 | over, above or more than, blanks, an optional dollar sign and a number X reads X |
| Readings.UnderRoundTrip | app/services/chatbot_service.py:54-56 | "under $N" gives the upper bound N only, for every N |
| Readings.OverRoundTrip | app/services/chatbot_service.py:57-59 | "over N" gives the lower bound N only, for every N |
| Readings.BetweenText | app/services/chatbot_service.py:51 | the "between" pattern reads A and B at the start of "between A and B" |
| Readings.BetweenRoundTrip | app/services/chatbot_service.py:51-53 | "between A and B" gives the bounds (A, B), for every A and B |
| Patterns.ExtractPriceRange | app/services/chatbot_service.py:49-60 | the "between" match, when there is one, gives both bounds; otherwise the under/below/less-than match gives the upper bound only; otherwise the over/above/more-than match gives the lower bound only, or there are no bounds; every bound is non-negative |
| Patterns.SpacesDollarNumberNonNegative | app/services/chatbot_service.py:54 | a `\s+\$?` number is non-negative |
| Patterns.AfterKeywordNonNegative | app/services/chatbot_service.py:54-58 | a number after an alternation is non-negative |
| Patterns.SearchUnderNonNegative | app/services/chatbot_service.py:54-56 | an upper bound read from a message is non-negative |
| Patterns.SearchOverNonNegative | app/services/chatbot_service.py:57-59 | a lower bound read from a message is non-negative |
| Patterns.PriceRangeIgnoresCase | app/services/chatbot_service.py:51-57 | the price range of a message and of its lowercased form agree |
| Patterns.BetweenNeedsB | app/services/chatbot_service.py:51 | without a "b" there is no "between" range |
| Patterns.UnderNeedsLetters | app/services/chatbot_service.py:54 | without "u", "b" and "l" there is no upper bound |
| Patterns.OverNeedsLetters | app/services/chatbot_service.py:57 | without "o", "a" and "m" there is no lower bound |
| Patterns.NoBoundLetters | app/services/chatbot_service.py:49-60 | a message whose lowercased text has none of "b", "u", "l", "a", "o", "m" gives no bounds |
| Patterns.NoRangeExample | app/services/chatbot_service.py:60 | "hi there" gives no bounds |
| Patterns.RatingLeadThen | app/services/chatbot_service.py:186 | `ratings?\s*` followed by a comparison matches iff "ratings" or "rating" occurs with the comparison matching after the blanks; the plural reading wins and its value is returned, otherwise the singular one |
| Patterns.PluralRating | app/services/chatbot_service.py:186 | "ratings" occurs where "rating" occurs followed by an "s" |
| Patterns.PluralRatingLead | app/services/chatbot_service.py:186 | "ratings", its blanks and a comparison that matches give the comparison's value |
| Patterns.RatingsReads | app/services/chatbot_service.py:186 | "ratings", blanks and a comparison followed by a number read that number as the threshold |
| Patterns.AboveNumberReads | app/services/chatbot_service.py:186 | "above", blanks and a number give that number to the comparison alternation |
| Patterns.NoRatingWithoutG | app/services/chatbot_service.py:186 | the threshold pattern cannot match where no "g" ends "rating" |
| Patterns.RatingThreshold | app/services/chatbot_service.py:185-188 | a rating threshold is non-negative and needs "rating" in the message (the value read is stated by `Patterns.RatingsReads` and `Readings.RatingsAboveRoundTrip`) |
| Readings.RatingsAboveText | app/services/chatbot_service.py:186 | "ratings above N" after any prefix is read as the threshold N at its position |
| Readings.RatingsAboveRoundTrip | app/services/chatbot_service.py:185-188 | a message whose lowercase is a prefix without "g" followed by "ratings above N" has the threshold N |
| Readings.RatingExample | test.py:116 | "Show me products with ratings above 4" has the threshold 4 |
| Patterns.SpacesNumberSucceedsWithDigit | app/services/chatbot_service.py:108 | `\s*(\d+…)` matches exactly where `\s*\d` matches |
| Patterns.AfterKeywordSameSuccess | app/services/chatbot_service.py:108 | whether an alternation matches depends only on where its tail matches |
| Patterns.RatingLeadSameSuccess | app/services/chatbot_service.py:108 | whether the rating lead matches depends only on where its tail matches |
| Patterns.RatingThresholdNonNegative | app/services/chatbot_service.py:186-188 | the threshold read at a position is non-negative |
| Patterns.AfterKeywordNumberNonNegative | app/services/chatbot_service.py:186 | a number after an alternation is non-negative |
| Patterns.RatingGuardIffThreshold | app/services/chatbot_service.py:108 | the guard on the product branch fires exactly when a rating threshold can be read |
| Patterns.RatingAtIff | app/services/chatbot_service.py:108 | at each position the guard and the threshold pattern match together |
| Patterns.WhatTail | app/services/chatbot_service.py:163 | `.*categories\b` matches iff "categories" and a boundary follow, with no newline in between |
| Patterns.AsksForCategories | app/services/chatbot_service.py:163 | a category question is asked iff the pattern matches at some position |
| Patterns.CategoriesWordAsks | app/services/chatbot_service.py:163 | the word "categories" on its own asks the question |
| Catalog.Round2 | app/services/product_service.py:51 | rounding to hundredths moves a value by at most half a cent and gives whole cents |
| Catalog.Round2Monotone | app/services/product_service.py:51 | rounding keeps order |
| Catalog.Round2NonNegative | app/services/product_service.py:51 | rounding keeps a non-negative value non-negative |
| Catalog.ComputeActualPrice | app/services/product_service.py:48-53 | without a discount the price is the rounded price; a discount in 0..100 keeps it between 0 and the rounded price |
| Catalog.DiscountWithinPrice | app/services/product_service.py:51 | a discount in 0..100 keeps the price between 0 and the price |
| Catalog.NoDiscountIsZeroDiscount | app/services/product_service.py:51 | a missing discount and a zero discount give the same price |
| Catalog.SearchByName | app/services/product_service.py:55-63 | a blank query finds nothing; otherwise exactly the titles containing the query, in order (multiplicity is stated by `Catalog.SearchByNameCounts`) |
| Catalog.SearchByCategory | app/services/product_service.py:65-69 | a blank or missing category finds nothing; otherwise exactly the products of that category, in order; a product without a category never matches (multiplicity is stated by `Catalog.SearchByCategoryCounts`) |
| Catalog.SearchByNameCounts | app/services/product_service.py:63 | a name search keeps every matching product as often as the catalog lists it, and no other product |
| Catalog.SearchByCategoryCounts | app/services/product_service.py:69 | a category search keeps every product of the category as often as the catalog lists it, and no other product |
| Catalog.FilterProducts | app/services/product_service.py:71-79 | exactly the products within every given bound, all taken from the input; without bounds the input unchanged |
| Catalog.WhenGivenIsFilter | app/services/product_service.py:73-78 | a skipped stage is a filter by a predicate everything passes |
| Catalog.FilterProductsIsOnePass | app/services/product_service.py:71-79 | the staged filter is a single order-preserving filter by all the bounds |
| Catalog.FilterProductsCounts | app/services/product_service.py:71-79 | the product filter keeps every product within the bounds as often as the catalog lists it, and no other product |
| Catalog.UnratedExcluded | app/services/product_service.py:78 | an unrated product fails any positive rating threshold |
| Intents.ContainsKeyword | app/services/chatbot_service.py:29-31 | true iff some keyword occurs at some position of the lowercased message |
| Intents.IntentsAreSubstrings | app/services/chatbot_service.py:21-27 | greeting, farewell, price, stock and rating tests each hold iff one of their keywords occurs in the lowercased message |
| Intents.Subsumed | app/services/chatbot_service.py:29-31 | a keyword set tests the same as a subset that every keyword contains a word of |
| Intents.KeywordIgnoresCase | app/services/chatbot_service.py:21-31 | keyword tests ignore case |
| Intents.KeywordFound | app/services/chatbot_service.py:29-31 | a keyword anywhere in the message, inside a word or not, is found |
| Intents.NoKeywordInitial | app/services/chatbot_service.py:29-31 | no keyword is found when none of their first letters occurs |
| Intents.WhichIsAGreeting | app/services/chatbot_service.py:13-23 | "Which kiwi is cheapest?" counts as a greeting, because "hi" occurs inside "which" |
| Intents.GreetingExample | app/services/chatbot_service.py:13-23 | "hi" is a greeting |
| Intents.FarewellExample | app/services/chatbot_service.py:13-27 | "bye" is a farewell and not a greeting |
| Resolver.Scores | app/services/chatbot_service.py:96-98 | one overlap score per product, in catalog order |
| Resolver.NormalizedTextHolds | app/services/chatbot_service.py:83 | every maximal token run of length two or more, normalised, occurs in the normalised message |
| Resolver.QueryTokensAre | app/services/chatbot_service.py:94 | the query words are exactly the normalised maximal token runs of length three or more of the normalised message |
| Resolver.TitleWordsAre | app/services/chatbot_service.py:97 | the title words are exactly the normalised blank-separated words of the lowercased title |
| Resolver.ScorePositive | app/services/chatbot_service.py:98 | a product scores above zero iff some query word is one of its title words |
| Resolver.BestIndex | app/services/chatbot_service.py:94-103 | no product is chosen iff every score is 0; otherwise a positive, maximal score that no earlier product ties |
| Resolver.BestIsUnique | app/services/chatbot_service.py:101-103 | the product a stable descending sort puts first is exactly the one the scan chooses |
| Resolver.Resolve | app/services/chatbot_service.py:82-105 | the product comes from the catalog; none is found iff no product passes any of the three tiers |
| Resolver.ResolveExact | app/services/chatbot_service.py:86 | the first product whose title equals the message is chosen |
| Resolver.ResolveBySubstring | app/services/chatbot_service.py:89-90 | without an exact title, the first product whose normalised title occurs in the normalised message is chosen |
| Resolver.ResolveByOverlap | app/services/chatbot_service.py:93-103 | when the first two tiers find nothing, the best-scoring product is chosen |
| Chatbot.FactsOf | app/services/chatbot_service.py:114-124 | missing or falsy discount, rating, stock, brand and category read 0 or "Unknown"; present, non-falsy discount, stock, brand and category are kept as they are; the final price is the discounted price |
| Chatbot.Listing | app/services/chatbot_service.py:174-180 | a listing shows the first six products, in order, each with its discounted price |
| Chatbot.ChooseHeader | app/services/chatbot_service.py:201-208 | a non-zero rating threshold wins over a non-zero upper bound, which wins over a non-zero lower bound |
| Chatbot.ProductAnswer | app/services/chatbot_service.py:109-158 | exactly one of the price, stock and rating intents selects its template; otherwise the model's reply, or the local summary when that reply starts with the sentinel |
| Chatbot.CategoryName | app/services/chatbot_service.py:164 | a present, non-empty category is its own name; a missing or empty one reads as "unknown" |
| Chatbot.CategoryNames | app/services/chatbot_service.py:163-165 | the category list is sorted, without repeats, and has exactly the capitalised category names |
| Chatbot.MentionedCategory | app/services/chatbot_service.py:167-170 | the category chosen occurs in the message and is the least such name in string order; none iff no name occurs |
| Chatbot.KeysOfCatalog | app/services/chatbot_service.py:168 | the sorted lowercased names hold exactly the catalog's category names |
| Chatbot.FirstKeyIsLeast | app/services/chatbot_service.py:168-170 | the first sorted name the loop accepts is the least accepted name of any product |
| Chatbot.CategoryAnswer | app/services/chatbot_service.py:171-181 | a mentioned category with no items gets the "couldn't find" reply, otherwise the listing of its items |
| Chatbot.FilterAnswer | app/services/chatbot_service.py:183-219 | a non-empty filter result is listed under the chosen heading; an empty one gets the model's generic reply |
| Chatbot.BrowseAnswer | app/services/chatbot_service.py:160-219 | category question, then category mention, then filter listing, then the model's generic reply, each exactly when the ones before do not apply |
| Chatbot.RespondShortCircuits | app/services/chatbot_service.py:62-79 | blank, greeting, farewell and empty-catalog replies, each exactly when the ones before do not apply |
| Chatbot.RespondWithoutCatalog | app/services/chatbot_service.py:66-79 | a blank message, a greeting, a farewell or an empty catalog is answered before the catalog is consulted |
| Chatbot.CatalogAnswer | app/services/chatbot_service.py:105-108 | the reply is about the resolved product iff one was resolved and the message asks for no rating filter |
| Chatbot.SmallTalkIgnoresCatalog | app/services/chatbot_service.py:66-74 | blank, greeting and farewell replies do not depend on the catalog or the model |
| Chatbot.ResolvedProductAnswered | app/services/chatbot_service.py:105-124 | with a catalog, the reply is about a product iff one was resolved and no rating filter is asked, and it uses that product's facts |
| Chatbot.SentinelNeverSurfaced | app/services/chatbot_service.py:152-158 | a product reply never starts with the unreachable-service text |
| Chatbot.FallbackStartsWithSentinel | app/utils/groq_client.py:41 | the client's fallback text starts with the text the chatbot tests for |
| Chatbot.RespondConsultsCatalog | app/services/chatbot_service.py:76-82 | a message that is not small talk is answered from a non-empty catalog |
| Chatbot.ExactTitleAnswered | app/services/chatbot_service.py:82-109 | a message equal to a product's title, up to case and surrounding blanks, is answered about the first such product unless it is small talk or asks for a rating filter |
| Chatbot.TitleSummarised | app/services/chatbot_service.py:82-157 | a plain message naming the first product's title reaches the model with that product's facts, and an unreachable model yields the local summary |
| Chatbot.RespondBrowses | app/services/chatbot_service.py:160-161 | a reply that is neither small talk nor about a product comes from browsing a non-empty catalog |
| Chatbot.ListingOfSelection | app/services/chatbot_service.py:175 | a listing of a non-empty selection shows one to six of its products |
| Chatbot.CategoryListingBounded | app/services/chatbot_service.py:168-181 | a category listing shows one to six catalog products, all of the stripped mentioned category |
| Chatbot.FilterListingBounded | app/services/chatbot_service.py:184-199 | a filter listing shows one to six catalog products, each within every bound read from the message |
| Chatbot.GenericNeedsConstraint | app/services/chatbot_service.py:183-219 | the generic model reply comes only when the message set a price or rating bound |
| Chatbot.RespondGenericBrowses | app/services/chatbot_service.py:160-219 | a generic reply comes from browsing a non-empty catalog |
| Chatbot.BrowseGenericNeedsConstraint | app/services/chatbot_service.py:183-219 | browsing a non-empty catalog ends in the generic reply only under a price or rating bound |
| Chatbot.UnconstrainedListsCatalog | app/services/chatbot_service.py:190-208 | without bounds the filter stage lists the first six catalog products under the generic heading |
| Chatbot.BlankMessageExample | app/services/chatbot_service.py:66-68 | a message of white space gets the "no message" reply |
| Chatbot.GreetingBeforeCatalog | app/services/chatbot_service.py:70-72 | "hi" is greeted even with an empty catalog |
| Chatbot.LemonIsNoGreeting | app/services/chatbot_service.py:71 | "Lemon" is not a greeting |
| Chatbot.LemonIsNoFarewell | app/services/chatbot_service.py:73 | "Lemon" is not a farewell |
| Chatbot.LemonAsksNoPrice | app/services/chatbot_service.py:110 | "Lemon" does not ask for the price |
| Chatbot.LemonAsksNoStock | app/services/chatbot_service.py:111 | "Lemon" does not ask about stock |
| Chatbot.LemonAsksNoRating | app/services/chatbot_service.py:112 | "Lemon" does not ask about ratings |
| Chatbot.LemonIsNoRatingFilter | app/services/chatbot_service.py:108 | "Lemon" asks for no rating filter |
| Chatbot.LemonIsPlain | app/services/chatbot_service.py:66-112 | "Lemon" has nothing to strip, is no small talk, and holds no intent word and no rating filter |
| Chatbot.SummarisedWhenUnreachable | app/services/chatbot_service.py:82-157 | a plain message naming the first product's title, sent to a model that is unreachable, gets the local summary of that product |
| Chatbot.LemonSummarised | app/services/chatbot_service.py:82-157 | "Lemon" asked of a catalog holding only the lemon, with the model unreachable, gets the lemon's local summary |

## Left out

- Fetching the catalog: the HTTP request, JSON decoding and the process-wide cache. The catalog is a parameter.
- Querying the language model: the HTTP calls, retries and back-off. The model is a function parameter; only the fallback text is modelled.
- The web routes, application start-up and settings.
- Asynchrony: once the catalog and the model's replies are parameters, the cascade is sequential.
- The text of the replies: `:.2f` formatting, emoji and the prompt wording. Outcomes carry the facts, items and headings instead.
- Catalog.Round2: binary floating point is not modelled. Prices are exact decimals, and `round(x, 2)` rounds halves up rather than to even.
- Catalog.ComputeActualPrice: the `except` branch that returns the price unchanged is not modelled. The arithmetic cannot raise on numbers.
- Text.Lower: lowercasing and `\d`/`\w` are ASCII only. Python's Unicode case mapping and Unicode digits are not modelled.
- Text.Capitalize: the contract states only the length; the first character is upper-cased and the rest lower-cased in ASCII only.
- A `None` message: the request schema requires a string, so `message or ""` is the message itself.
- The request and response schemas and the search-filter schema.
