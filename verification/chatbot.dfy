/** `generate_chat_response`: the cascade that turns one customer message
    into one reply. The catalog and the language model are parameters;
    the reply is a structured outcome that carries what the text would
    show rather than the rendered text. */
module Chatbot {
  import opened Wrappers
  import opened Seqs
  import opened Text
  import opened StringOrder
  import opened Patterns
  import opened Catalog
  import opened Intents
  import opened Resolver

  /** The beginning of the reply the model client gives when every attempt
      to reach the service failed. */
  const Sentinel: string := "Sorry \U{2014} I couldn't reach the AI service"

  /** That reply in full. */
  const FallbackReply: string :=
    Sentinel + " right now. I can still give you a quick product summary if you want."

  /** What the reply about one product may use, with missing or falsy
      fields defaulted. */
  datatype Facts = Facts(
    name: string,
    description: string,
    price: real,
    discount: real,
    actualPrice: real,
    rating: real,
    stock: int,
    brand: string,
    category: string)

  /** A missing or empty brand or category reads "Unknown". */
  function FactsOf(p: Product): (f: Facts)
    ensures f.name == p.title && f.description == p.description && f.price == p.price
    ensures f.discount == 0.0 <==> p.discountPercentage.None? || p.discountPercentage.value == 0.0
    ensures f.actualPrice == ComputeActualPrice(p.price, p.discountPercentage)
    ensures f.rating == RatingOf(p)
    ensures f.stock == 0 <==> p.stock.None? || p.stock.value == 0
    ensures f.brand == "Unknown" <==> p.brand.None? || p.brand.value in {"", "Unknown"}
    ensures f.category == "Unknown" <==> p.category.None? || p.category.value in {"", "Unknown"}
    ensures p.discountPercentage.Some? && p.discountPercentage.value != 0.0 ==> f.discount == p.discountPercentage.value
    ensures p.stock.Some? && p.stock.value != 0 ==> f.stock == p.stock.value
    ensures p.brand.Some? && p.brand.value != "" ==> f.brand == p.brand.value
    ensures p.category.Some? && p.category.value != "" ==> f.category == p.category.value
  {
    var discount := Or(p.discountPercentage, 0.0, 0.0);
    Facts(p.title, p.description, p.price, discount,
          ComputeActualPrice(p.price, Some(discount)),
          Or(p.rating, 0.0, 0.0), Or(p.stock, 0, 0),
          Or(p.brand, "", "Unknown"), Or(p.category, "", "Unknown"))
  }

  /** The two prompts sent to the language model: one about a resolved
      product, one for everything else. Both quote the original message. */
  datatype Prompt = ProductPrompt(message: string, facts: Facts) | GenericPrompt(message: string)

  /** One line of a listing: the product and its discounted price. */
  datatype Item = Item(product: Product, actualPrice: real)

  function ItemOf(p: Product): Item {
    Item(p, ComputeActualPrice(p.price, Some(Or(p.discountPercentage, 0.0, 0.0))))
  }

  /** The lines of a listing: the first six products, in order. */
  function Listing(ps: seq<Product>): (r: seq<Item>)
    ensures |r| == if |ps| < 6 then |ps| else 6
    ensures forall i :: 0 <= i < |r| ==> r[i].product == ps[i]
    ensures forall i :: 0 <= i < |r| ==>
      r[i].actualPrice == ComputeActualPrice(ps[i].price, ps[i].discountPercentage)
  {
    Map(ItemOf, Take(ps, 6))
  }

  /** The heading of a filter listing. */
  datatype Header = RatedAbove(minRating: real) | Under(high: real) | Above(low: real) | Matching

  /** Python truthiness of an optional number: present and non-zero. */
  predicate Truthy(x: Option<real>) {
    x.Some? && x.value != 0.0
  }

  /** A non-zero rating threshold wins over a non-zero upper bound, which
      wins over a non-zero lower bound. */
  function ChooseHeader(minRating: Option<real>, range: PriceRange): (h: Header)
    ensures h.RatedAbove? <==> Truthy(minRating)
    ensures h.Under? <==> !Truthy(minRating) && Truthy(range.high)
    ensures h.Above? <==> !Truthy(minRating) && !Truthy(range.high) && Truthy(range.low)
    ensures h.RatedAbove? ==> h.minRating == minRating.value
    ensures h.Under? ==> h.high == range.high.value
    ensures h.Above? ==> h.low == range.low.value
  {
    if Truthy(minRating) then RatedAbove(minRating.value)
    else if Truthy(range.high) then Under(range.high.value)
    else if Truthy(range.low) then Above(range.low.value)
    else Matching
  }

  /** Every reply the cascade can give. */
  datatype Outcome =
    | NoMessage
    | Greeting
    | Farewell
    | CatalogUnavailable
    | PriceAnswer(facts: Facts)
    | StockAnswer(facts: Facts)
    | RatingAnswer(facts: Facts)
    | ProductReply(facts: Facts, reply: string)
    | LocalSummary(facts: Facts)
    | CategoryList(names: seq<string>)
    | CategoryEmpty(category: string)
    | CategoryItems(category: string, items: seq<Item>)
    | FilterListing(header: Header, items: seq<Item>)
    | GenericReply(reply: string)

  /** The replies given before the catalog is consulted, or without it. */
  predicate ShortCircuit(o: Outcome) {
    o.NoMessage? || o.Greeting? || o.Farewell? || o.CatalogUnavailable?
  }

  /** The replies given once a product has been identified. */
  predicate AboutProduct(o: Outcome) {
    o.PriceAnswer? || o.StockAnswer? || o.RatingAnswer? || o.ProductReply? || o.LocalSummary?
  }

  /** The reply about a resolved product: a short template when exactly
      one of the price, stock and rating intents is present, otherwise the
      model's reply, or a local summary when the model was unreachable. */
  function ProductAnswer(message: string, txt: string, p: Product, llm: Prompt -> string): (o: Outcome)
    ensures AboutProduct(o) && o.facts == FactsOf(p)
    ensures o.PriceAnswer? <==> WantsPrice(txt) && !WantsStock(txt) && !WantsRating(txt)
    ensures o.StockAnswer? <==> WantsStock(txt) && !WantsPrice(txt) && !WantsRating(txt)
    ensures o.RatingAnswer? <==> WantsRating(txt) && !WantsPrice(txt) && !WantsStock(txt)
    ensures o.ProductReply? ==> o.reply == llm(ProductPrompt(message, FactsOf(p)))
    ensures o.ProductReply? ==> !StartsWith(o.reply, Sentinel)
    ensures o.LocalSummary? <==> (o.ProductReply? || o.LocalSummary?) && StartsWith(llm(ProductPrompt(message, FactsOf(p))), Sentinel)
  {
    var wantsPrice := WantsPrice(txt);
    var wantsStock := WantsStock(txt);
    var wantsRating := WantsRating(txt);
    var facts := FactsOf(p);
    if wantsPrice && !(wantsStock || wantsRating) then PriceAnswer(facts)
    else if wantsStock && !(wantsPrice || wantsRating) then StockAnswer(facts)
    else if wantsRating && !(wantsPrice || wantsStock) then RatingAnswer(facts)
    else
      var reply := llm(ProductPrompt(message, facts));
      if StartsWith(reply, Sentinel) then LocalSummary(facts) else ProductReply(facts, reply)
  }

  /** `p.category or "unknown"`. */
  function CategoryName(p: Product): (r: string)
    ensures r != ""
    ensures p.category.Some? && p.category.value != "" ==> r == p.category.value
    ensures p.category.None? || p.category.value == "" ==> r == "unknown"
  {
    Or(p.category, "", "unknown")
  }

  /** The answer to "which categories are there": every product's
      capitalised category name, sorted, without repeats. */
  function CategoryNames(catalog: seq<Product>): (r: seq<string>)
    ensures StrictlySorted(r)
    ensures forall i :: 0 <= i < |catalog| ==> Capitalize(CategoryName(catalog[i])) in r
    ensures forall k :: 0 <= k < |r| ==> exists i :: 0 <= i < |catalog| && r[k] == Capitalize(CategoryName(catalog[i]))
  {
    SortedDistinct(Map((p: Product) => Capitalize(CategoryName(p)), catalog))
  }

  /** `(p.category or "unknown").lower()`. */
  function MentionKey(p: Product): string {
    Lower(CategoryName(p))
  }

  /** The category the message mentions: of the catalog's lowercased
      category names that occur in the message, the least in string order. */
  function MentionedCategory(lowerTxt: string, catalog: seq<Product>): (r: Option<string>)
    ensures r.None? <==> forall i :: 0 <= i < |catalog| ==> !Contains(lowerTxt, MentionKey(catalog[i]))
    ensures r.Some? ==> Contains(lowerTxt, r.value)
    ensures r.Some? ==> exists i :: 0 <= i < |catalog| && r.value == MentionKey(catalog[i])
    ensures r.Some? ==> forall i :: 0 <= i < |catalog| && Contains(lowerTxt, MentionKey(catalog[i])) ==>
      r.value == MentionKey(catalog[i]) || Less(r.value, MentionKey(catalog[i]))
  {
    var keys := SortedDistinct(Map(MentionKey, catalog));
    var mentioned := (c: string) => Contains(lowerTxt, c);
    KeysOfCatalog(catalog);
    match FirstIndex(keys, mentioned)
    case Some(h) =>
      FirstKeyIsLeast(catalog, mentioned);
      Some(keys[h])
    case None => None
  }

  /** The sorted keys hold exactly the catalog's mention keys. */
  lemma KeysOfCatalog(catalog: seq<Product>)
    ensures var keys := SortedDistinct(Map(MentionKey, catalog));
      && (forall i :: 0 <= i < |catalog| ==> MentionKey(catalog[i]) in keys)
      && (forall m :: 0 <= m < |keys| ==> exists i :: 0 <= i < |catalog| && keys[m] == MentionKey(catalog[i]))
  {
    var keys := SortedDistinct(Map(MentionKey, catalog));
    forall i | 0 <= i < |catalog| ensures MentionKey(catalog[i]) in keys {
      assert Map(MentionKey, catalog)[i] == MentionKey(catalog[i]);
    }
  }

  /** The first sorted key a predicate accepts is the least key of the
      catalog it accepts. */
  lemma FirstKeyIsLeast(catalog: seq<Product>, keep: string -> bool)
    requires FirstIndex(SortedDistinct(Map(MentionKey, catalog)), keep).Some?
    ensures var keys := SortedDistinct(Map(MentionKey, catalog));
      var h := FirstIndex(keys, keep).value;
      forall i :: 0 <= i < |catalog| && keep(MentionKey(catalog[i])) ==>
        keys[h] == MentionKey(catalog[i]) || Less(keys[h], MentionKey(catalog[i]))
  {
    var keys := SortedDistinct(Map(MentionKey, catalog));
    var h := FirstIndex(keys, keep).value;
    KeysOfCatalog(catalog);
    forall i | 0 <= i < |catalog| && keep(MentionKey(catalog[i]))
      ensures keys[h] == MentionKey(catalog[i]) || Less(keys[h], MentionKey(catalog[i]))
    {
      FirstAcceptedIsLeast(keys, keep, MentionKey(catalog[i]));
    }
  }

  /** The reply to a message that mentions category `c`: its listing, or
      the note that nothing is in it. */
  function CategoryAnswer(c: string, catalog: seq<Product>): (o: Outcome)
    ensures (o.CategoryEmpty? || o.CategoryItems?) && o.category == c
    ensures o.CategoryEmpty? <==> SearchByCategory(catalog, Some(c)) == []
    ensures o.CategoryItems? ==> o.items == Listing(SearchByCategory(catalog, Some(c)))
  {
    var items := SearchByCategory(catalog, Some(c));
    if items == [] then CategoryEmpty(c) else CategoryItems(c, Listing(items))
  }

  /** The reply to a message that mentions no category: the products that
      pass its price range and rating threshold, or the model's reply when
      none does. */
  function FilterAnswer(message: string, txt: string, catalog: seq<Product>, llm: Prompt -> string): (o: Outcome)
    ensures o.FilterListing? || o.GenericReply?
    ensures o.GenericReply? <==>
      FilterProducts(catalog, ExtractPriceRange(txt).low, ExtractPriceRange(txt).high, RatingThreshold(txt)) == []
    ensures o.FilterListing? ==>
      o.items == Listing(FilterProducts(catalog, ExtractPriceRange(txt).low, ExtractPriceRange(txt).high, RatingThreshold(txt)))
    ensures o.FilterListing? ==> o.header == ChooseHeader(RatingThreshold(txt), ExtractPriceRange(txt))
    ensures o.GenericReply? ==> o.reply == llm(GenericPrompt(message))
  {
    var range := ExtractPriceRange(txt);
    var minRating := RatingThreshold(txt);
    var filtered := FilterProducts(catalog, range.low, range.high, minRating);
    if filtered != [] then FilterListing(ChooseHeader(minRating, range), Listing(filtered))
    else GenericReply(llm(GenericPrompt(message)))
  }

  /** The reply when no single product was identified: the category list,
      a category listing, a filter listing, or the model's reply. */
  function BrowseAnswer(message: string, txt: string, catalog: seq<Product>, llm: Prompt -> string): (o: Outcome)
    ensures o.CategoryList? <==> AsksForCategories(Lower(txt))
    ensures o.CategoryList? ==> o.names == CategoryNames(catalog)
    ensures (o.CategoryEmpty? || o.CategoryItems?) <==>
      !AsksForCategories(Lower(txt)) && MentionedCategory(Lower(txt), catalog).Some?
    ensures (o.CategoryEmpty? || o.CategoryItems?) ==>
      o == CategoryAnswer(MentionedCategory(Lower(txt), catalog).value, catalog)
    ensures (o.FilterListing? || o.GenericReply?) <==>
      !AsksForCategories(Lower(txt)) && MentionedCategory(Lower(txt), catalog).None?
    ensures (o.FilterListing? || o.GenericReply?) ==> o == FilterAnswer(message, txt, catalog, llm)
    ensures o.CategoryList? || o.CategoryEmpty? || o.CategoryItems? || o.FilterListing? || o.GenericReply?
  {
    var lowerTxt := Lower(txt);
    if AsksForCategories(lowerTxt) then CategoryList(CategoryNames(catalog))
    else
      match MentionedCategory(lowerTxt, catalog)
      case Some(c) => CategoryAnswer(c, catalog)
      case None => FilterAnswer(message, txt, catalog, llm)
  }

  /** The whole cascade, first hit wins: an empty message, a greeting, a
      farewell, an empty catalog, a resolved product (unless the message
      asks for a rating filter), then browsing. */
  function Respond(message: string, catalog: seq<Product>, llm: Prompt -> string): Outcome {
    var txt := Strip(message);
    if txt == "" then NoMessage
    else if IsGreeting(txt) then Greeting
    else if IsFarewell(txt) then Farewell
    else if catalog == [] then CatalogUnavailable
    else CatalogAnswer(message, txt, catalog, Resolve(Lower(txt), catalog), llm)
  }

  /** The reply once the catalog is at hand and `found` is what the
      resolver made of the message: about that product, unless the message
      asks for a rating filter; otherwise browsing. */
  function CatalogAnswer(message: string, txt: string, catalog: seq<Product>, found: Option<Product>,
                         llm: Prompt -> string): (o: Outcome)
    ensures !o.NoMessage? && !o.Greeting? && !o.Farewell? && !o.CatalogUnavailable?
    ensures AboutProduct(o) <==> found.Some? && !RatingGuard(txt)
    ensures AboutProduct(o) ==> o.facts == FactsOf(found.value)
  {
    if found.Some? && !RatingGuard(txt) then ProductAnswer(message, txt, found.value, llm)
    else BrowseAnswer(message, txt, catalog, llm)
  }

  /** The replies that come before the catalog is consulted, each exactly
      when its test is the first of the cascade to succeed. */
  lemma RespondShortCircuits(message: string, catalog: seq<Product>, llm: Prompt -> string)
    ensures var o := Respond(message, catalog, llm);
      && (o.NoMessage? <==> forall i :: 0 <= i < |message| ==> IsSpace(message[i]))
      && (o.Greeting? <==> Strip(message) != "" && IsGreeting(Strip(message)))
      && (o.Farewell? <==> Strip(message) != "" && !IsGreeting(Strip(message)) && IsFarewell(Strip(message)))
      && (o.CatalogUnavailable? <==>
            Strip(message) != "" && !IsGreeting(Strip(message)) && !IsFarewell(Strip(message)) && catalog == [])
  {
  }

  /** A blank message, a greeting or a farewell is answered the same
      whatever the catalog and the model would say. */
  lemma SmallTalkIgnoresCatalog(message: string, c1: seq<Product>, c2: seq<Product>,
                                llm1: Prompt -> string, llm2: Prompt -> string)
    requires Strip(message) == "" || IsGreeting(Strip(message)) || IsFarewell(Strip(message))
    ensures Respond(message, c1, llm1) == Respond(message, c2, llm2)
    ensures ShortCircuit(Respond(message, c1, llm1))
  {
  }

  /** A blank message, a greeting, a farewell or an empty catalog is
      answered before the catalog is consulted. */
  lemma RespondWithoutCatalog(message: string, catalog: seq<Product>, llm: Prompt -> string)
    requires Strip(message) == "" || IsGreeting(Strip(message)) || IsFarewell(Strip(message)) || catalog == []
    ensures ShortCircuit(Respond(message, catalog, llm))
  {
  }

  /** With a message to answer and a catalog at hand, a resolved product is
      answered about, unless the message asks for a rating filter. */
  lemma ResolvedProductAnswered(message: string, catalog: seq<Product>, llm: Prompt -> string)
    requires Strip(message) != "" && !IsGreeting(Strip(message)) && !IsFarewell(Strip(message))
    requires catalog != []
    ensures AboutProduct(Respond(message, catalog, llm)) <==>
      Resolve(Lower(Strip(message)), catalog).Some? && !RatingGuard(Strip(message))
    ensures AboutProduct(Respond(message, catalog, llm)) ==>
      Respond(message, catalog, llm).facts == FactsOf(Resolve(Lower(Strip(message)), catalog).value)
  {
    var txt := Strip(message);
    assert Respond(message, catalog, llm) == CatalogAnswer(message, txt, catalog, Resolve(Lower(txt), catalog), llm);
  }

  /** The unreachable-service text never reaches the customer as a product
      reply: it is replaced by the local summary. */
  lemma SentinelNeverSurfaced(message: string, catalog: seq<Product>, llm: Prompt -> string)
    ensures Respond(message, catalog, llm).ProductReply? ==> !StartsWith(Respond(message, catalog, llm).reply, Sentinel)
  {
    var txt := Strip(message);
    if txt != "" && !IsGreeting(txt) && !IsFarewell(txt) && catalog != [] {
      var found := Resolve(Lower(txt), catalog);
      if found.Some? && !RatingGuard(txt) {
        assert Respond(message, catalog, llm) == ProductAnswer(message, txt, found.value, llm);
      }
    }
  }

  lemma FallbackStartsWithSentinel()
    ensures StartsWith(FallbackReply, Sentinel)
  {
    assert FallbackReply[..|Sentinel|] == Sentinel;
  }

  /** A message that is neither blank, a greeting nor a farewell is
      answered from the catalog when there is one. */
  lemma RespondConsultsCatalog(message: string, txt: string, catalog: seq<Product>, llm: Prompt -> string)
    requires Strip(message) == txt && txt != "" && !IsGreeting(txt) && !IsFarewell(txt)
    requires catalog != []
    ensures Respond(message, catalog, llm) == CatalogAnswer(message, txt, catalog, Resolve(Lower(txt), catalog), llm)
  {
  }

  /** A message that is a product's title, up to case and surrounding
      white space, is answered about the first product with that title,
      unless it is small talk or asks for a rating filter. */
  lemma ExactTitleAnswered(message: string, txt: string, catalog: seq<Product>, llm: Prompt -> string, j: nat)
    requires Strip(message) == txt && txt != "" && !IsGreeting(txt) && !IsFarewell(txt)
    requires j < |catalog| && Lower(catalog[j].title) == Lower(txt)
    requires forall i :: 0 <= i < j ==> Lower(catalog[i].title) != Lower(txt)
    requires !RatingGuard(txt)
    ensures Respond(message, catalog, llm) == ProductAnswer(message, txt, catalog[j], llm)
  {
    RespondConsultsCatalog(message, txt, catalog, llm);
    ResolveExact(Lower(txt), catalog, j);
  }

  /** A message with nothing to strip, that is no small talk, and that
      holds no intent word and no rating filter. */
  predicate PlainMessage(message: string) {
    && Strip(message) == message && message != ""
    && !IsGreeting(message) && !IsFarewell(message)
    && !RatingGuard(message)
    && !WantsPrice(message) && !WantsStock(message) && !WantsRating(message)
  }

  /** A plain message naming the first product's title is passed to the
      model with that product's facts; when the model is unreachable the
      customer gets the local summary instead. */
  lemma TitleSummarised(message: string, catalog: seq<Product>, llm: Prompt -> string)
    requires PlainMessage(message)
    requires catalog != [] && Lower(catalog[0].title) == Lower(message)
    requires StartsWith(llm(ProductPrompt(message, FactsOf(catalog[0]))), Sentinel)
    ensures Respond(message, catalog, llm) == LocalSummary(FactsOf(catalog[0]))
  {
    ExactTitleAnswered(message, message, catalog, llm, 0);
  }

  /** Every reply that is neither small talk nor about a product comes
      from browsing the non-empty catalog. */
  lemma RespondBrowses(message: string, catalog: seq<Product>, llm: Prompt -> string)
    requires !ShortCircuit(Respond(message, catalog, llm)) && !AboutProduct(Respond(message, catalog, llm))
    ensures catalog != []
    ensures Respond(message, catalog, llm) == BrowseAnswer(message, Strip(message), catalog, llm)
  {
    var txt := Strip(message);
    if txt != "" && !IsGreeting(txt) && !IsFarewell(txt) && catalog != [] {
      RespondConsultsCatalog(message, txt, catalog, llm);
    } else {
      RespondWithoutCatalog(message, catalog, llm);
    }
  }

  /** A listing of a non-empty selection shows between one and six of
      its products. */
  lemma ListingOfSelection(ps: seq<Product>, catalog: seq<Product>)
    requires ps != [] && forall i :: 0 <= i < |ps| ==> ps[i] in catalog
    ensures 1 <= |Listing(ps)| <= 6
    ensures forall i :: 0 <= i < |Listing(ps)| ==> Listing(ps)[i].product in catalog
  {
  }

  /** A category listing shows between one and six products of the
      catalog, all of the mentioned category once stripped. */
  lemma CategoryListingBounded(c: string, catalog: seq<Product>)
    requires CategoryAnswer(c, catalog).CategoryItems?
    ensures var o := CategoryAnswer(c, catalog);
      && 1 <= |o.items| <= 6
      && (forall i :: 0 <= i < |o.items| ==> o.items[i].product in catalog)
      && (forall i :: 0 <= i < |o.items| ==> CategoryKey(o.items[i].product) == Lower(Strip(c)))
  {
    var o := CategoryAnswer(c, catalog);
    var ps := SearchByCategory(catalog, Some(c));
    assert o.items == Listing(ps) && ps != [];
    ListingOfSelection(ps, catalog);
    assert Strip(c) != "";
    forall i | 0 <= i < |o.items|
      ensures CategoryKey(o.items[i].product) == Lower(Strip(c))
    {
      assert o.items[i].product == ps[i];
      var j :| 0 <= j < |catalog| && catalog[j] == ps[i];
      assert catalog[j] in ps;
    }
  }

  /** A filter listing shows between one and six products of the catalog,
      each within every bound the message set. */
  lemma FilterListingBounded(message: string, txt: string, catalog: seq<Product>, llm: Prompt -> string)
    requires FilterAnswer(message, txt, catalog, llm).FilterListing?
    ensures var o := FilterAnswer(message, txt, catalog, llm);
      && 1 <= |o.items| <= 6
      && (forall i :: 0 <= i < |o.items| ==> o.items[i].product in catalog)
      && (forall i :: 0 <= i < |o.items| ==>
            WithinBounds(o.items[i].product, ExtractPriceRange(txt).low, ExtractPriceRange(txt).high, RatingThreshold(txt)))
  {
    var o := FilterAnswer(message, txt, catalog, llm);
    var range := ExtractPriceRange(txt);
    var ps := FilterProducts(catalog, range.low, range.high, RatingThreshold(txt));
    assert o.items == Listing(ps) && ps != [];
    ListingOfSelection(ps, catalog);
    assert forall i :: 0 <= i < |o.items| ==> o.items[i].product == ps[i];
  }

  /** The model is asked for a generic reply only when the message set a
      price or rating bound: with none, every product passes the filter
      and the non-empty catalog is listed instead. */
  lemma GenericNeedsConstraint(message: string, catalog: seq<Product>, llm: Prompt -> string)
    requires Respond(message, catalog, llm).GenericReply?
    ensures ExtractPriceRange(Strip(message)) != PriceRange(None, None) || RatingThreshold(Strip(message)).Some?
  {
    RespondGenericBrowses(message, catalog, llm);
    BrowseGenericNeedsConstraint(message, Strip(message), catalog, llm);
  }

  /** A generic reply comes from browsing a non-empty catalog. */
  lemma RespondGenericBrowses(message: string, catalog: seq<Product>, llm: Prompt -> string)
    requires Respond(message, catalog, llm).GenericReply?
    ensures catalog != [] && BrowseAnswer(message, Strip(message), catalog, llm).GenericReply?
  {
    RespondBrowses(message, catalog, llm);
  }

  /** Browsing a non-empty catalog ends in the generic reply only under a
      price or rating bound. */
  lemma BrowseGenericNeedsConstraint(message: string, txt: string, catalog: seq<Product>, llm: Prompt -> string)
    requires catalog != [] && BrowseAnswer(message, txt, catalog, llm).GenericReply?
    ensures ExtractPriceRange(txt) != PriceRange(None, None) || RatingThreshold(txt).Some?
  {
    if ExtractPriceRange(txt) == PriceRange(None, None) && RatingThreshold(txt).None? {
      UnconstrainedListsCatalog(message, txt, catalog, llm);
    }
  }

  /** Without any bound, the filter stage lists the first six products of
      the catalog under the generic heading. */
  lemma UnconstrainedListsCatalog(message: string, txt: string, catalog: seq<Product>, llm: Prompt -> string)
    requires catalog != []
    requires ExtractPriceRange(txt) == PriceRange(None, None) && RatingThreshold(txt).None?
    ensures FilterAnswer(message, txt, catalog, llm) == FilterListing(Matching, Listing(catalog))
  {
  }

  // ---------------------------------------------------------------------
  // Examples

  lemma BlankMessageExample(catalog: seq<Product>, llm: Prompt -> string)
    ensures Respond(" \t\n", catalog, llm) == NoMessage
  {
    var m := " \t\n";
    assert forall i :: 0 <= i < |m| ==> IsSpace(m[i]);
    RespondShortCircuits(m, catalog, llm);
  }

  lemma GreetingBeforeCatalog(llm: Prompt -> string)
    ensures Respond("hi", [], llm) == Greeting
  {
    GreetingExample();
    assert Strip("hi") == "hi";
  }

  const Lemon: Product := Product(1, "Lemon", "Fresh lemon.", 0.49, Some(10.0), Some(4.5), Some(99),
                                  None, Some("groceries"), None)

  /** A model that is never reachable. */
  function Unreachable(p: Prompt): string {
    FallbackReply
  }

  lemma LemonIsNoGreeting()
    ensures !IsGreeting("Lemon")
  {
    assert Lower("Lemon") == "lemon";
    NoKeywordInitial("Lemon", "lemon", Greetings);
  }

  lemma LemonIsNoFarewell()
    ensures !IsFarewell("Lemon")
  {
    assert Lower("Lemon") == "lemon";
    NoKeywordInitial("Lemon", "lemon", Farewells);
  }

  lemma LemonAsksNoPrice()
    ensures !WantsPrice("Lemon")
  {
    assert Lower("Lemon") == "lemon";
    NoKeywordInitial("Lemon", "lemon", PriceWords);
  }

  lemma LemonAsksNoStock()
    ensures !WantsStock("Lemon")
  {
    assert Lower("Lemon") == "lemon";
    NoKeywordInitial("Lemon", "lemon", StockWords);
  }

  lemma LemonAsksNoRating()
    ensures !WantsRating("Lemon")
  {
    assert Lower("Lemon") == "lemon";
    NoKeywordInitial("Lemon", "lemon", RatingWords);
  }

  lemma LemonIsNoRatingFilter()
    ensures !RatingGuard("Lemon")
  {
    assert Lower("Lemon") == "lemon";
    forall i: nat ensures !OccursAt("lemon", "rating", i) {
      AbsentChar("lemon", "rating", 0, i);
    }
    RatingGuardIffThreshold("Lemon");
  }

  /** "Lemon" is its own stripped text, is not small talk, and holds no
      intent word and no rating filter. */
  lemma LemonIsPlain(message: string)
    requires message == "Lemon"
    ensures PlainMessage(message)
  {
    StripUnpadded(message);
    LemonIsNoGreeting();
    LemonIsNoFarewell();
    LemonIsNoRatingFilter();
    LemonAsksNoPrice();
    LemonAsksNoStock();
    LemonAsksNoRating();
  }

  /** Asked "Lemon" with the model out of reach, the chatbot answers with
      its own summary of the lemon. */
  lemma LemonSummarised(message: string, catalog: seq<Product>)
    requires message == "Lemon" && catalog == [Lemon]
    ensures Respond(message, catalog, Unreachable) == LocalSummary(FactsOf(Lemon))
  {
    LemonNamed(message, catalog);
    SummarisedWhenUnreachable(message, catalog);
  }

  /** "Lemon" is a plain message naming the only product of `[Lemon]`. */
  lemma LemonNamed(message: string, catalog: seq<Product>)
    requires message == "Lemon" && catalog == [Lemon]
    ensures PlainMessage(message) && catalog != [] && Lower(catalog[0].title) == Lower(message)
  {
    LemonIsPlain(message);
    LemonTitle(message, catalog);
  }

  lemma LemonTitle(message: string, catalog: seq<Product>)
    requires message == "Lemon" && catalog == [Lemon]
    ensures catalog != [] && catalog[0].title == message
  {
  }

  /** With the model out of reach, a plain message naming the first
      product's title gets the local summary of that product. */
  lemma SummarisedWhenUnreachable(message: string, catalog: seq<Product>)
    requires PlainMessage(message)
    requires catalog != [] && Lower(catalog[0].title) == Lower(message)
    ensures Respond(message, catalog, Unreachable) == LocalSummary(FactsOf(catalog[0]))
  {
    FallbackStartsWithSentinel();
    TitleSummarised(message, catalog, Unreachable);
  }
}
