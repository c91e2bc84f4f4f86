/** The product record and the pure catalog helpers: discounted price,
    search by name, search by category, and the numeric filter. */
module Catalog {
  import opened Wrappers
  import opened Seqs
  import opened Text

  /** One catalog entry. Prices, discounts and ratings are decimals;
      the optional fields may be missing. */
  datatype Product = Product(
    id: int,
    title: string,
    description: string,
    price: real,
    discountPercentage: Option<real>,
    rating: Option<real>,
    stock: Option<int>,
    brand: Option<string>,
    category: Option<string>,
    thumbnail: Option<string>)

  /** `round(x, 2)`: the nearest hundredth, halves rounded up. */
  function Round2(x: real): (r: real)
    ensures x - 0.005 < r <= x + 0.005
    ensures (r * 100.0).Floor as real == r * 100.0
  {
    ((x * 100.0 + 0.5).Floor as real) / 100.0
  }

  /** Rounding to hundredths is monotone and keeps 0 at 0. */
  lemma {:induction false} Round2Monotone(x: real, y: real)
    requires x <= y
    ensures Round2(x) <= Round2(y)
  {
    assert (x * 100.0 + 0.5).Floor <= (y * 100.0 + 0.5).Floor;
  }

  lemma Round2NonNegative(x: real)
    requires x >= 0.0
    ensures Round2(x) >= 0.0
  {
    assert (x * 100.0 + 0.5).Floor >= 0;
  }

  /** `compute_actual_price`: the price after a percentage discount,
      rounded to hundredths; a missing discount counts as none. */
  function ComputeActualPrice(price: real, discountPct: Option<real>): (r: real)
    ensures Or(discountPct, 0.0, 0.0) == 0.0 ==> r == Round2(price)
    ensures price >= 0.0 && 0.0 <= Or(discountPct, 0.0, 0.0) <= 100.0 ==> 0.0 <= r <= Round2(price)
  {
    var d := Or(discountPct, 0.0, 0.0);
    var discounted := price * (1.0 - d / 100.0);
    if price >= 0.0 && 0.0 <= d <= 100.0 then
      DiscountWithinPrice(price, d);
      Round2Monotone(discounted, price);
      Round2NonNegative(discounted);
      Round2(discounted)
    else Round2(discounted)
  }

  lemma DiscountWithinPrice(price: real, d: real)
    requires price >= 0.0 && 0.0 <= d <= 100.0
    ensures 0.0 <= price * (1.0 - d / 100.0) <= price
  {
    var f := 1.0 - d / 100.0;
    assert 0.0 <= f <= 1.0;
    assert price * f <= price * 1.0;
  }

  /** A missing discount and a zero discount give the same price. */
  lemma NoDiscountIsZeroDiscount(price: real)
    ensures ComputeActualPrice(price, None) == ComputeActualPrice(price, Some(0.0)) == Round2(price)
  {
  }

  /** `search_by_name`: the products whose lowercased title contains the
      stripped, lowercased query, in catalog order; nothing for a blank query. */
  function SearchByName(products: seq<Product>, query: string): (r: seq<Product>)
    ensures Strip(query) == "" ==> r == []
    ensures Strip(query) != "" ==> forall i :: 0 <= i < |products| ==>
      (products[i] in r <==> Contains(Lower(products[i].title), Lower(Strip(query))))
    ensures forall i :: 0 <= i < |r| ==> r[i] in products
    ensures IsSubsequence(r, products)
  {
    var q := Lower(Strip(query));
    if q == "" then []
    else
      var titleHas := (p: Product) => Contains(Lower(p.title), q);
      FilterIsSubsequence(products, titleHas);
      Filter(products, titleHas)
  }

  /** `(p.category or "").lower()`. */
  function CategoryKey(p: Product): string {
    Lower(Or(p.category, "", ""))
  }

  /** `search_by_category`: the products whose lowercased category equals
      the stripped, lowercased argument, in catalog order; nothing for a
      blank or missing category, and a product without a category never
      matches. */
  function SearchByCategory(products: seq<Product>, category: Option<string>): (r: seq<Product>)
    ensures Strip(Or(category, "", "")) == "" ==> r == []
    ensures forall i :: 0 <= i < |r| ==> r[i] in products && r[i].category.Some?
    ensures Strip(Or(category, "", "")) != "" ==> forall i :: 0 <= i < |products| ==>
      (products[i] in r <==> CategoryKey(products[i]) == Lower(Strip(Or(category, "", ""))))
    ensures IsSubsequence(r, products)
  {
    var c := Lower(Strip(Or(category, "", "")));
    if c == "" then []
    else
      var inCategory := (p: Product) => CategoryKey(p) == c;
      FilterIsSubsequence(products, inCategory);
      Filter(products, inCategory)
  }

  /** `p.rating or 0.0`. */
  function RatingOf(p: Product): real {
    Or(p.rating, 0.0, 0.0)
  }

  /** The bounds `filter_products` checks, each only when given. */
  predicate WithinBounds(p: Product, minPrice: Option<real>, maxPrice: Option<real>, minRating: Option<real>) {
    && (minPrice.Some? ==> p.price >= minPrice.value)
    && (maxPrice.Some? ==> p.price <= maxPrice.value)
    && (minRating.Some? ==> RatingOf(p) >= minRating.value)
  }

  function PriceAtLeast(minPrice: Option<real>): Product -> bool {
    (p: Product) => minPrice.Some? ==> p.price >= minPrice.value
  }

  function PriceAtMost(maxPrice: Option<real>): Product -> bool {
    (p: Product) => maxPrice.Some? ==> p.price <= maxPrice.value
  }

  function RatedAtLeast(minRating: Option<real>): Product -> bool {
    (p: Product) => minRating.Some? ==> RatingOf(p) >= minRating.value
  }

  function Bounds(minPrice: Option<real>, maxPrice: Option<real>, minRating: Option<real>): Product -> bool {
    (p: Product) => WithinBounds(p, minPrice, maxPrice, minRating)
  }

  /** `if bound is not None: out = [p for p in out if keep(p)]`. */
  function WhenGiven(s: seq<Product>, bound: Option<real>, keep: Product -> bool): seq<Product> {
    if bound.Some? then Filter(s, keep) else s
  }

  /** `filter_products`: the three bounds applied one after another. */
  function FilterProducts(products: seq<Product>, minPrice: Option<real>, maxPrice: Option<real>,
                          minRating: Option<real>): (r: seq<Product>)
    ensures forall i :: 0 <= i < |r| ==> WithinBounds(r[i], minPrice, maxPrice, minRating)
    ensures forall i :: 0 <= i < |r| ==> r[i] in products
    ensures forall i :: 0 <= i < |products| ==>
      (products[i] in r <==> WithinBounds(products[i], minPrice, maxPrice, minRating))
    ensures minPrice.None? && maxPrice.None? && minRating.None? ==> r == products
  {
    var afterMin := WhenGiven(products, minPrice, PriceAtLeast(minPrice));
    var afterMax := WhenGiven(afterMin, maxPrice, PriceAtMost(maxPrice));
    WhenGiven(afterMax, minRating, RatedAtLeast(minRating))
  }

  /** A stage whose bound is absent keeps everything, just as a filter by
      the vacuous predicate does. */
  lemma WhenGivenIsFilter(s: seq<Product>, bound: Option<real>, keep: Product -> bool)
    requires bound.None? ==> forall i :: 0 <= i < |s| ==> keep(s[i])
    ensures WhenGiven(s, bound, keep) == Filter(s, keep)
  {
    if bound.None? {
      FilterKeepAll(s, keep);
    }
  }

  /** The staged filter is a single order-preserving pass that keeps
      exactly the products within all given bounds. */
  lemma {:induction false} FilterProductsIsOnePass(products: seq<Product>, minPrice: Option<real>,
                                                   maxPrice: Option<real>, minRating: Option<real>)
    ensures FilterProducts(products, minPrice, maxPrice, minRating)
      == Filter(products, Bounds(minPrice, maxPrice, minRating))
    ensures IsSubsequence(FilterProducts(products, minPrice, maxPrice, minRating), products)
  {
    var lo := PriceAtLeast(minPrice);
    var hi := PriceAtMost(maxPrice);
    var ra := RatedAtLeast(minRating);
    WhenGivenIsFilter(products, minPrice, lo);
    var s1 := Filter(products, lo);
    WhenGivenIsFilter(s1, maxPrice, hi);
    var s2 := Filter(s1, hi);
    WhenGivenIsFilter(s2, minRating, ra);
    assert FilterProducts(products, minPrice, maxPrice, minRating) == Filter(s2, ra);
    FilterFuse(products, lo, hi);
    FilterFuse(products, Both(lo, hi), ra);
    FilterCongruent(products, Both(Both(lo, hi), ra), Bounds(minPrice, maxPrice, minRating));
    FilterIsSubsequence(products, Bounds(minPrice, maxPrice, minRating));
  }

  /** A name search keeps every matching product as often as the catalog
      lists it, and no other product. */
  lemma SearchByNameCounts(products: seq<Product>, query: string)
    ensures forall i :: 0 <= i < |products| ==>
      multiset(SearchByName(products, query))[products[i]]
        == if Strip(query) != "" && Contains(Lower(products[i].title), Lower(Strip(query)))
           then multiset(products)[products[i]] else 0
  {
    var q := Lower(Strip(query));
    if q != "" {
      FilterCounts(products, (p: Product) => Contains(Lower(p.title), q));
    }
  }

  /** A category search keeps every product of the category as often as
      the catalog lists it, and no other product. */
  lemma SearchByCategoryCounts(products: seq<Product>, category: Option<string>)
    ensures forall i :: 0 <= i < |products| ==>
      multiset(SearchByCategory(products, category))[products[i]]
        == if Strip(Or(category, "", "")) != "" && CategoryKey(products[i]) == Lower(Strip(Or(category, "", "")))
           then multiset(products)[products[i]] else 0
  {
    var c := Lower(Strip(Or(category, "", "")));
    if c != "" {
      FilterCounts(products, (p: Product) => CategoryKey(p) == c);
    }
  }

  /** The product filter keeps every product within the bounds as often as
      the catalog lists it, and no other product. */
  lemma FilterProductsCounts(products: seq<Product>, minPrice: Option<real>, maxPrice: Option<real>,
                             minRating: Option<real>)
    ensures forall i :: 0 <= i < |products| ==>
      multiset(FilterProducts(products, minPrice, maxPrice, minRating))[products[i]]
        == if WithinBounds(products[i], minPrice, maxPrice, minRating) then multiset(products)[products[i]] else 0
  {
    FilterProductsIsOnePass(products, minPrice, maxPrice, minRating);
    FilterCounts(products, Bounds(minPrice, maxPrice, minRating));
  }

  /** An unrated product fails any positive rating threshold. */
  lemma UnratedExcluded(products: seq<Product>, minPrice: Option<real>, maxPrice: Option<real>, x: real, i: nat)
    requires x > 0.0 && i < |products| && products[i].rating.None?
    ensures products[i] !in FilterProducts(products, minPrice, maxPrice, Some(x))
  {
  }
}
