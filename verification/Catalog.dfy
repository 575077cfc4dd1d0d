/** The public catalog: categories, cards, variants (internal/modules/catalog/service/public_listing.go). */
module Catalog {
  import opened Calendar
  import opened Grouping
  import opened Period
  import opened Pricing
  import opened Sorting
  import opened Text
  import opened Wrappers

  /** `labels`: the feature labels, blank ones included. */
  datatype Product = Product(
    id: string, category: Option<string>, categoryName: string, categoryPosition: int, sku: string, name: string,
    description: string, code: string, order: int, basePrice: Field, taxPercent: Field, currency: string,
    attrs: Attributes, labels: seq<string>)

  datatype Variant = Variant(productId: string, sku: string, attrs: Attributes, currency: string, basePrice: Field,
                             taxPercent: Field, priceWithTax: real, checkout: bool)

  /** A card. */
  datatype Listing = Listing(code: string, name: string, description: string, order: int, variants: seq<Variant>,
                             benefits: seq<string>)

  datatype Category = Category(id: string, name: string, position: int, listings: seq<Listing>)

  type Checkout = Product -> bool

  // ---------- price with tax ----------

  function PriceInput(p: Product): seq<LineInput> {
    [LineInput(p.name, Number(1.0), p.basePrice, Blank, p.taxPercent, p.attrs)]
  }

  /** `priceWithTax`: the quotation calculator on one line of quantity one; None is an error. */
  function PriceWithTax(p: Product): Option<real> {
    match PriceOf(PriceInput(p))
    case InvalidLine => None
    case Priced(_, lines) => if lines == [] then None else Some(Print2(lines[0].lineTotal + lines[0].taxAmount))
  }

  lemma ParsedInput(p: Product)
    requires ParseLine(PriceInput(p)[0]).Some?
    ensures var l := ParseLine(PriceInput(p)[0]).value; l.quantity == 1.0 && l.discount == 0.0
  {
  }

  lemma PricedAlone(p: Product)
    ensures var l := ParseLine(PriceInput(p)[0]);
            PriceOf(PriceInput(p)) == if l == None then InvalidLine else Priced(TotalsOf([l.value]), [PricedOf(l.value)])
  {
    hide ParseLine, TotalsOf, PricedOf;
    var inputs := PriceInput(p);
    var l := ParseLine(inputs[0]);
    assert inputs[..0] == [];
    assert ParseLines(inputs[..0]) == Some([]);
    if l.Some? {
      assert [] + [l.value] == [l.value];
      assert ParseLines(inputs) == Some([l.value]);
      assert PricedOfLines([l.value]) == [PricedOf(l.value)];
    }
  }

  /** The price with tax is the price to the cent plus its tax to the cent; printing it once more loses nothing. It is
      missing iff the line is invalid. */
  lemma PriceWithTaxIs(p: Product)
    ensures var l := ParseLine(PriceInput(p)[0]);
            PriceWithTax(p) == if l == None then None
                               else Some(RoundHalfUp2(l.value.price) + RoundHalfUp2(Percent(RoundHalfUp2(l.value.price), l.value.tax)))
  {
    hide ParseLine, TotalsOf, PriceOf, Print2, Gross, Discount, Net, Tax, Percent, RoundHalfUp2;
    PricedAlone(p);
    var l := ParseLine(PriceInput(p)[0]);
    if l.Some? {
      ParsedInput(p);
      OneOfLine(l.value);
      assert PriceWithTax(p) == Some(Print2(Print2(Net(l.value)) + Print2(Tax(l.value))));
    }
  }

  /** The same from the product's own price and tax, a blank one counting as zero. */
  lemma PriceShown(p: Product, price: real, tax: real)
    requires Means(p.basePrice, 0.0, price) && Means(p.taxPercent, 0.0, tax) && PriceWithTax(p).Some?
    ensures PriceWithTax(p) == Some(RoundHalfUp2(price) + RoundHalfUp2(Percent(RoundHalfUp2(price), tax)))
  {
    PriceWithTaxIs(p);
    hide ParseLine, PriceWithTax, RoundHalfUp2, Percent;
    FieldsMean(PriceInput(p)[0]);
  }

  lemma OneOfLine(l: Line)
    requires l.quantity == 1.0 && l.discount == 0.0
    ensures Net(l) == RoundHalfUp2(l.price) && Tax(l) == RoundHalfUp2(Percent(Net(l), l.tax))
    ensures Print2(Print2(Net(l)) + Print2(Tax(l))) == Net(l) + Tax(l)
  {
    assert Times(l.quantity, l.price) == l.price && Percent(Gross(l), l.discount) == 0.0;
    ZeroRounds();
    RoundingIsNear(l.price);
    RoundingIsNear(Percent(Net(l), l.tax));
    hide RoundHalfUp2, Print2, Percent, WholeCents;
    PrintKeepsCents(Net(l));
    PrintKeepsCents(Tax(l));
    CentsAdd(Net(l), Tax(l));
    PrintKeepsCents(Net(l) + Tax(l));
  }

  lemma ZeroRounds()
    ensures RoundHalfUp2(0.0) == 0.0
  {
    CentsOfInt(0);
  }

  // ---------- the order of variants, cards and categories ----------

  function FrequencyRank(f: Option<Frequency>): nat {
    match f
    case Some(Daily) => 1
    case Some(Weekly) => 2
    case Some(Monthly) => 3
    case Some(Quarterly) => 4
    case Some(Semiannual) => 5
    case Some(Annual) => 6
    case _ => 99
  }

  predicate VariantLess(a: Product, b: Product) {
    var ra, rb := FrequencyRank(a.attrs.frequency), FrequencyRank(b.attrs.frequency);
    if ra != rb then ra < rb else Less(a.sku, b.sku)
  }

  predicate ListingLess(a: Listing, b: Listing) {
    if a.order != b.order then a.order < b.order else Less(a.code, b.code)
  }

  predicate CategoryLess(a: Category, b: Category) {
    if a.position != b.position then a.position < b.position else Less(a.name, b.name)
  }

  lemma VariantOrder()
    ensures WeakOrder(VariantLess)
  {
    forall a, b | VariantLess(a, b) ensures !VariantLess(b, a) {
      LessIsTotal(a.sku, b.sku);
    }
    forall a, b, c | !VariantLess(b, a) && !VariantLess(c, b) ensures !VariantLess(c, a) {
      if !Less(b.sku, a.sku) && !Less(c.sku, b.sku) {
        LessIsTransitive(a.sku, b.sku, c.sku);
      }
    }
  }

  lemma ListingOrder()
    ensures WeakOrder(ListingLess)
  {
    forall a, b | ListingLess(a, b) ensures !ListingLess(b, a) {
      LessIsTotal(a.code, b.code);
    }
    forall a, b, c | !ListingLess(b, a) && !ListingLess(c, b) ensures !ListingLess(c, a) {
      if !Less(b.code, a.code) && !Less(c.code, b.code) {
        LessIsTransitive(a.code, b.code, c.code);
      }
    }
  }

  lemma CategoryOrder()
    ensures WeakOrder(CategoryLess)
  {
    forall a, b | CategoryLess(a, b) ensures !CategoryLess(b, a) {
      LessIsTotal(a.name, b.name);
    }
    forall a, b, c | !CategoryLess(b, a) && !CategoryLess(c, b) ensures !CategoryLess(c, a) {
      if !Less(b.name, a.name) && !Less(c.name, b.name) {
        LessIsTransitive(a.name, b.name, c.name);
      }
    }
  }

  /** Variants come by how long the first period of their frequency is, whatever day it starts; those without a listed
      frequency come last. */
  lemma RankIsPeriodLength(start: Date, f: Frequency, g: Frequency)
    requires Valid(start) && f != Unlisted
    ensures g != Unlisted ==>
              (FrequencyRank(Some(f)) < FrequencyRank(Some(g))
               <==> DayNumber(AddPeriod(start, f, 1)) < DayNumber(AddPeriod(start, g, 1)))
    ensures FrequencyRank(Some(f)) < FrequencyRank(None) == FrequencyRank(Some(Unlisted)) == 99
  {
    hide AddMonths, AddDays, DayNumber, Valid;
    AddDaysLands(start, 1);
    AddDaysLands(start, 7);
    MonthIsLong(start);
    AddMonthsIncreases(start, 1, 3);
    AddMonthsIncreases(start, 3, 6);
    AddMonthsIncreases(start, 6, 12);
  }

  lemma MonthIsLong(start: Date)
    requires Valid(start)
    ensures DayNumber(AddMonths(start, 1)) >= DayNumber(start) + 28
  {
    hide AddMonths;
    AddMonthsLands(start, 1);
    NextMonthStart(MonthNumber(start));
  }

  // ---------- what the catalog is ----------

  /** A product with a category, and its price. */
  datatype Offer = Offer(product: Product, category: string, price: real)

  predicate Unpriced(p: Product) {
    p.category.Some? && PriceWithTax(p) == None
  }

  /** Products without a category are passed over. */
  function OfferOf(p: Product): seq<Offer> {
    if p.category == None || PriceWithTax(p) == None then [] else [Offer(p, p.category.value, PriceWithTax(p).value)]
  }

  function CategoryOf(o: Offer): string {
    o.category
  }

  function CodeOf(o: Offer): string {
    o.product.code
  }

  function VariantOf(o: Offer, checkout: Checkout): Variant {
    var p := o.product;
    Variant(p.id, p.sku, p.attrs, p.currency, p.basePrice, p.taxPercent, o.price, checkout(p))
  }

  function ToVariant(checkout: Checkout): Offer -> seq<Variant> {
    o => [VariantOf(o, checkout)]
  }

  function Variants(offers: seq<Offer>, checkout: Checkout): seq<Variant> {
    FlatMap(offers, ToVariant(checkout))
  }

  function VisibleBenefits(labels: seq<string>): seq<string> {
    FlatMap(labels, (text: string) => if text != "" then [text] else [])
  }

  /** The first offer gives the card its face. */
  function CardOf(offers: seq<Offer>, checkout: Checkout): Listing
    requires offers != []
  {
    var p := offers[0].product;
    Listing(p.code, p.name, p.description, p.order, Variants(offers, checkout), VisibleBenefits(p.labels))
  }

  function Cards(codes: seq<string>, offers: seq<Offer>, checkout: Checkout): seq<Listing>
    requires forall i :: 0 <= i < |codes| ==> Group(offers, CodeOf, codes[i]) != []
  {
    seq(|codes|, i requires 0 <= i < |codes| => CardOf(Group(offers, CodeOf, codes[i]), checkout))
  }

  function CardsOf(offers: seq<Offer>, checkout: Checkout): seq<Listing> {
    AllHaveGroups(offers, CodeOf);
    Cards(Keys(offers, CodeOf), offers, checkout)
  }

  /** The category of some offers, all of it: the first of them gives its name and position. */
  function CategoryAt(id: string, offers: seq<Offer>, checkout: Checkout): Category
    requires offers != []
  {
    Category(id, offers[0].product.categoryName, offers[0].product.categoryPosition, Sort(CardsOf(offers, checkout), ListingLess))
  }

  function Categories(ids: seq<string>, offers: seq<Offer>, checkout: Checkout): seq<Category>
    requires forall i :: 0 <= i < |ids| ==> Group(offers, CategoryOf, ids[i]) != []
  {
    seq(|ids|, i requires 0 <= i < |ids| => CategoryAt(ids[i], Group(offers, CategoryOf, ids[i]), checkout))
  }

  function CategoriesOf(offers: seq<Offer>, checkout: Checkout): seq<Category> {
    AllHaveGroups(offers, CategoryOf);
    Categories(Keys(offers, CategoryOf), offers, checkout)
  }

  function OffersOf(products: seq<Product>): seq<Offer> {
    FlatMap(Sort(products, VariantLess), OfferOf)
  }

  /** None is an error: some product with a category cannot be priced. */
  function CatalogOf(products: seq<Product>, checkout: Checkout): Option<seq<Category>> {
    if SomeUnpriced(products) then None
    else Some(Sort(CategoriesOf(OffersOf(products), checkout), CategoryLess))
  }

  // ---------- building it ----------

  datatype CardKey = CardKey(category: string, code: string)

  function CardGroup(offers: seq<Offer>, key: CardKey): seq<Offer> {
    Group(Group(offers, CategoryOf, key.category), CodeOf, key.code)
  }

  ghost predicate CategoriesBuilt(categories: map<string, Category>, order: seq<string>, offers: seq<Offer>) {
    && order == Keys(offers, CategoryOf)
    && (forall id :: id in categories <==> id in order)
    && (forall id :: id in categories ==>
          var group := Group(offers, CategoryOf, id);
          group != []
          && categories[id] == Category(id, group[0].product.categoryName, group[0].product.categoryPosition, []))
  }

  ghost predicate CardsBuilt(cards: map<CardKey, Listing>, offers: seq<Offer>, checkout: Checkout) {
    && (forall key :: key in cards <==> CardGroup(offers, key) != [])
    && (forall key :: key in cards ==> cards[key] == CardOf(CardGroup(offers, key), checkout))
  }

  lemma CategoriesBuiltMore(categories: map<string, Category>, order: seq<string>, offers: seq<Offer>, o: Offer)
    requires CategoriesBuilt(categories, order, offers)
    ensures var p := o.product;
            CategoriesBuilt(
              if o.category in categories then categories
              else categories[o.category := Category(o.category, p.categoryName, p.categoryPosition, [])],
              if o.category in categories then order else order + [o.category],
              offers + [o])
  {
    KeysMore(offers, o, CategoryOf);
    forall id: string
      ensures Group(offers + [o], CategoryOf, id) == Group(offers, CategoryOf, id) + if o.category == id then [o] else []
      ensures id in order <==> Group(offers, CategoryOf, id) != []
    {
      GroupMore(offers, o, CategoryOf, id);
      KeysHaveGroups(offers, CategoryOf, id);
    }
  }

  lemma CardGroupMore(offers: seq<Offer>, o: Offer, key: CardKey)
    ensures CardGroup(offers + [o], key)
         == CardGroup(offers, key) + if key == CardKey(o.category, o.product.code) then [o] else []
  {
    hide Group;
    var group := Group(offers, CategoryOf, key.category);
    GroupMore(offers, o, CategoryOf, key.category);
    if o.category == key.category {
      GroupMore(group, o, CodeOf, key.code);
    } else {
      assert group + [] == group;
      assert CardGroup(offers, key) + [] == CardGroup(offers, key);
    }
  }

  function WithVariant(l: Listing, v: Variant): Listing {
    l.(variants := l.variants + [v])
  }

  function NewCard(p: Product): Listing {
    Listing(p.code, p.name, p.description, p.order, [], VisibleBenefits(p.labels))
  }

  lemma CardGrows(offers: seq<Offer>, o: Offer, checkout: Checkout)
    ensures offers != [] ==> CardOf(offers + [o], checkout) == WithVariant(CardOf(offers, checkout), VariantOf(o, checkout))
    ensures CardOf([o], checkout) == WithVariant(NewCard(o.product), VariantOf(o, checkout))
  {
    FlatMapMore(offers, o, ToVariant(checkout));
    FlatMapMore([], o, ToVariant(checkout));
    assert [] + [o] == [o];
  }

  lemma CardsBuiltMore(cards: map<CardKey, Listing>, offers: seq<Offer>, o: Offer, checkout: Checkout)
    requires CardsBuilt(cards, offers, checkout)
    ensures var at := CardKey(o.category, o.product.code);
            var card := if at in cards then cards[at] else NewCard(o.product);
            CardsBuilt(cards[at := WithVariant(card, VariantOf(o, checkout))], offers + [o], checkout)
  {
    hide CardGroup, CardOf, WithVariant, NewCard, VariantOf;
    var at := CardKey(o.category, o.product.code);
    var card := if at in cards then cards[at] else NewCard(o.product);
    var later := cards[at := WithVariant(card, VariantOf(o, checkout))];
    CardGrows(CardGroup(offers, at), o, checkout);
    forall key: CardKey
      ensures key in later <==> CardGroup(offers + [o], key) != []
      ensures key in later ==> later[key] == CardOf(CardGroup(offers + [o], key), checkout)
    {
      CardGroupMore(offers, o, key);
      if key == at {
        assert CardGroup(offers, at) == [] ==> CardGroup(offers, at) + [o] == [o];
      } else {
        assert CardGroup(offers, key) + [] == CardGroup(offers, key);
      }
    }
  }

  /** The loop body, for a product with a category. */
  method AddProduct(categories: map<string, Category>, order: seq<string>, cards: map<CardKey, Listing>, p: Product, id: string,
                    price: real, ghost offers: seq<Offer>, checkout: Checkout)
    returns (categories': map<string, Category>, order': seq<string>, cards': map<CardKey, Listing>)
    requires CategoriesBuilt(categories, order, offers) && CardsBuilt(cards, offers, checkout)
    ensures CategoriesBuilt(categories', order', offers + [Offer(p, id, price)])
    ensures CardsBuilt(cards', offers + [Offer(p, id, price)], checkout)
  {
    hide CategoriesBuilt, CardsBuilt;
    var offer := Offer(p, id, price);
    CategoriesBuiltMore(categories, order, offers, offer);
    CardsBuiltMore(cards, offers, offer, checkout);
    categories', order' := categories, order;
    if id !in categories {
      categories' := categories[id := Category(id, p.categoryName, p.categoryPosition, [])];
      order' := order + [id];
    }
    var key := CardKey(id, p.code);
    var card := if key in cards then cards[key] else NewCard(p);
    cards' := cards[key := WithVariant(card, VariantOf(offer, checkout))];
  }

  lemma OffersMore(sorted: seq<Product>, i: nat)
    requires i < |sorted|
    ensures var p := sorted[i];
            var before, after := FlatMap(sorted[..i], OfferOf), FlatMap(sorted[..i + 1], OfferOf);
            && (Unpriced(p) <==> p.category.Some? && PriceWithTax(p) == None)
            && (p.category == None ==> after == before)
            && (p.category.Some? && PriceWithTax(p).Some? ==>
                  after == before + [Offer(p, p.category.value, PriceWithTax(p).value)])
  {
    hide PriceWithTax;
    assert sorted[..i + 1] == sorted[..i] + [sorted[i]];
    FlatMapMore(sorted[..i], sorted[i], OfferOf);
  }

  lemma UnpricedAt(products: seq<Product>, i: nat)
    requires i < |products|
    ensures Unpriced(products[i]) ==> SomeUnpriced(products)
    ensures !Unpriced(products[i]) && !SomeUnpriced(products[..i]) ==> !SomeUnpriced(products[..i + 1])
  {
    hide Unpriced;
    assert forall k :: 0 <= k < i ==> products[..i][k] == products[k];
  }

  method GroupProducts(sorted: seq<Product>, checkout: Checkout)
    returns (ok: bool, categories: map<string, Category>, order: seq<string>, cards: map<CardKey, Listing>)
    ensures ok <==> !SomeUnpriced(sorted)
    ensures ok ==> CategoriesBuilt(categories, order, FlatMap(sorted, OfferOf))
                   && CardsBuilt(cards, FlatMap(sorted, OfferOf), checkout)
  {
    categories, order, cards := map[], [], map[];
    NothingBuilt(checkout);
    assert FlatMap(sorted[..0], OfferOf) == [] && !SomeUnpriced(sorted[..0]);
    hide CategoriesBuilt, CardsBuilt, PriceWithTax, Unpriced, SomeUnpriced, FlatMap, OfferOf;
    for i := 0 to |sorted|
      invariant !SomeUnpriced(sorted[..i])
      invariant CategoriesBuilt(categories, order, FlatMap(sorted[..i], OfferOf))
      invariant CardsBuilt(cards, FlatMap(sorted[..i], OfferOf), checkout)
    {
      var p := sorted[i];
      OffersMore(sorted, i);
      UnpricedAt(sorted, i);
      if p.category == None {
        continue;
      }
      var priced := PriceWithTax(p);
      if priced == None {
        return false, categories, order, cards;
      }
      categories, order, cards :=
        AddProduct(categories, order, cards, p, p.category.value, priced.value, FlatMap(sorted[..i], OfferOf), checkout);
    }
    assert sorted[..|sorted|] == sorted;
    ok := true;
  }

  lemma NothingBuilt(checkout: Checkout)
    ensures CategoriesBuilt(map[], [], []) && CardsBuilt(map[], [], checkout)
  {
  }

  // ---------- the cards of one category ----------

  /** `l` holds, once each, the cards of category `id` among the keys walked so far. */
  ghost predicate Gathered(l: seq<Listing>, walked: set<CardKey>, cards: map<CardKey, Listing>, id: string)
    requires walked <= cards.Keys
  {
    && Distinct(l)
    && (forall x :: x in l <==> exists key :: key in walked && key.category == id && cards[key] == x)
  }

  lemma GatheredMore(l: seq<Listing>, walked: set<CardKey>, cards: map<CardKey, Listing>, id: string, key: CardKey)
    requires walked <= cards.Keys && Gathered(l, walked, cards, id) && key in cards && key !in walked
    requires forall k :: k in cards ==> cards[k].code == k.code
    ensures Gathered(if key.category == id then l + [cards[key]] else l, walked + {key}, cards, id)
  {
    var more := if key.category == id then l + [cards[key]] else l;
    if key.category == id {
      assert cards[key] !in l;
    }
    forall x ensures x in more <==> exists k :: k in walked + {key} && k.category == id && cards[k] == x {
      if x in more && x !in l {
        assert key in walked + {key} && cards[key] == x;
      }
      if x in l {
        var k :| k in walked && k.category == id && cards[k] == x;
        assert k in walked + {key};
      }
    }
  }

  lemma CardCodes(cards: map<CardKey, Listing>, offers: seq<Offer>, checkout: Checkout, key: CardKey)
    requires CardsBuilt(cards, offers, checkout) && key in cards
    ensures cards[key].code == key.code
  {
    GroupHas(Group(offers, CategoryOf, key.category), CodeOf, key.code, CardGroup(offers, key)[0]);
  }

  lemma CardsHave(offers: seq<Offer>, checkout: Checkout, x: Listing)
    ensures x in CardsOf(offers, checkout) <==>
              exists code :: Group(offers, CodeOf, code) != [] && CardOf(Group(offers, CodeOf, code), checkout) == x
  {
    var codes := Keys(offers, CodeOf);
    if x in CardsOf(offers, checkout) {
      var i :| 0 <= i < |codes| && CardsOf(offers, checkout)[i] == x;
      KeysHaveGroups(offers, CodeOf, codes[i]);
    }
    if code :| Group(offers, CodeOf, code) != [] && CardOf(Group(offers, CodeOf, code), checkout) == x {
      KeysHaveGroups(offers, CodeOf, code);
      var i :| 0 <= i < |codes| && codes[i] == code;
      assert CardsOf(offers, checkout)[i] == x;
    }
  }

  lemma CardCode(offers: seq<Offer>, code: string, checkout: Checkout)
    requires Group(offers, CodeOf, code) != []
    ensures CardOf(Group(offers, CodeOf, code), checkout).code == code
  {
    GroupHas(offers, CodeOf, code, Group(offers, CodeOf, code)[0]);
  }

  /** Codes are unique within a category. */
  lemma CardsHaveDistinctCodes(offers: seq<Offer>, checkout: Checkout)
    ensures var cards := CardsOf(offers, checkout);
            && (forall i :: 0 <= i < |cards| ==> cards[i].code == Keys(offers, CodeOf)[i])
            && (forall i, j :: 0 <= i < j < |cards| ==> cards[i].code != cards[j].code)
  {
    var codes := Keys(offers, CodeOf);
    KeysAreDistinct(offers, CodeOf);
    forall i | 0 <= i < |codes| ensures CardsOf(offers, checkout)[i].code == codes[i] {
      KeysHaveGroups(offers, CodeOf, codes[i]);
      CardCode(offers, codes[i], checkout);
    }
  }

  lemma CardsAreTieFree(offers: seq<Offer>, checkout: Checkout)
    ensures Distinct(CardsOf(offers, checkout)) && TieFree(CardsOf(offers, checkout), ListingLess)
  {
    hide CardsOf;
    CardsHaveDistinctCodes(offers, checkout);
    var cards := CardsOf(offers, checkout);
    forall x, y | x in cards && y in cards && Ties(ListingLess, x, y) ensures x == y {
      LessIsTotal(x.code, y.code);
      var i :| 0 <= i < |cards| && cards[i] == x;
      var j :| 0 <= j < |cards| && cards[j] == y;
      assert i == j;
    }
  }

  lemma GatheredHas(l: seq<Listing>, cards: map<CardKey, Listing>, offers: seq<Offer>, id: string, checkout: Checkout, x: Listing)
    requires CardsBuilt(cards, offers, checkout) && Gathered(l, cards.Keys, cards, id)
    ensures x in l <==> x in CardsOf(Group(offers, CategoryOf, id), checkout)
  {
    hide CardsOf, CardOf, Group;
    var group := Group(offers, CategoryOf, id);
    CardsHave(group, checkout, x);
    if x in l {
      var key :| key in cards.Keys && key.category == id && cards[key] == x;
      assert Group(group, CodeOf, key.code) == CardGroup(offers, key);
    }
    if code :| Group(group, CodeOf, code) != [] && CardOf(Group(group, CodeOf, code), checkout) == x {
      assert CardGroup(offers, CardKey(id, code)) == Group(group, CodeOf, code);
      assert CardKey(id, code) in cards.Keys;
    }
  }

  /** Whatever the order of the walk, sorting gives the same cards. */
  lemma GatheredIsCards(l: seq<Listing>, cards: map<CardKey, Listing>, offers: seq<Offer>, id: string, checkout: Checkout)
    requires CardsBuilt(cards, offers, checkout) && Gathered(l, cards.Keys, cards, id)
    ensures Sort(l, ListingLess) == Sort(CardsOf(Group(offers, CategoryOf, id), checkout), ListingLess)
  {
    hide CardsOf, Group, CardsBuilt;
    var group := Group(offers, CategoryOf, id);
    forall x ensures x in l <==> x in CardsOf(group, checkout) {
      GatheredHas(l, cards, offers, id, checkout, x);
    }
    CardsAreTieFree(group, checkout);
    DistinctAgree(l, CardsOf(group, checkout));
    SameSort(l, CardsOf(group, checkout));
  }

  lemma SameSort(a: seq<Listing>, b: seq<Listing>)
    requires multiset(a) == multiset(b) && TieFree(b, ListingLess)
    ensures Sort(a, ListingLess) == Sort(b, ListingLess)
  {
    ListingOrder();
    SortIsStable(a, ListingLess);
    SortIsStable(b, ListingLess);
    forall x ensures x in Sort(b, ListingLess) <==> x in b {
      assert x in multiset(Sort(b, ListingLess)) <==> x in multiset(b);
    }
    OrderedIsUnique(Sort(b, ListingLess), Sort(a, ListingLess), ListingLess);
  }

  method ListingsOf(cards: map<CardKey, Listing>, id: string, ghost offers: seq<Offer>, ghost checkout: Checkout)
    returns (l: seq<Listing>)
    requires CardsBuilt(cards, offers, checkout)
    ensures l == Sort(CardsOf(Group(offers, CategoryOf, id), checkout), ListingLess)
  {
    l := [];
    var left := cards.Keys;
    ghost var walked: set<CardKey> := {};
    assert Gathered(l, walked, cards, id);
    forall k | k in cards ensures cards[k].code == k.code {
      CardCodes(cards, offers, checkout, k);
    }
    hide Gathered, CardsBuilt;
    while left != {}
      invariant left !! walked && left + walked == cards.Keys
      invariant walked <= cards.Keys && Gathered(l, walked, cards, id)
      decreases left
    {
      var key :| key in left;
      GatheredMore(l, walked, cards, id, key);
      if key.category == id {
        l := l + [cards[key]];
      }
      left, walked := left - {key}, walked + {key};
    }
    GatheredIsCards(l, cards, offers, id, checkout);
    l := Sort(l, ListingLess);
  }

  /** The loop over the categories, in the order of their first products. */
  method Assemble(categories: map<string, Category>, order: seq<string>, cards: map<CardKey, Listing>,
                  ghost offers: seq<Offer>, ghost checkout: Checkout)
    returns (out: seq<Category>)
    requires CategoriesBuilt(categories, order, offers) && CardsBuilt(cards, offers, checkout)
    ensures out == CategoriesOf(offers, checkout)
  {
    hide CardsBuilt, CardsOf, Group;
    out := [];
    for i := 0 to |order|
      invariant |out| == i
      invariant forall k :: 0 <= k < i ==>
                  Group(offers, CategoryOf, order[k]) != []
                  && out[k] == CategoryAt(order[k], Group(offers, CategoryOf, order[k]), checkout)
    {
      var id := order[i];
      assert id in categories;
      var listings := ListingsOf(cards, id, offers, checkout);
      out := out + [categories[id].(listings := listings)];
    }
    assert out == CategoriesOf(offers, checkout);
  }

  /** `buildPublicCatalog`: one result, in whatever order Go walks the map of cards. */
  method BuildPublicCatalog(products: seq<Product>, checkout: Checkout) returns (result: Option<seq<Category>>)
    ensures result == CatalogOf(products, checkout)
  {
    hide CardsBuilt, CategoriesBuilt, CategoriesOf, Unpriced;
    var sorted := Sort(products, VariantLess);
    SortedFailsAlike(products);
    var ok, categories, order, cards := GroupProducts(sorted, checkout);
    if !ok {
      return None;
    }
    var out := Assemble(categories, order, cards, OffersOf(products), checkout);
    return Some(Sort(out, CategoryLess));
  }

  predicate SomeUnpriced(products: seq<Product>) {
    exists i :: 0 <= i < |products| && Unpriced(products[i])
  }

  lemma SortedFailsAlike(products: seq<Product>)
    ensures SomeUnpriced(Sort(products, VariantLess)) <==> SomeUnpriced(products)
  {
    hide Unpriced;
    VariantOrder();
    var sorted := Sort(products, VariantLess);
    SortIsStable(products, VariantLess);
    if SomeUnpriced(sorted) {
      var i :| 0 <= i < |sorted| && Unpriced(sorted[i]);
      assert sorted[i] in multiset(products);
    }
    if SomeUnpriced(products) {
      var i :| 0 <= i < |products| && Unpriced(products[i]);
      assert products[i] in multiset(sorted);
    }
  }

  // ---------- no product lost, none shown twice ----------

  function VariantsOfCard(l: Listing): seq<Variant> {
    l.variants
  }

  function VariantsIn(c: Category): seq<Variant> {
    FlatMap(c.listings, VariantsOfCard)
  }

  function AllVariants(catalog: seq<Category>): seq<Variant> {
    FlatMap(catalog, VariantsIn)
  }

  lemma {:induction false} CardsVariants(codes: seq<string>, offers: seq<Offer>, checkout: Checkout)
    requires forall i :: 0 <= i < |codes| ==> Group(offers, CodeOf, codes[i]) != []
    ensures FlatMap(Cards(codes, offers, checkout), VariantsOfCard) == Variants(Regrouped(codes, offers, CodeOf), checkout)
    decreases |codes|
  {
    if codes != [] {
      var front, last := codes[..|codes| - 1], codes[|codes| - 1];
      CardsVariants(front, offers, checkout);
      CardsLast(codes, offers, checkout);
      hide Group, Regrouped, FlatMap, Cards, CardOf, Variants;
      var group := Group(offers, CodeOf, last);
      FlatMapMore(Cards(front, offers, checkout), CardOf(group, checkout), VariantsOfCard);
      VariantsConcat(Regrouped(front, offers, CodeOf), group, checkout);
      RegroupedLast(codes, offers, CodeOf);
      CardVariants(group, checkout);
    }
  }

  lemma CardVariants(offers: seq<Offer>, checkout: Checkout)
    requires offers != []
    ensures VariantsOfCard(CardOf(offers, checkout)) == Variants(offers, checkout)
  {
  }

  lemma CardsLast(codes: seq<string>, offers: seq<Offer>, checkout: Checkout)
    requires codes != [] && forall i :: 0 <= i < |codes| ==> Group(offers, CodeOf, codes[i]) != []
    ensures Cards(codes, offers, checkout)
         == Cards(codes[..|codes| - 1], offers, checkout) + [CardOf(Group(offers, CodeOf, codes[|codes| - 1]), checkout)]
  {
    hide Group, CardOf;
  }

  lemma RegroupedLast<T, K>(keys: seq<K>, s: seq<T>, f: T -> K)
    requires keys != []
    ensures Regrouped(keys, s, f) == Regrouped(keys[..|keys| - 1], s, f) + Group(s, f, keys[|keys| - 1])
  {
  }

  lemma CategoryVariants(id: string, group: seq<Offer>, checkout: Checkout)
    requires group != []
    ensures multiset(VariantsIn(CategoryAt(id, group, checkout))) == multiset(Variants(group, checkout))
  {
    hide Sort, Group, Regrouped, FlatMap, Keys;
    var codes := Keys(group, CodeOf);
    var cards := CardsOf(group, checkout);
    ListingOrder();
    SortIsStable(cards, ListingLess);
    FlatMapPermutes(Sort(cards, ListingLess), cards, VariantsOfCard);
    AllHaveGroups(group, CodeOf);
    CardsVariants(codes, group, checkout);
    KeysAreDistinct(group, CodeOf);
    KeysCover(group, CodeOf);
    GroupsPartition(codes, group, CodeOf);
    FlatMapPermutes(Regrouped(codes, group, CodeOf), group, ToVariant(checkout));
  }

  lemma {:induction false} CategoriesVariants(ids: seq<string>, offers: seq<Offer>, checkout: Checkout)
    requires forall i :: 0 <= i < |ids| ==> Group(offers, CategoryOf, ids[i]) != []
    ensures multiset(FlatMap(Categories(ids, offers, checkout), VariantsIn))
         == multiset(Variants(Regrouped(ids, offers, CategoryOf), checkout))
    decreases |ids|
  {
    if ids != [] {
      var front, last := ids[..|ids| - 1], ids[|ids| - 1];
      CategoriesVariants(front, offers, checkout);
      var group := Group(offers, CategoryOf, last);
      hide Group, Regrouped, CategoryAt, VariantsIn, FlatMap;
      var c := CategoryAt(last, group, checkout);
      var before, regrouped := Categories(front, offers, checkout), Regrouped(front, offers, CategoryOf);
      CategoriesLast(ids, offers, checkout);
      hide Categories, Variants;
      FlatMapMore(before, c, VariantsIn);
      CategoryVariants(last, group, checkout);
      RegroupedLast(ids, offers, CategoryOf);
      VariantsConcat(regrouped, group, checkout);
      SumsAreEqual(FlatMap(before, VariantsIn), Variants(regrouped, checkout), VariantsIn(c), Variants(group, checkout));
    }
  }

  lemma VariantsConcat(a: seq<Offer>, b: seq<Offer>, checkout: Checkout)
    ensures Variants(a + b, checkout) == Variants(a, checkout) + Variants(b, checkout)
  {
    FlatMapConcat(a, b, ToVariant(checkout));
  }

  lemma CategoriesLast(ids: seq<string>, offers: seq<Offer>, checkout: Checkout)
    requires ids != [] && forall i :: 0 <= i < |ids| ==> Group(offers, CategoryOf, ids[i]) != []
    ensures Categories(ids, offers, checkout)
         == Categories(ids[..|ids| - 1], offers, checkout)
            + [CategoryAt(ids[|ids| - 1], Group(offers, CategoryOf, ids[|ids| - 1]), checkout)]
  {
    hide Group, CategoryAt;
  }

  lemma SumsAreEqual<T>(a: seq<T>, b: seq<T>, c: seq<T>, d: seq<T>)
    requires multiset(a) == multiset(b) && multiset(c) == multiset(d)
    ensures multiset(a + c) == multiset(b + d)
  {
  }

  /** The variants shown are, each as often, exactly those of the products with a category. */
  lemma CatalogConserves(products: seq<Product>, checkout: Checkout)
    requires CatalogOf(products, checkout).Some?
    ensures multiset(AllVariants(CatalogOf(products, checkout).value))
         == multiset(Variants(FlatMap(products, OfferOf), checkout))
  {
    hide Sort, Group, Regrouped, FlatMap, Keys, Categories, VariantsIn;
    var offers := OffersOf(products);
    var ids, categories := Keys(offers, CategoryOf), CategoriesOf(offers, checkout);
    CategoryOrder();
    SortIsStable(categories, CategoryLess);
    FlatMapPermutes(Sort(categories, CategoryLess), categories, VariantsIn);
    AllHaveGroups(offers, CategoryOf);
    CategoriesVariants(ids, offers, checkout);
    KeysAreDistinct(offers, CategoryOf);
    KeysCover(offers, CategoryOf);
    GroupsPartition(ids, offers, CategoryOf);
    FlatMapPermutes(Regrouped(ids, offers, CategoryOf), offers, ToVariant(checkout));
    OffersPermute(products);
    FlatMapPermutes(offers, FlatMap(products, OfferOf), ToVariant(checkout));
  }

  lemma OffersPermute(products: seq<Product>)
    ensures multiset(OffersOf(products)) == multiset(FlatMap(products, OfferOf))
  {
    VariantOrder();
    SortIsStable(products, VariantLess);
    FlatMapPermutes(Sort(products, VariantLess), products, OfferOf);
  }

  // ---------- one category per id, one card per code, all in order ----------

  ghost predicate OneCardPerCode(listings: seq<Listing>) {
    Distinct(listings) && forall x, y :: x in listings && y in listings && x.code == y.code ==> x == y
  }

  ghost predicate OneCategoryPerId(catalog: seq<Category>) {
    Distinct(catalog) && forall x, y :: x in catalog && y in catalog && x.id == y.id ==> x == y
  }

  lemma CategoryHasOneCardPerCode(id: string, group: seq<Offer>, checkout: Checkout)
    requires group != []
    ensures var listings := CategoryAt(id, group, checkout).listings;
            Ordered(listings, ListingLess) && OneCardPerCode(listings)
            && forall x :: x in listings <==> x in CardsOf(group, checkout)
  {
    hide CardsOf, Sort;
    var cards := CardsOf(group, checkout);
    var listings := Sort(cards, ListingLess);
    ListingOrder();
    SortIsStable(cards, ListingLess);
    CardsAreTieFree(group, checkout);
    DistinctPermutes(cards, listings);
    CardsHaveDistinctCodes(group, checkout);
    forall x ensures x in listings <==> x in cards {
      assert x in multiset(listings) <==> x in multiset(cards);
    }
    forall x, y | x in listings && y in listings && x.code == y.code ensures x == y {
      var i :| 0 <= i < |cards| && cards[i] == x;
      var j :| 0 <= j < |cards| && cards[j] == y;
      assert i == j;
    }
  }

  lemma CatalogHas(products: seq<Product>, checkout: Checkout, c: Category)
    requires CatalogOf(products, checkout).Some?
    ensures c in CatalogOf(products, checkout).value <==>
              var offers := OffersOf(products);
              c.id in Keys(offers, CategoryOf) && Group(offers, CategoryOf, c.id) != []
              && c == CategoryAt(c.id, Group(offers, CategoryOf, c.id), checkout)
  {
    hide Sort, Group, Keys, OffersOf;
    var offers := OffersOf(products);
    var ids, categories := Keys(offers, CategoryOf), CategoriesOf(offers, checkout);
    CategoryOrder();
    SortIsStable(categories, CategoryLess);
    assert c in multiset(Sort(categories, CategoryLess)) <==> c in multiset(categories);
    AllHaveGroups(offers, CategoryOf);
    if c in categories {
      var i :| 0 <= i < |ids| && categories[i] == c;
      assert c.id == ids[i];
    }
    if c.id in ids {
      var i :| 0 <= i < |ids| && ids[i] == c.id;
      assert categories[i] == CategoryAt(c.id, Group(offers, CategoryOf, c.id), checkout);
    }
  }

  /** Categories come by position and name, one per id; within each, cards come by order and code, one per code. */
  lemma CatalogIsOrdered(products: seq<Product>, checkout: Checkout)
    requires CatalogOf(products, checkout).Some?
    ensures var catalog := CatalogOf(products, checkout).value;
            && Ordered(catalog, CategoryLess) && OneCategoryPerId(catalog)
            && (forall c :: c in catalog ==> Ordered(c.listings, ListingLess) && OneCardPerCode(c.listings))
            && (forall i, j :: 0 <= i < j < |catalog| ==>
                  || catalog[i].position < catalog[j].position
                  || (catalog[i].position == catalog[j].position && !Less(catalog[j].name, catalog[i].name)))
            && forall c :: c in catalog ==> ListingsComeBy(c.listings)
  {
    hide Sort, Group, Keys, OffersOf, CategoryAt, OneCardPerCode;
    var offers := OffersOf(products);
    var catalog, categories := CatalogOf(products, checkout).value, CategoriesOf(offers, checkout);
    CategoryOrder();
    SortIsStable(categories, CategoryLess);
    CategoriesAreDistinct(offers, checkout);
    DistinctPermutes(categories, catalog);
    forall x, y | x in catalog && y in catalog && x.id == y.id ensures x == y {
      CatalogHas(products, checkout, x);
      CatalogHas(products, checkout, y);
    }
    forall c | c in catalog
      ensures Ordered(c.listings, ListingLess) && OneCardPerCode(c.listings) && ListingsComeBy(c.listings)
    {
      CatalogHas(products, checkout, c);
      CategoryHasOneCardPerCode(c.id, Group(offers, CategoryOf, c.id), checkout);
      OrderedListings(c.listings);
    }
    CategoriesComeBy(catalog);
  }

  /** By order, and by code where that is the same. */
  ghost predicate ListingsComeBy(listings: seq<Listing>) {
    forall i, j :: 0 <= i < j < |listings| ==>
      || listings[i].order < listings[j].order
      || (listings[i].order == listings[j].order && Less(listings[i].code, listings[j].code))
  }

  lemma OrderedListings(listings: seq<Listing>)
    requires Ordered(listings, ListingLess) && OneCardPerCode(listings)
    ensures ListingsComeBy(listings)
  {
    forall i, j | 0 <= i < j < |listings|
      ensures || listings[i].order < listings[j].order
              || (listings[i].order == listings[j].order && Less(listings[i].code, listings[j].code))
    {
      assert listings[i] in listings && listings[j] in listings && listings[i] != listings[j];
      LessIsTotal(listings[i].code, listings[j].code);
    }
  }

  lemma CategoriesComeBy(catalog: seq<Category>)
    requires Ordered(catalog, CategoryLess)
    ensures forall i, j :: 0 <= i < j < |catalog| ==>
              || catalog[i].position < catalog[j].position
              || (catalog[i].position == catalog[j].position && !Less(catalog[j].name, catalog[i].name))
  {
    forall i, j | 0 <= i < j < |catalog| ensures !CategoryLess(catalog[j], catalog[i]) {
    }
  }

  lemma CategoriesAreDistinct(offers: seq<Offer>, checkout: Checkout)
    ensures Distinct(CategoriesOf(offers, checkout))
  {
    hide Sort, Group, Keys;
    KeysAreDistinct(offers, CategoryOf);
    var ids, categories := Keys(offers, CategoryOf), CategoriesOf(offers, checkout);
    forall i, j | 0 <= i < j < |categories| ensures categories[i] != categories[j] {
      assert categories[i].id == ids[i] && categories[j].id == ids[j];
    }
  }

  // ---------- the face of a card ----------

  /** The card looks like its first offer, which no other offer of the card precedes. */
  ghost predicate FaceOf(o: Offer, offers: seq<Offer>, l: Listing, checkout: Checkout) {
    var p := o.product;
    && l.name == p.name && l.description == p.description && l.order == p.order && l.code == p.code
    && l.benefits == VisibleBenefits(p.labels)
    && l.variants != [] && l.variants[0] == VariantOf(o, checkout)
    && forall other :: other in offers && other.category == o.category && other.product.code == p.code ==>
         !VariantLess(other.product, p)
  }

  lemma {:induction false} FlatMapOffers(products: seq<Product>)
    requires Ordered(products, VariantLess)
    ensures Ordered(FlatMap(products, OfferOf), (a: Offer, b: Offer) => VariantLess(a.product, b.product))
    ensures forall o :: o in FlatMap(products, OfferOf) ==> o.product in products
    decreases |products|
  {
    hide PriceWithTax, VariantLess;
    if products != [] {
      var front, last := products[..|products| - 1], products[|products| - 1];
      FlatMapOffers(front);
      assert products == front + [last];
      forall p | p in front ensures !VariantLess(last, p) {
        var i :| 0 <= i < |front| && front[i] == p;
        assert !VariantLess(products[|products| - 1], products[i]);
      }
    }
  }

  lemma OffersAreOrdered(products: seq<Product>)
    ensures Ordered(OffersOf(products), OfferLess)
  {
    VariantOrder();
    SortIsStable(products, VariantLess);
    hide VariantLess;
    FlatMapOffers(Sort(products, VariantLess));
    assert forall a, b :: OfferLess(a, b) <==> VariantLess(a.product, b.product);
    var offers := FlatMap(Sort(products, VariantLess), OfferOf);
    forall i, j | 0 <= i < j < |offers| ensures !OfferLess(offers[j], offers[i]) {
      assert !((a: Offer, b: Offer) => VariantLess(a.product, b.product))(offers[j], offers[i]);
    }
  }

  predicate OfferLess(a: Offer, b: Offer) {
    VariantLess(a.product, b.product)
  }

  lemma VariantsAt(offers: seq<Offer>, checkout: Checkout)
    ensures |Variants(offers, checkout)| == |offers|
    ensures forall i :: 0 <= i < |offers| ==> Variants(offers, checkout)[i] == VariantOf(offers[i], checkout)
    decreases |offers|
  {
    if offers != [] {
      VariantsAt(offers[..|offers| - 1], checkout);
    }
  }

  /** The order of variants, on the variants themselves. */
  predicate VariantBefore(a: Variant, b: Variant) {
    var ra, rb := FrequencyRank(a.attrs.frequency), FrequencyRank(b.attrs.frequency);
    if ra != rb then ra < rb else Less(a.sku, b.sku)
  }

  lemma CardIsOfItsGroup(products: seq<Product>, checkout: Checkout, c: Category, l: Listing)
    requires CatalogOf(products, checkout).Some? && c in CatalogOf(products, checkout).value && l in c.listings
    ensures var group := CardGroup(OffersOf(products), CardKey(c.id, l.code));
            group != [] && l == CardOf(group, checkout)
  {
    hide Sort, Group, Keys, OffersOf, CardsOf;
    var offers := OffersOf(products);
    CatalogHas(products, checkout, c);
    var inCategory := Group(offers, CategoryOf, c.id);
    CategoryHasOneCardPerCode(c.id, inCategory, checkout);
    CardsHave(inCategory, checkout, l);
    var code :| Group(inCategory, CodeOf, code) != [] && CardOf(Group(inCategory, CodeOf, code), checkout) == l;
    CardCode(inCategory, code, checkout);
  }

  lemma CardGroupIsOrdered(products: seq<Product>, key: CardKey)
    ensures Ordered(CardGroup(OffersOf(products), key), OfferLess)
  {
    hide Group, OffersOf;
    var offers := OffersOf(products);
    OffersAreOrdered(products);
    GroupIsOrdered(offers, CategoryOf, key.category, OfferLess);
    GroupIsOrdered(Group(offers, CategoryOf, key.category), CodeOf, key.code, OfferLess);
  }

  lemma CardGroupHas(offers: seq<Offer>, key: CardKey, o: Offer)
    ensures o in CardGroup(offers, key) <==> o in offers && o.category == key.category && o.product.code == key.code
  {
    GroupHas(offers, CategoryOf, key.category, o);
    GroupHas(Group(offers, CategoryOf, key.category), CodeOf, key.code, o);
  }

  lemma CardGroupPermutes(a: seq<Offer>, b: seq<Offer>, key: CardKey)
    requires multiset(a) == multiset(b)
    ensures multiset(CardGroup(a, key)) == multiset(CardGroup(b, key))
  {
    hide Group;
    GroupPermutes(a, b, CategoryOf, key.category);
    GroupPermutes(Group(a, CategoryOf, key.category), Group(b, CategoryOf, key.category), CodeOf, key.code);
  }

  /** The variants of every card come by frequency and SKU, and are, each as often, exactly those of the products with
      its category and code. */
  lemma CardHoldsItsVariants(products: seq<Product>, checkout: Checkout, c: Category, l: Listing)
    requires CatalogOf(products, checkout).Some? && c in CatalogOf(products, checkout).value && l in c.listings
    ensures Ordered(l.variants, VariantBefore)
    ensures multiset(l.variants) == multiset(Variants(CardGroup(FlatMap(products, OfferOf), CardKey(c.id, l.code)), checkout))
  {
    hide Sort, Group, Keys, OffersOf, FlatMap, CardGroup, OfferOf;
    var key := CardKey(c.id, l.code);
    var group := CardGroup(OffersOf(products), key);
    CardIsOfItsGroup(products, checkout, c, l);
    CardGroupIsOrdered(products, key);
    VariantsAt(group, checkout);
    forall i, j | 0 <= i < j < |l.variants| ensures !VariantBefore(l.variants[j], l.variants[i]) {
      assert !OfferLess(group[j], group[i]);
    }
    OffersPermute(products);
    CardGroupPermutes(OffersOf(products), FlatMap(products, OfferOf), key);
    FlatMapPermutes(group, CardGroup(FlatMap(products, OfferOf), key), ToVariant(checkout));
  }

  lemma {:induction false} OffersAre(products: seq<Product>, o: Offer)
    ensures o in FlatMap(products, OfferOf) <==>
              o.product in products && o.product.category == Some(o.category) && PriceWithTax(o.product) == Some(o.price)
    decreases |products|
  {
    hide PriceWithTax;
    if products != [] {
      OffersAre(products[..|products| - 1], o);
      assert products == products[..|products| - 1] + [products[|products| - 1]];
    }
  }

  /** The variant shows the product, its price with tax, and whether it can be checked out. */
  ghost predicate Shows(v: Variant, p: Product, checkout: Checkout) {
    && v.productId == p.id && v.sku == p.sku && v.attrs == p.attrs && v.currency == p.currency
    && v.basePrice == p.basePrice && v.taxPercent == p.taxPercent
    && Some(v.priceWithTax) == PriceWithTax(p) && v.checkout == checkout(p)
  }

  /** Every variant shows a product of its category and card, and every product with a category is shown there. */
  lemma CardShowsProducts(products: seq<Product>, checkout: Checkout, c: Category, l: Listing)
    requires CatalogOf(products, checkout).Some? && c in CatalogOf(products, checkout).value && l in c.listings
    ensures forall v :: v in l.variants ==>
              exists p :: p in products && p.category == Some(c.id) && p.code == l.code && Shows(v, p, checkout)
    ensures forall p :: p in products && p.category == Some(c.id) && p.code == l.code ==>
              exists v :: v in l.variants && Shows(v, p, checkout)
  {
    hide Sort, Group, Keys, OffersOf, FlatMap, CardGroup, OfferOf, PriceWithTax;
    var offers, key := OffersOf(products), CardKey(c.id, l.code);
    var group := CardGroup(offers, key);
    CardIsOfItsGroup(products, checkout, c, l);
    VariantsAt(group, checkout);
    forall v | v in l.variants
      ensures exists p :: p in products && p.category == Some(c.id) && p.code == l.code && Shows(v, p, checkout)
    {
      var i :| 0 <= i < |group| && l.variants[i] == v;
      OfferIsOfProduct(products, group[i]);
      CardGroupHas(offers, key, group[i]);
      assert Shows(v, group[i].product, checkout);
    }
    forall p | p in products && p.category == Some(c.id) && p.code == l.code
      ensures exists v :: v in l.variants && Shows(v, p, checkout)
    {
      PricedIfShown(products, checkout, p);
      var o := Offer(p, c.id, PriceWithTax(p).value);
      OfferIsOfProduct(products, o);
      CardGroupHas(offers, key, o);
      var i :| 0 <= i < |group| && group[i] == o;
      assert Shows(l.variants[i], p, checkout);
    }
  }

  lemma OfferIsOfProduct(products: seq<Product>, o: Offer)
    ensures o in OffersOf(products) <==>
              o.product in products && o.product.category == Some(o.category) && PriceWithTax(o.product) == Some(o.price)
  {
    hide FlatMap, PriceWithTax;
    OffersPermute(products);
    assert o in multiset(OffersOf(products)) <==> o in multiset(FlatMap(products, OfferOf));
    OffersAre(products, o);
  }

  lemma PricedIfShown(products: seq<Product>, checkout: Checkout, p: Product)
    requires CatalogOf(products, checkout).Some? && p in products && p.category.Some?
    ensures PriceWithTax(p).Some?
  {
    hide PriceWithTax;
    var i :| 0 <= i < |products| && products[i] == p;
    assert Unpriced(p) ==> SomeUnpriced(products);
  }

  /** Every category and card that a product names is shown. */
  lemma CategoryIsShown(products: seq<Product>, checkout: Checkout, p: Product) returns (c: Category, l: Listing)
    requires CatalogOf(products, checkout).Some? && p in products && p.category.Some?
    ensures c in CatalogOf(products, checkout).value && l in c.listings && p.category == Some(c.id) && p.code == l.code
  {
    hide Sort, Group, Keys, OffersOf, FlatMap, OfferOf, PriceWithTax, CardsOf;
    PricedIfShown(products, checkout, p);
    var offers, o := OffersOf(products), Offer(p, p.category.value, PriceWithTax(p).value);
    OfferIsOfProduct(products, o);
    GroupHas(offers, CategoryOf, o.category, o);
    KeysHaveGroups(offers, CategoryOf, o.category);
    var group := Group(offers, CategoryOf, o.category);
    c := CategoryAt(o.category, group, checkout);
    CatalogHas(products, checkout, c);
    GroupHas(group, CodeOf, p.code, o);
    CategoryHasOneCardPerCode(c.id, group, checkout);
    l := CardOf(Group(group, CodeOf, p.code), checkout);
    CardsHave(group, checkout, l);
    CardCode(group, p.code, checkout);
  }

  /** A readable price that is not negative, a tax that is a percentage, a name of 1 to 500 characters, accepted attributes. */
  predicate Sellable(p: Product) {
    && !p.basePrice.Garbled? && (p.basePrice.Number? ==> p.basePrice.value >= 0.0)
    && !p.taxPercent.Garbled? && (p.taxPercent.Number? ==> 0.0 <= p.taxPercent.value <= 100.0)
    && 1 <= |TrimSpace(p.name)| <= 500 && Pricing.Normalize(p.attrs).Some?
  }

  lemma PricedIffSellable(p: Product)
    ensures PriceWithTax(p).Some? <==> Sellable(p)
  {
    hide ParseLine, TrimSpace, Pricing.Normalize, PriceWithTax;
    PriceWithTaxIs(p);
    RefusedIff(PriceInput(p)[0]);
  }

  /** There is no catalog iff some product with a category cannot be sold as it is. */
  lemma NoCatalogIff(products: seq<Product>, checkout: Checkout)
    ensures CatalogOf(products, checkout) == None <==> exists p :: p in products && p.category.Some? && !Sellable(p)
  {
    hide PriceWithTax, Sellable;
    forall p: Product ensures PriceWithTax(p).Some? <==> Sellable(p) {
      PricedIffSellable(p);
    }
  }

  /** The labels of a product that are not blank, in their order. */
  lemma BenefitsAre(labels: seq<string>, more: seq<string>, text: string)
    ensures VisibleBenefits([text]) == if text == "" then [] else [text]
    ensures VisibleBenefits(labels + more) == VisibleBenefits(labels) + VisibleBenefits(more)
  {
    assert FlatMap([text][..0], (t: string) => if t != "" then [t] else []) == [];
    FlatMapConcat(labels, more, (t: string) => if t != "" then [t] else []);
  }

  /** Each card of each category shows the least of its products, by frequency and then SKU. */
  lemma CardShowsLeast(products: seq<Product>, checkout: Checkout, c: Category, l: Listing) returns (o: Offer)
    requires CatalogOf(products, checkout).Some? && c in CatalogOf(products, checkout).value && l in c.listings
    ensures o in OffersOf(products) && o.category == c.id && FaceOf(o, OffersOf(products), l, checkout)
  {
    hide Sort, Group, Keys, OffersOf, CardGroup;
    var offers, key := OffersOf(products), CardKey(c.id, l.code);
    var group := CardGroup(offers, key);
    CardIsOfItsGroup(products, checkout, c, l);
    o := group[0];
    CardGroupHas(offers, key, o);
    CardGroupIsOrdered(products, key);
    VariantsAt(group, checkout);
    VariantOrder();
    forall other | other in offers && other.category == c.id && other.product.code == l.code
      ensures !VariantLess(other.product, o.product)
    {
      CardGroupHas(offers, key, other);
      var i :| 0 <= i < |group| && group[i] == other;
      assert i > 0 ==> !OfferLess(group[i], group[0]);
    }
  }

  // ---------- the order of the input ----------

  /** When no two different products tie on frequency and SKU, the order they are read in is of no matter. */
  lemma InputOrderIsIrrelevant(a: seq<Product>, b: seq<Product>, checkout: Checkout)
    requires multiset(a) == multiset(b) && TieFree(a, VariantLess)
    ensures CatalogOf(a, checkout) == CatalogOf(b, checkout)
  {
    hide SomeUnpriced, Sort;
    VariantOrder();
    SortIsStable(a, VariantLess);
    SortIsStable(b, VariantLess);
    forall x ensures x in Sort(a, VariantLess) <==> x in a {
      assert x in multiset(Sort(a, VariantLess)) <==> x in multiset(a);
    }
    OrderedIsUnique(Sort(a, VariantLess), Sort(b, VariantLess), VariantLess);
    SortedFailsAlike(a);
    SortedFailsAlike(b);
  }
}
