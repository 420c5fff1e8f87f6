/** Marketplace offers: made from catalog items, then sorted, reduced to one per listing, and cut. */
module Offers {
  import opened Numbers
  import opened Options
  import opened Sorting

  const MAX_OFFERS: nat := 20

  /** A floating-point price. */
  datatype Price = Finite(amount: real) | NotFinite

  datatype Product = Product(id: string, name: string, thumbnail: Option<string>)
  datatype Item = Item(id: string, price: Price, originalPrice: Option<Price>, currencyId: string,
                       condition: Option<string>)
  datatype Offer = Offer(id: string, title: string, price: real, originalPrice: Option<real>,
                         discountPercent: Option<int>, currencyId: string,
                         permalink: string, thumbnail: Option<string>, condition: Option<string>)

  // ---------------------------------------------------------------- one offer

  predicate IsBlank(text: string) { forall c :: c in text ==> c == ' ' || '\t' <= c <= '\r' }

  /** Rounding of a non-negative number, halves up. */
  function Round(x: real): int { (x + 0.5).Floor }

  function Clamp(n: int, low: int, high: int): int { if n < low then low else if n > high then high else n }

  function FromCatalogItem(product: Product, item: Item): Option<Offer> {
    if IsBlank(item.id) || IsBlank(product.name) || item.price.NotFinite? || item.price.amount < 0.0
       || IsBlank(item.currencyId) then None
    else
      var price := item.price.amount;
      var original :=
        if item.originalPrice.Some? && item.originalPrice.value.Finite? && item.originalPrice.value.amount > price
        then Some(item.originalPrice.value.amount) else None;
      var discount :=
        if original.Some? then Some(Clamp(Round((original.value - price) / original.value * 100.0), 0, 100)) else None;
      Some(Offer(item.id, product.name, price, original, discount, item.currencyId,
                 "https://www.mercadolivre.com.br/p/" + product.id, product.thumbnail, item.condition))
  }

  lemma ShareOfWhole(part: real, whole: real)
    requires 0.0 <= part <= whole && 0.0 < whole
    ensures 0.0 <= part / whole <= 1.0
  {
  }

  /** A discount is shown exactly when the original price is a number above the price; it is the nearest
      whole percentage, and the clamp to 0..100 never has to act. */
  lemma DiscountIsNearest(product: Product, item: Item)
    requires FromCatalogItem(product, item).Some?
    ensures var offer := FromCatalogItem(product, item).value;
            && (offer.discountPercent.Some? <==>
                  && item.originalPrice.Some? && item.originalPrice.value.Finite?
                  && item.originalPrice.value.amount > offer.price)
            && (offer.discountPercent.Some? ==>
                  var original := item.originalPrice.value.amount;
                  var exact := (original - offer.price) / original * 100.0;
                  && 0 <= offer.discountPercent.value <= 100
                  && offer.discountPercent.value as real - 0.5 <= exact < offer.discountPercent.value as real + 0.5)
  {
    var offer := FromCatalogItem(product, item).value;
    if offer.discountPercent.Some? {
      var original := item.originalPrice.value.amount;
      ShareOfWhole(original - offer.price, original);
    }
  }

  // ---------------------------------------------------------------- the best offers

  /** A candidate with its place in the order in which candidates were collected. */
  datatype Candidate = Candidate(place: nat, offer: Offer)

  function Numbered(offers: seq<Offer>): (candidates: seq<Candidate>)
    ensures |candidates| == |offers| && forall i :: 0 <= i < |offers| ==> candidates[i] == Candidate(i, offers[i])
  {
    seq(|offers|, i requires 0 <= i < |offers| => Candidate(i, offers[i]))
  }

  /** The order of a stable sort by price. */
  predicate Cheaper(a: Candidate, b: Candidate) {
    a.offer.price < b.offer.price || (a.offer.price == b.offer.price && a.place < b.place)
  }

  ghost predicate HasId(s: seq<Candidate>, id: string) {
    exists i :: 0 <= i < |s| && s[i].offer.id == id
  }

  /** The list a client should get: in order of price, no listing twice, at most twenty; each entry is the
      cheapest candidate of its listing, the first collected among equals; and a listing is missing only
      if the list is full of entries that go before all its candidates. */
  ghost predicate IsBest(best: seq<Candidate>, candidates: seq<Candidate>) {
    && |best| <= MAX_OFFERS
    && Ascending(best, Cheaper)
    && (forall i, j :: 0 <= i < j < |best| ==> best[i].offer.id != best[j].offer.id)
    && (forall i :: 0 <= i < |best| ==> best[i] in candidates && IsCheapest(best[i], candidates))
    && (forall c :: c in candidates && !HasId(best, c.offer.id) ==>
          |best| == MAX_OFFERS && forall i :: 0 <= i < |best| ==> Cheaper(best[i], c))
  }

  ghost predicate IsCheapest(b: Candidate, candidates: seq<Candidate>) {
    forall c :: c in candidates && c.offer.id == b.offer.id && c != b ==> Cheaper(b, c)
  }

  lemma CheaperIsTotal(offers: seq<Offer>, domain: set<Candidate>)
    requires forall c :: c in domain ==> c in Numbered(offers)
    ensures StrictTotal(Cheaper, domain)
  {
    forall a, b | a in domain && b in domain && a != b ensures Cheaper(a, b) || Cheaper(b, a) {
      assert a in Numbered(offers) && b in Numbered(offers);
    }
  }

  lemma SortedCandidates(offers: seq<Offer>)
    ensures Ascending(Sort(Numbered(offers), Cheaper), Cheaper)
    ensures forall c :: c in Sort(Numbered(offers), Cheaper) <==> c in Numbered(offers)
  {
    var domain := set c | c in Numbered(offers);
    CheaperIsTotal(offers, domain);
    SortLists(Numbered(offers), domain, Cheaper);
  }

  /** `best` holds the first candidate of every listing met in `done`. */
  ghost predicate IsReduced(best: seq<Candidate>, done: seq<Candidate>) {
    && Ascending(best, Cheaper)
    && (forall i, j :: 0 <= i < j < |best| ==> best[i].offer.id != best[j].offer.id)
    && (forall i :: 0 <= i < |best| ==> best[i] in done && IsCheapest(best[i], done))
    && (forall c :: c in done ==> HasId(best, c.offer.id))
  }

  predicate ComesLast(c: Candidate, done: seq<Candidate>) {
    forall d :: d in done ==> Cheaper(d, c)
  }

  lemma HasIdAppend(s: seq<Candidate>, c: Candidate)
    ensures forall id :: HasId(s + [c], id) <==> HasId(s, id) || id == c.offer.id
  {
    forall id ensures HasId(s + [c], id) <==> HasId(s, id) || id == c.offer.id {
      var all := s + [c];
      assert all[|s|] == c;
      if HasId(s, id) {
        var i :| 0 <= i < |s| && s[i].offer.id == id;
        assert all[i].offer.id == id;
      }
    }
  }

  lemma KeepFirst(best: seq<Candidate>, done: seq<Candidate>, c: Candidate)
    requires IsReduced(best, done) && ComesLast(c, done) && !HasId(done, c.offer.id)
    ensures IsReduced(best + [c], done + [c])
  {
    HasIdAppend(best, c);
    forall d | d in done ensures d.offer.id != c.offer.id {
      var i :| 0 <= i < |done| && done[i] == d;
    }
  }

  lemma DropLater(best: seq<Candidate>, done: seq<Candidate>, c: Candidate)
    requires IsReduced(best, done) && ComesLast(c, done) && HasId(done, c.offer.id)
    ensures IsReduced(best, done + [c])
  {
    var i :| 0 <= i < |done| && done[i].offer.id == c.offer.id;
    assert done[i] in done;
  }

  lemma CutIsBest(best: seq<Candidate>, candidates: seq<Candidate>)
    requires IsReduced(best, candidates)
    ensures IsBest(best[..Min(MAX_OFFERS, |best|)], candidates)
  {
    var cut := best[..Min(MAX_OFFERS, |best|)];
    forall c | c in candidates && !HasId(cut, c.offer.id)
      ensures |cut| == MAX_OFFERS && forall i :: 0 <= i < |cut| ==> Cheaper(cut[i], c)
    {
      var j :| 0 <= j < |best| && best[j].offer.id == c.offer.id;
      forall m | 0 <= m < |cut| ensures best[m].offer.id != c.offer.id {
        assert cut[m] == best[m];
      }
      assert IsCheapest(best[j], candidates);
    }
  }

  method SelectOffers(offers: seq<Offer>) returns (best: seq<Candidate>)
    ensures IsBest(best, Numbered(offers))
  {
    var sorted := Sort(Numbered(offers), Cheaper);
    SortedCandidates(offers);
    var seen: set<string> := {};
    best := [];
    for k := 0 to |sorted|
      invariant forall id :: id in seen <==> HasId(sorted[..k], id)
      invariant IsReduced(best, sorted[..k])
    {
      var c := sorted[k];
      assert sorted[..k + 1] == sorted[..k] + [c];
      HasIdAppend(sorted[..k], c);
      if c.offer.id !in seen {
        KeepFirst(best, sorted[..k], c);
        seen := seen + {c.offer.id};
        best := best + [c];
      } else {
        DropLater(best, sorted[..k], c);
      }
    }
    assert sorted[..|sorted|] == sorted;
    SameElements(best, sorted, Numbered(offers));
    CutIsBest(best, Numbered(offers));
    best := best[..Min(MAX_OFFERS, |best|)];
  }

  lemma SameElements(best: seq<Candidate>, sorted: seq<Candidate>, candidates: seq<Candidate>)
    requires IsReduced(best, sorted) && forall c :: c in sorted <==> c in candidates
    ensures IsReduced(best, candidates)
  {
  }

  /** An entry of one best list whose listing the other also has is in the other. */
  lemma SameListing(a: seq<Candidate>, b: seq<Candidate>, candidates: seq<Candidate>, i: nat)
    requires IsBest(a, candidates) && IsBest(b, candidates) && i < |a| && HasId(b, a[i].offer.id)
    ensures a[i] in b
  {
    var j :| 0 <= j < |b| && b[j].offer.id == a[i].offer.id;
    assert IsCheapest(a[i], candidates) && IsCheapest(b[j], candidates);
    assert b[j] in candidates && a[i] in candidates;
  }

  lemma ListedInOrder(s: seq<Candidate>, offers: seq<Offer>)
    requires Ascending(s, Cheaper) && forall i :: 0 <= i < |s| ==> s[i] in Numbered(offers)
    ensures var domain := set c | c in s; StrictTotal(Cheaper, domain) && Lists(s, domain, Cheaper) && |domain| == |s|
  {
    var domain := set c | c in s;
    CheaperIsTotal(offers, domain);
    LengthIsSize(s, domain, Cheaper);
  }

  lemma BestContains(a: seq<Candidate>, b: seq<Candidate>, offers: seq<Offer>, i: nat)
    requires IsBest(a, Numbered(offers)) && IsBest(b, Numbered(offers)) && i < |a|
    ensures a[i] in b
  {
    if HasId(b, a[i].offer.id) {
      SameListing(a, b, Numbered(offers), i);
    } else {
      forall j | 0 <= j < |b| ensures b[j] in a {
        if HasId(a, b[j].offer.id) {
          SameListing(b, a, Numbered(offers), j);
        } else {
          assert false;
        }
      }
      ListedInOrder(a, offers);
      ListedInOrder(b, offers);
      var inA, inB := set c | c in a, set c | c in b;
      if a[i] !in b {
        TooMany(inA, inB, a[i]);
      }
    }
  }

  lemma TooMany(all: set<Candidate>, some: set<Candidate>, extra: Candidate)
    requires some <= all && extra in all && extra !in some
    ensures |some| < |all|
  {
    assert |all - some| > 0 by { assert extra in all - some; }
    assert all == some + (all - some);
  }

  /** There is only one such list, so the contract of `SelectOffers` fixes its result. */
  lemma BestIsUnique(a: seq<Candidate>, b: seq<Candidate>, offers: seq<Offer>)
    requires IsBest(a, Numbered(offers)) && IsBest(b, Numbered(offers))
    ensures a == b
  {
    forall i | 0 <= i < |a| ensures a[i] in b { BestContains(a, b, offers, i); }
    forall i | 0 <= i < |b| ensures b[i] in a { BestContains(b, a, offers, i); }
    ListedInOrder(a, offers);
    OneListing(a, b, (set c | c in a), Cheaper);
  }

  /** The same in terms of prices and places: at most twenty of the offers, prices ascending and the first
      collected first among equals, each entry the cheapest of its listing and the first such, and an offer
      whose listing is missing costs at least as much as the last entry of a list that is then full. */
  lemma BestByPrice(best: seq<Candidate>, offers: seq<Offer>)
    requires IsBest(best, Numbered(offers))
    ensures |best| <= 20 && forall i :: 0 <= i < |best| ==>
              best[i].place < |offers| && best[i].offer == offers[best[i].place]
    ensures forall i, j :: 0 <= i < j < |best| ==>
              && best[i].offer.id != best[j].offer.id && best[i].offer.price <= best[j].offer.price
              && (best[i].offer.price == best[j].offer.price ==> best[i].place < best[j].place)
    ensures forall i, k :: 0 <= i < |best| && 0 <= k < |offers| && offers[k].id == best[i].offer.id ==>
              && best[i].offer.price <= offers[k].price
              && (best[i].offer.price == offers[k].price ==> best[i].place <= k)
    ensures forall k :: 0 <= k < |offers| && (forall i :: 0 <= i < |best| ==> best[i].offer.id != offers[k].id) ==>
              |best| == 20 && best[19].offer.price <= offers[k].price
  {
    forall k | 0 <= k < |offers|
      ensures Numbered(offers)[k] in Numbered(offers)
    {
    }
  }

  // ---------------------------------------------------------------- the search

  const MAX_PRODUCTS: nat := 6

  /** A product that passed the filters, how many words of the title it matches, and what asking for its
      items yields: None is an upstream error; a product without an item collection yields no items. */
  datatype Found = Found(product: Product, matches: nat, items: Option<seq<Item>>)

  /** A product with its place in the search response. */
  datatype Ranked = Ranked(place: nat, found: Found)

  function InPlace(found: seq<Found>): (ranked: seq<Ranked>)
    ensures |ranked| == |found| && forall i :: 0 <= i < |found| ==> ranked[i] == Ranked(i, found[i])
  {
    seq(|found|, i requires 0 <= i < |found| => Ranked(i, found[i]))
  }

  /** The order of a stable sort by descending matches. */
  predicate BetterMatch(a: Ranked, b: Ranked) {
    a.found.matches > b.found.matches || (a.found.matches == b.found.matches && a.place < b.place)
  }

  /** `visited` are the products to ask for items: the six with the most matches, in that order, and earlier
      results first among equals. */
  ghost predicate AreBestMatches(visited: seq<Ranked>, ranked: seq<Ranked>) {
    && |visited| == (if |ranked| < 6 then |ranked| else 6)
    && (forall i :: 0 <= i < |visited| ==> visited[i] in ranked)
    && (forall i, j :: 0 <= i < j < |visited| ==>
          && visited[i].found.matches >= visited[j].found.matches
          && (visited[i].found.matches == visited[j].found.matches ==> visited[i].place < visited[j].place))
    && forall v, w :: v in visited && w in ranked && w !in visited ==>
         && v.found.matches >= w.found.matches
         && (v.found.matches == w.found.matches ==> v.place < w.place)
  }

  lemma CutIsFirst(sorted: seq<Ranked>, ranked: seq<Ranked>, n: nat)
    requires Ascending(sorted, BetterMatch) && n <= |sorted| && forall r :: r in ranked ==> r in sorted
    ensures forall v, w :: v in sorted[..n] && w in ranked && w !in sorted[..n] ==> BetterMatch(v, w)
  {
    forall v, w | v in sorted[..n] && w in ranked && w !in sorted[..n] ensures BetterMatch(v, w) {
      var i :| 0 <= i < n && sorted[i] == v;
      var j :| 0 <= j < |sorted| && sorted[j] == w;
      forall m | 0 <= m < n ensures sorted[m] != w {
        assert sorted[..n][m] == sorted[m];
      }
    }
  }

  lemma BestMatchesFirst(found: seq<Found>)
    ensures var sorted := Sort(InPlace(found), BetterMatch);
            AreBestMatches(sorted[..Min(MAX_PRODUCTS, |sorted|)], InPlace(found))
  {
    var ranked := InPlace(found);
    var domain := set r | r in ranked;
    SortLists(ranked, domain, BetterMatch);
    var sorted := Sort(ranked, BetterMatch);
    LengthIsSize(sorted, domain, BetterMatch);
    SizeOfPlaces(found);
    CutIsFirst(sorted, ranked, Min(MAX_PRODUCTS, |sorted|));
  }

  lemma {:induction false} SizeOfPlaces(found: seq<Found>)
    ensures |set r | r in InPlace(found)| == |found|
  {
    if found == [] {
      assert (set r | r in InPlace(found)) == {};
    } else {
      var rest := found[..|found| - 1];
      SizeOfPlaces(rest);
      var last := Ranked(|rest|, found[|rest|]);
      assert InPlace(found) == InPlace(rest) + [last];
      assert (set r | r in InPlace(found)) == (set r | r in InPlace(rest)) + {last};
      assert last !in InPlace(rest);
    }
  }

  /** The offers made of a product's items, in order. */
  function OffersOf(product: Product, items: seq<Item>): seq<Offer> {
    if items == [] then []
    else
      var earlier := OffersOf(product, items[..|items| - 1]);
      var offer := FromCatalogItem(product, items[|items| - 1]);
      if offer.Some? then earlier + [offer.value] else earlier
  }

  predicate AllAnswered(visited: seq<Ranked>) {
    forall i :: 0 <= i < |visited| ==> visited[i].found.items.Some?
  }

  /** All offers of the visited products, in the order they were visited. */
  function Collected(visited: seq<Ranked>): seq<Offer>
    requires AllAnswered(visited)
  {
    if visited == [] then []
    else
      var last := visited[|visited| - 1].found;
      Collected(visited[..|visited| - 1]) + OffersOf(last.product, last.items.value)
  }

  // ---------------------------------------------------------------- where offers come from

  predicate HasText(text: string) { exists i :: 0 <= i < |text| && text[i] as int !in {9, 10, 11, 12, 13, 32} }

  /** An item that becomes an offer: nothing it is known by is blank, and its price is a number from zero up. */
  predicate IsSellable(product: Product, item: Item) {
    && HasText(item.id) && HasText(product.name) && HasText(item.currencyId)
    && item.price.Finite? && item.price.amount >= 0.0
  }

  /** The offer stands for this item of this product, field by field. */
  predicate StandsFor(offer: Offer, product: Product, item: Item) {
    && offer.id == item.id && item.price == Finite(offer.price) && offer.price >= 0.0
    && offer.currencyId == item.currencyId && offer.condition == item.condition
    && offer.title == product.name && offer.thumbnail == product.thumbnail
    && offer.permalink == "https://www.mercadolivre.com.br/p/" + product.id
    && (match item.originalPrice
        case Some(Finite(original)) =>
          if original > offer.price then
            && offer.originalPrice == Some(original) && offer.discountPercent.Some?
            && 0 <= offer.discountPercent.value <= 100
            && offer.discountPercent.value as real - 0.5 <= (original - offer.price) / original * 100.0
            && (original - offer.price) / original * 100.0 < offer.discountPercent.value as real + 0.5
          else offer.originalPrice == None && offer.discountPercent == None
        case Some(NotFinite) => offer.originalPrice == None && offer.discountPercent == None
        case None => offer.originalPrice == None && offer.discountPercent == None)
  }

  lemma BlankIs(text: string)
    ensures IsBlank(text) <==> !HasText(text)
  {
    if HasText(text) {
      var i :| 0 <= i < |text| && text[i] as int !in {9, 10, 11, 12, 13, 32};
      assert text[i] in text;
    } else {
      forall c | c in text ensures c == ' ' || '\t' <= c <= '\r' {
        var i :| 0 <= i < |text| && text[i] == c;
      }
    }
  }

  lemma OfferOf(product: Product, item: Item)
    ensures FromCatalogItem(product, item).Some? <==> IsSellable(product, item)
    ensures FromCatalogItem(product, item).Some? ==> StandsFor(FromCatalogItem(product, item).value, product, item)
  {
    BlankIs(item.id);
    BlankIs(product.name);
    BlankIs(item.currencyId);
    if FromCatalogItem(product, item).Some? {
      DiscountIsNearest(product, item);
    }
  }

  /** Where an offer comes from: which of the visited products, and which of its items. */
  datatype Origin = Origin(product: nat, item: nat)

  predicate Exists(visited: seq<Ranked>, o: Origin) {
    && o.product < |visited| && visited[o.product].found.items.Some?
    && o.item < |visited[o.product].found.items.value|
    && IsSellable(visited[o.product].found.product, visited[o.product].found.items.value[o.item])
  }

  /** The offer stands for the item its origin names. */
  predicate ComesFrom(offer: Offer, o: Origin, visited: seq<Ranked>) {
    && Exists(visited, o)
    && StandsFor(offer, visited[o.product].found.product, visited[o.product].found.items.value[o.item])
  }

  predicate Earlier(a: Origin, b: Origin) {
    a.product < b.product || (a.product == b.product && a.item < b.item)
  }

  /** `offers` are all offers of the visited products: each stands for the item it comes from, products and
      items in order, and no sellable item is left out. */
  ghost predicate AreOffersOf(offers: seq<Offer>, origins: seq<Origin>, visited: seq<Ranked>) {
    && |origins| == |offers|
    && (forall k :: 0 <= k < |offers| ==> ComesFrom(offers[k], origins[k], visited))
    && (forall k, m :: 0 <= k < m < |origins| ==> Earlier(origins[k], origins[m]))
    && forall o :: Exists(visited, o) ==> o in origins
  }

  /** The origins of one product's offers. */
  ghost predicate AreItemsOf(offers: seq<Offer>, origins: seq<Origin>, product: Product, items: seq<Item>, p: nat) {
    && |origins| == |offers|
    && (forall k :: 0 <= k < |origins| ==> IsItemOf(offers[k], origins[k], product, items, p))
    && (forall k, m :: 0 <= k < m < |origins| ==> Earlier(origins[k], origins[m]))
    && forall i :: 0 <= i < |items| && IsSellable(product, items[i]) ==> Origin(p, i) in origins
  }

  predicate IsItemOf(offer: Offer, o: Origin, product: Product, items: seq<Item>, p: nat) {
    && o.product == p && o.item < |items| && IsSellable(product, items[o.item])
    && StandsFor(offer, product, items[o.item])
  }

  lemma MoreItems(offers: seq<Offer>, origins: seq<Origin>, product: Product, items: seq<Item>, item: Item, p: nat)
    requires AreItemsOf(offers, origins, product, items, p) && !IsSellable(product, item)
    ensures AreItemsOf(offers, origins, product, items + [item], p)
  {
    forall k | 0 <= k < |origins| ensures IsItemOf(offers[k], origins[k], product, items + [item], p) {
      assert IsItemOf(offers[k], origins[k], product, items, p);
    }
  }

  lemma MoreOffers(offers: seq<Offer>, origins: seq<Origin>, product: Product, items: seq<Item>, item: Item, p: nat,
                   offer: Offer)
    requires AreItemsOf(offers, origins, product, items, p)
    requires IsSellable(product, item) && StandsFor(offer, product, item)
    ensures AreItemsOf(offers + [offer], origins + [Origin(p, |items|)], product, items + [item], p)
  {
    var (allOffers, all) := (offers + [offer], origins + [Origin(p, |items|)]);
    forall k | 0 <= k < |all| ensures IsItemOf(allOffers[k], all[k], product, items + [item], p) {
      if k < |origins| {
        assert IsItemOf(offers[k], origins[k], product, items, p);
      }
    }
    forall k, m | 0 <= k < m < |all| ensures Earlier(all[k], all[m]) {
      assert IsItemOf(offers[k], origins[k], product, items, p);
    }
    forall i | 0 <= i < |items + [item]| && IsSellable(product, (items + [item])[i]) ensures Origin(p, i) in all {
      if i < |items| {
        assert Origin(p, i) in origins;
      } else {
        assert all[|origins|] == Origin(p, i);
      }
    }
  }

  lemma {:induction false} OriginsOfItems(product: Product, items: seq<Item>, p: nat) returns (origins: seq<Origin>)
    ensures AreItemsOf(OffersOf(product, items), origins, product, items, p)
  {
    origins := [];
    if items != [] {
      var rest, item := items[..|items| - 1], items[|items| - 1];
      assert items == rest + [item];
      origins := OriginsOfItems(product, rest, p);
      OfferOf(product, item);
      if IsSellable(product, item) {
        MoreOffers(OffersOf(product, rest), origins, product, rest, item, p, FromCatalogItem(product, item).value);
        origins := origins + [Origin(p, |rest|)];
      } else {
        MoreItems(OffersOf(product, rest), origins, product, rest, item, p);
      }
    }
  }

  lemma LaterProduct(offers: seq<Offer>, origins: seq<Origin>, visited: seq<Ranked>, last: Ranked, k: nat)
    requires AreOffersOf(offers, origins, visited) && k < |offers|
    ensures ComesFrom(offers[k], origins[k], visited + [last]) && origins[k].product < |visited|
  {
    assert ComesFrom(offers[k], origins[k], visited);
  }

  lemma AddOrigins(offers: seq<Offer>, origins: seq<Origin>, visited: seq<Ranked>, last: Ranked,
                   others: seq<Offer>, more: seq<Origin>)
    requires last.found.items.Some? && AreOffersOf(offers, origins, visited)
    requires AreItemsOf(others, more, last.found.product, last.found.items.value, |visited|)
    ensures AreOffersOf(offers + others, origins + more, visited + [last])
  {
    var all, sources := visited + [last], origins + more;
    forall k | 0 <= k < |offers + others| ensures ComesFrom((offers + others)[k], sources[k], all) {
      if k < |offers| {
        LaterProduct(offers, origins, visited, last, k);
      } else {
        var m := k - |offers|;
        assert IsItemOf(others[m], more[m], last.found.product, last.found.items.value, |visited|);
      }
    }
    InOrderStill(offers, origins, visited, last, others, more);
    forall o | Exists(all, o) ensures o in sources {
      if o.product < |visited| {
        assert Exists(visited, o);
      } else {
        assert Origin(|visited|, o.item) == o;
      }
    }
  }

  lemma InOrderStill(offers: seq<Offer>, origins: seq<Origin>, visited: seq<Ranked>, last: Ranked,
                     others: seq<Offer>, more: seq<Origin>)
    requires last.found.items.Some? && AreOffersOf(offers, origins, visited)
    requires AreItemsOf(others, more, last.found.product, last.found.items.value, |visited|)
    ensures forall k, m :: 0 <= k < m < |origins + more| ==> Earlier((origins + more)[k], (origins + more)[m])
  {
    var sources := origins + more;
    forall k, m | 0 <= k < m < |sources| ensures Earlier(sources[k], sources[m]) {
      if k < |origins| {
        LaterProduct(offers, origins, visited, last, k);
      }
      if m >= |origins| {
        var n := m - |origins|;
        assert IsItemOf(others[n], more[n], last.found.product, last.found.items.value, |visited|);
      }
    }
  }

  lemma {:induction false} CollectedOrigins(visited: seq<Ranked>) returns (origins: seq<Origin>)
    requires AllAnswered(visited)
    ensures AreOffersOf(Collected(visited), origins, visited)
  {
    origins := [];
    if visited != [] {
      var rest, last := visited[..|visited| - 1], visited[|visited| - 1];
      origins := CollectedOrigins(rest);
      var more := OriginsOfItems(last.found.product, last.found.items.value, |rest|);
      AddOrigins(Collected(rest), origins, rest, last, OffersOf(last.found.product, last.found.items.value), more);
      assert visited == rest + [last];
      origins := origins + more;
    }
  }

  method CollectOffers(visited: seq<Ranked>) returns (offers: Option<seq<Offer>>)
    ensures offers.Some? <==> AllAnswered(visited)
    ensures offers.Some? ==> offers.value == Collected(visited)
  {
    var collected: seq<Offer> := [];
    for k := 0 to |visited|
      invariant AllAnswered(visited[..k]) && collected == Collected(visited[..k])
    {
      assert visited[..k + 1][..k] == visited[..k];
      var found := visited[k].found;
      if found.items.None? {
        return None;
      }
      collected := collected + OffersOf(found.product, found.items.value);
    }
    assert visited[..|visited|] == visited;
    offers := Some(collected);
  }

  /** The search fails exactly when one of the six best matches cannot be asked for its items; otherwise it
      returns the best list of all their offers. */
  method SearchOffers(found: seq<Found>)
    returns (best: Option<seq<Candidate>>, ghost visited: seq<Ranked>, ghost offers: seq<Offer>,
             ghost origins: seq<Origin>)
    ensures AreBestMatches(visited, InPlace(found))
    ensures best.Some? <==> forall i :: 0 <= i < |visited| ==> visited[i].found.items.Some?
    ensures best.Some? ==> AreOffersOf(offers, origins, visited) && IsBest(best.value, Numbered(offers))
  {
    var sorted := Sort(InPlace(found), BetterMatch);
    BestMatchesFirst(found);
    var products := sorted[..Min(MAX_PRODUCTS, |sorted|)];
    visited, offers, origins := products, [], [];
    var collected := CollectOffers(products);
    if collected.None? {
      best := None;
    } else {
      var list := SelectOffers(collected.value);
      best, offers := Some(list), collected.value;
      origins := CollectedOrigins(visited);
    }
  }
}
