/** The Lowest BIN index, folded one auction page at a time in whatever order pages arrive. */
module LowestBinIndex {
  import opened Options

  /** The result of decoding an auction's item: the keys it is listed under and its unit price. */
  datatype Resolved = Resolved(keys: seq<string>, unitPrice: real)

  /** `resolved` and `auctioneer` are `None` when decoding the item or the seller fails. */
  datatype Auction = Auction(isBin: bool, resolved: Option<Resolved>, auctioneer: Option<string>, itemName: string)

  datatype Index = Index(
    lowestBins: map<string, real>,
    auctioneers: map<string, string>,
    itemNames: map<string, string>,
    totalBinAuctions: nat)

  const EMPTY := Index(map[], map[], map[], 0)

  predicate IsListed(a: Auction) {
    a.isBin && a.resolved.Some? && a.auctioneer.Some?
  }

  predicate Offers(a: Auction, k: string) {
    a.isBin && a.resolved.Some? && a.auctioneer.Some? && k in a.resolved.value.keys
  }

  function PriceOf(a: Auction): real
    requires IsListed(a)
  {
    a.resolved.value.unitPrice
  }

  function NameFor(a: Auction, k: string): string {
    if a.itemName != "" then a.itemName else k
  }

  // -------------------------------------------------------------------- fold

  predicate Improves(index: Index, a: Auction, k: string)
    requires IsListed(a)
  {
    k !in index.lowestBins || PriceOf(a) < index.lowestBins[k]
  }

  /** One key of a listed auction: a strictly lower price takes over price, seller and name. */
  function OfferKey(index: Index, a: Auction, k: string): Index
    requires IsListed(a)
  {
    if Improves(index, a, k) then
      index.(lowestBins := index.lowestBins[k := PriceOf(a)],
             auctioneers := index.auctioneers[k := a.auctioneer.value],
             itemNames := index.itemNames[k := NameFor(a, k)])
    else index
  }

  function OfferKeys(index: Index, a: Auction, keys: seq<string>): Index
    requires IsListed(a)
  {
    if keys == [] then index else OfferKey(OfferKeys(index, a, keys[..|keys| - 1]), a, keys[|keys| - 1])
  }

  function FoldOne(index: Index, a: Auction): Index {
    if IsListed(a) then
      OfferKeys(index, a, a.resolved.value.keys).(totalBinAuctions := index.totalBinAuctions + 1)
    else index
  }

  function Fold(index: Index, auctions: seq<Auction>): Index {
    if auctions == [] then index
    else FoldOne(Fold(index, auctions[..|auctions| - 1]), auctions[|auctions| - 1])
  }

  class LowestBinIndexBuilder {
    var lowestBins: map<string, real>
    var auctioneerUuids: map<string, string>
    var itemNames: map<string, string>
    var totalBinAuctions: nat

    function State(): Index
      reads this
    {
      Index(lowestBins, auctioneerUuids, itemNames, totalBinAuctions)
    }

    constructor ()
      ensures State() == EMPTY
    {
      lowestBins, auctioneerUuids, itemNames, totalBinAuctions := map[], map[], map[], 0;
    }

    method Reset()
      modifies this
      ensures State() == EMPTY
    {
      lowestBins, auctioneerUuids, itemNames, totalBinAuctions := map[], map[], map[], 0;
    }

    method AddPage(auctions: seq<Auction>)
      modifies this
      ensures State() == Fold(old(State()), auctions)
    {
      ghost var before := State();
      var pageBinAuctions := 0;
      for i := 0 to |auctions|
        invariant State().(totalBinAuctions := before.totalBinAuctions + pageBinAuctions) == Fold(before, auctions[..i])
        invariant totalBinAuctions == before.totalBinAuctions
      {
        assert auctions[..i + 1][..i] == auctions[..i];
        var auction := auctions[i];
        if !auction.isBin {
          continue;
        }
        if auction.resolved.None? {
          continue;
        }
        if auction.auctioneer.None? {
          continue;
        }
        OfferKeysIgnoresTotal(State(), auction, auction.resolved.value.keys, before.totalBinAuctions + pageBinAuctions);
        pageBinAuctions := pageBinAuctions + 1;
        OfferUnderKeys(auction);
      }
      assert auctions[..|auctions|] == auctions;
      totalBinAuctions := totalBinAuctions + pageBinAuctions;
    }

    method OfferUnderKeys(a: Auction)
      requires IsListed(a)
      modifies this`lowestBins, this`auctioneerUuids, this`itemNames
      ensures State() == OfferKeys(old(State()), a, a.resolved.value.keys)
    {
      var keys := a.resolved.value.keys;
      ghost var before := State();
      for i := 0 to |keys|
        invariant State() == OfferKeys(before, a, keys[..i])
      {
        assert keys[..i + 1][..i] == keys[..i];
        var k := keys[i];
        if k !in lowestBins || PriceOf(a) < lowestBins[k] {
          lowestBins := lowestBins[k := PriceOf(a)];
          auctioneerUuids := auctioneerUuids[k := a.auctioneer.value];
          itemNames := itemNames[k := NameFor(a, k)];
        }
      }
      assert keys[..|keys|] == keys;
    }
  }

  lemma {:induction false} OfferKeysIgnoresTotal(index: Index, a: Auction, keys: seq<string>, total: nat)
    requires IsListed(a)
    ensures OfferKeys(index.(totalBinAuctions := total), a, keys)
         == OfferKeys(index, a, keys).(totalBinAuctions := total)
  {
    if keys != [] { OfferKeysIgnoresTotal(index, a, keys[..|keys| - 1], total); }
  }

  /** The three entries of a key. */
  predicate SameEntry(one: Index, other: Index, k: string) {
    && (k in one.lowestBins <==> k in other.lowestBins)
    && (k in one.auctioneers <==> k in other.auctioneers)
    && (k in one.itemNames <==> k in other.itemNames)
    && (k in one.lowestBins ==> one.lowestBins[k] == other.lowestBins[k])
    && (k in one.auctioneers ==> one.auctioneers[k] == other.auctioneers[k])
    && (k in one.itemNames ==> one.itemNames[k] == other.itemNames[k])
  }

  /** Under each of its keys an auction takes over exactly the entries it improves. */
  lemma {:induction false} OfferKeysDecides(index: Index, a: Auction, keys: seq<string>, k: string)
    requires IsListed(a)
    ensures OfferKeys(index, a, keys).totalBinAuctions == index.totalBinAuctions
    ensures if k in keys && Improves(index, a, k) then EntryFrom(OfferKeys(index, a, keys), a, k)
            else SameEntry(OfferKeys(index, a, keys), index, k)
  {
    if keys != [] {
      OfferKeysDecides(index, a, keys[..|keys| - 1], k);
      assert keys == keys[..|keys| - 1] + [keys[|keys| - 1]];
    }
  }

  // ---------------------------------------------------- what the fold finds

  /** The auction at `i` is the cheapest one for the key, and the first of the cheapest. */
  predicate IsBest(auctions: seq<Auction>, i: nat, k: string) {
    && i < |auctions| && Offers(auctions[i], k)
    && var price := auctions[i].resolved.value.unitPrice;
    && (forall j :: 0 <= j < |auctions| && Offers(auctions[j], k) ==> price <= auctions[j].resolved.value.unitPrice)
    && (forall j :: 0 <= j < i && Offers(auctions[j], k) ==> price < auctions[j].resolved.value.unitPrice)
  }

  /** What the index says about a key. */
  ghost predicate EntryExact(index: Index, auctions: seq<Auction>, k: string) {
    && (k in index.auctioneers <==> k in index.lowestBins)
    && (k in index.itemNames <==> k in index.lowestBins)
    && (k in index.lowestBins <==> exists a <- auctions :: Offers(a, k))
    && (k in index.lowestBins ==>
          exists i: nat :: IsBest(auctions, i, k) && EntryFrom(index, auctions[i], k))
  }

  predicate EntryFrom(index: Index, a: Auction, k: string) {
    && a.resolved.Some? && a.auctioneer.Some?
    && k in index.lowestBins && index.lowestBins[k] == a.resolved.value.unitPrice
    && k in index.auctioneers && index.auctioneers[k] == a.auctioneer.value
    && k in index.itemNames && index.itemNames[k] == if a.itemName == "" then k else a.itemName
  }

  function Listed(auctions: seq<Auction>): nat {
    if auctions == [] then 0
    else Listed(auctions[..|auctions| - 1]) + (if IsListed(auctions[|auctions| - 1]) then 1 else 0)
  }

  function ListedAt(auctions: seq<Auction>): set<int> {
    set i | 0 <= i < |auctions| && auctions[i].isBin && auctions[i].resolved.Some? && auctions[i].auctioneer.Some?
  }

  lemma {:induction false} ListedCounts(auctions: seq<Auction>)
    ensures Listed(auctions) == |ListedAt(auctions)|
  {
    if auctions == [] {
      assert ListedAt(auctions) == {};
    } else {
      var n := |auctions| - 1;
      ListedCounts(auctions[..n]);
      assert ListedAt(auctions) == ListedAt(auctions[..n]) + (if IsListed(auctions[n]) then {n} else {});
    }
  }

  lemma BestStays(auctions: seq<Auction>, a: Auction, i: nat, k: string)
    requires IsBest(auctions, i, k) && (Offers(a, k) ==> PriceOf(auctions[i]) <= PriceOf(a))
    ensures IsBest(auctions + [a], i, k)
  {
  }

  lemma BestIsNew(auctions: seq<Auction>, a: Auction, k: string)
    requires Offers(a, k)
    requires forall j :: 0 <= j < |auctions| && Offers(auctions[j], k) ==> PriceOf(a) < PriceOf(auctions[j])
    ensures IsBest(auctions + [a], |auctions|, k)
  {
  }

  lemma EntryExactNext(index: Index, auctions: seq<Auction>, a: Auction, k: string)
    requires EntryExact(index, auctions, k)
    ensures EntryExact(FoldOne(index, a), auctions + [a], k)
  {
    hide OfferKeys, NameFor;
    var next, index' := auctions + [a], FoldOne(index, a);
    if IsListed(a) { OfferKeysDecides(index, a, a.resolved.value.keys, k); }
    assert forall b <- auctions :: b in next;
    assert a in next;
    if k in index.lowestBins {
      var i: nat :| IsBest(auctions, i, k) && EntryFrom(index, auctions[i], k);
      if Offers(a, k) && PriceOf(a) < index.lowestBins[k] {
        BestIsNew(auctions, a, k);
        assert EntryFrom(index', next[|auctions|], k);
      } else {
        BestStays(auctions, a, i, k);
        hide IsBest;
        assert EntryFrom(index', next[i], k);
      }
    } else if Offers(a, k) {
      assert forall j :: 0 <= j < |auctions| ==> auctions[j] in auctions;
      BestIsNew(auctions, a, k);
      assert EntryFrom(index', next[|auctions|], k);
    }
  }

  /** For every fold order, each key has the minimum unit price of the listed auctions under it, the
      three maps share one domain, a key's seller and name come from the first auction that attains
      the minimum, and the total counts the listed auctions. */
  lemma {:induction false} FoldIsExact(auctions: seq<Auction>, k: string)
    ensures EntryExact(Fold(EMPTY, auctions), auctions, k)
    ensures Fold(EMPTY, auctions).totalBinAuctions == Listed(auctions) == |ListedAt(auctions)|
  {
    ListedCounts(auctions);
    if auctions != [] {
      var rest, a := auctions[..|auctions| - 1], auctions[|auctions| - 1];
      FoldIsExact(rest, k);
      EntryExactNext(Fold(EMPTY, rest), rest, a, k);
      assert auctions == rest + [a];
    }
  }

  lemma {:induction false} FoldConcat(index: Index, a: seq<Auction>, b: seq<Auction>)
    ensures Fold(index, a + b) == Fold(Fold(index, a), b)
  {
    if b == [] {
      assert a + b == a;
    } else {
      FoldConcat(index, a, b[..|b| - 1]);
      assert (a + b)[..|a + b| - 1] == a + b[..|b| - 1];
    }
  }

  function Concat(pages: seq<seq<Auction>>): seq<Auction> {
    if pages == [] then [] else Concat(pages[..|pages| - 1]) + pages[|pages| - 1]
  }

  function FoldPages(index: Index, pages: seq<seq<Auction>>): Index {
    if pages == [] then index else Fold(FoldPages(index, pages[..|pages| - 1]), pages[|pages| - 1])
  }

  /** Splitting the auctions into pages changes nothing. */
  lemma {:induction false} PagesFoldAsOne(pages: seq<seq<Auction>>)
    ensures FoldPages(EMPTY, pages) == Fold(EMPTY, Concat(pages))
  {
    if pages != [] {
      PagesFoldAsOne(pages[..|pages| - 1]);
      FoldConcat(EMPTY, Concat(pages[..|pages| - 1]), pages[|pages| - 1]);
    }
  }

  lemma {:induction false} ListedConcat(a: seq<Auction>, b: seq<Auction>)
    ensures Listed(a + b) == Listed(a) + Listed(b)
  {
    hide IsListed;
    if b == [] {
      assert a + b == a;
    } else {
      ListedConcat(a, b[..|b| - 1]);
      assert (a + b)[..|a + b| - 1] == a + b[..|b| - 1];
    }
  }

  lemma ListedWithout(auctions: seq<Auction>, j: nat)
    requires j < |auctions|
    ensures Listed(auctions) == Listed(auctions[..j] + auctions[j + 1..]) + (if IsListed(auctions[j]) then 1 else 0)
  {
    hide IsListed, Listed;
    var before, a, after := auctions[..j], [auctions[j]], auctions[j + 1..];
    ListedConcat(before + a, after);
    ListedConcat(before, a);
    ListedConcat(before, after);
    ListedAlone(auctions[j]);
    assert auctions == before + a + after;
  }

  lemma ListedAlone(a: Auction)
    ensures Listed([a]) == if IsListed(a) then 1 else 0
  {
    assert [a][..0] == [];
  }

  lemma SplitOut(b: seq<Auction>, j: nat)
    requires j < |b|
    ensures multiset(b[..j] + b[j + 1..]) == multiset(b) - multiset{b[j]}
  {
    assert b == b[..j] + [b[j]] + b[j + 1..];
  }

  lemma {:induction false} ListedPermuted(a: seq<Auction>, b: seq<Auction>)
    requires multiset(a) == multiset(b)
    ensures Listed(a) == Listed(b)
    decreases |a|
  {
    if a == [] {
      assert |multiset(b)| == 0;
    } else {
      var x, rest := a[|a| - 1], a[..|a| - 1];
      assert a == rest + [x];
      assert x in multiset(b);
      var j :| 0 <= j < |b| && b[j] == x;
      var without := b[..j] + b[j + 1..];
      SplitOut(b, j);
      assert multiset(rest) == multiset(a) - multiset{x};
      ListedPermuted(rest, without);
      ListedWithout(b, j);
    }
  }

  /** However the auctions are split into pages and in whatever order the pages arrive, the prices
      and the count are those of indexing the complete list in one call. */
  lemma ArrivalOrderDoesNotMatter(pages: seq<seq<Auction>>, auctions: seq<Auction>)
    requires multiset(Concat(pages)) == multiset(auctions)
    ensures FoldPages(EMPTY, pages).lowestBins == Fold(EMPTY, auctions).lowestBins
    ensures FoldPages(EMPTY, pages).totalBinAuctions == Fold(EMPTY, auctions).totalBinAuctions
  {
    PagesFoldAsOne(pages);
    var streamed := Concat(pages);
    ListedPermuted(streamed, auctions);
    FoldIsExact(streamed, "");
    FoldIsExact(auctions, "");
    var one, other := Fold(EMPTY, streamed), Fold(EMPTY, auctions);
    forall k: string
      ensures k in one.lowestBins <==> k in other.lowestBins
      ensures k in one.lowestBins ==> one.lowestBins[k] == other.lowestBins[k]
    {
      SamePrice(streamed, auctions, k);
    }
  }

  lemma SamePrice(a: seq<Auction>, b: seq<Auction>, k: string)
    requires multiset(a) == multiset(b)
    ensures var one, other := Fold(EMPTY, a), Fold(EMPTY, b);
            && (k in one.lowestBins <==> k in other.lowestBins)
            && (k in one.lowestBins ==> one.lowestBins[k] == other.lowestBins[k])
  {
    FoldIsExact(a, k);
    FoldIsExact(b, k);
    assert forall x: Auction :: x in a <==> x in multiset(a);
    assert forall x: Auction :: x in b <==> x in multiset(b);
    var one, other := Fold(EMPTY, a), Fold(EMPTY, b);
    if k in one.lowestBins {
      var i: nat :| IsBest(a, i, k) && EntryFrom(one, a[i], k);
      var j: nat :| IsBest(b, j, k) && EntryFrom(other, b[j], k);
      assert a[i] in b && b[j] in a;
    }
  }
}
