/**
 The market: offers hold the money of buyers and the items of sellers until they are accepted,
 cancelled or expire.
 */
module Market {
  import opened Basics
  import opened Forest
  import opened Stock

  /** A row of market_offers. */
  datatype Offer = Offer(id: nat, playerId: nat, sale: bool, ware: Ware, amount: nat, price: nat, created: int)

  const MAX_PRICE := 999999999
  const MAX_UNSTACKED := 2000
  const COUNTERS := 0x1_0000

  // ----- totals

  ghost function Balances(balances: seq<nat>): nat {
    if balances == [] then 0 else balances[0] + Balances(balances[1..])
  }

  /** How many of a ware the players have. */
  ghost function Held(stores: seq<Store>, w: Ware): nat {
    if stores == [] then 0 else Owned(Roots(stores[0]), w) + Held(stores[1..], w)
  }

  /** The money an offer holds. */
  ghost function Money(o: Offer): nat {
    if o.sale then 0 else o.price * o.amount
  }

  /** How many items of a kind an offer holds. */
  ghost function Wares(o: Offer, w: Ware): nat {
    if o.sale && o.ware == w then o.amount else 0
  }

  ghost function OfferMoney(offers: seq<Offer>): nat {
    if offers == [] then 0 else Money(offers[0]) + OfferMoney(offers[1..])
  }

  ghost function OfferWares(offers: seq<Offer>, w: Ware): nat {
    if offers == [] then 0 else Wares(offers[0], w) + OfferWares(offers[1..], w)
  }

  lemma {:induction false} BalancesUpdate(balances: seq<nat>, p: nat, n: nat)
    requires p < |balances|
    ensures Balances(balances[p := n]) == Balances(balances) - balances[p] + n
    decreases p
  {
    if p == 0 {
      assert balances[p := n][1..] == balances[1..];
    } else {
      assert balances[p := n][1..] == balances[1..][p - 1 := n];
      BalancesUpdate(balances[1..], p - 1, n);
    }
  }

  lemma {:induction false} HeldUpdate(stores: seq<Store>, p: nat, store: Store, w: Ware)
    requires p < |stores|
    ensures Held(stores[p := store], w) == Held(stores, w) - Owned(Roots(stores[p]), w) + Owned(Roots(store), w)
    decreases p
  {
    if p == 0 {
      assert stores[p := store][1..] == stores[1..];
    } else {
      assert stores[p := store][1..] == stores[1..][p - 1 := store];
      HeldUpdate(stores[1..], p - 1, store, w);
    }
  }

  lemma {:induction false} OffersUpdate(offers: seq<Offer>, k: nat, o: Offer)
    requires k < |offers|
    ensures OfferMoney(offers[k := o]) == OfferMoney(offers) - Money(offers[k]) + Money(o)
    decreases k
  {
    if k == 0 {
      assert offers[k := o][1..] == offers[1..];
    } else {
      assert offers[k := o][1..] == offers[1..][k - 1 := o];
      OffersUpdate(offers[1..], k - 1, o);
    }
  }

  lemma {:induction false} OffersUpdateWares(offers: seq<Offer>, k: nat, o: Offer, w: Ware)
    requires k < |offers|
    ensures OfferWares(offers[k := o], w) == OfferWares(offers, w) - Wares(offers[k], w) + Wares(o, w)
    decreases k
  {
    if k == 0 {
      assert offers[k := o][1..] == offers[1..];
    } else {
      assert offers[k := o][1..] == offers[1..][k - 1 := o];
      OffersUpdateWares(offers[1..], k - 1, o, w);
    }
  }

  function Without(offers: seq<Offer>, k: nat): seq<Offer>
    requires k < |offers|
  {
    offers[..k] + offers[k + 1..]
  }

  lemma {:induction false} OffersWithout(offers: seq<Offer>, k: nat, w: Ware)
    requires k < |offers|
    ensures OfferMoney(Without(offers, k)) == OfferMoney(offers) - Money(offers[k])
    ensures OfferWares(Without(offers, k), w) == OfferWares(offers, w) - Wares(offers[k], w)
    decreases k
  {
    if k == 0 {
      assert Without(offers, k) == offers[1..];
    } else {
      assert Without(offers, k)[0] == offers[0] && Without(offers, k)[1..] == Without(offers[1..], k - 1);
      OffersWithout(offers[1..], k - 1, w);
    }
  }

  lemma {:induction false} OffersAppend(offers: seq<Offer>, o: Offer, w: Ware)
    ensures OfferMoney(offers + [o]) == OfferMoney(offers) + Money(o)
    ensures OfferWares(offers + [o], w) == OfferWares(offers, w) + Wares(o, w)
    decreases |offers|
  {
    if offers == [] {
      assert (offers + [o])[1..] == [];
    } else {
      assert (offers + [o])[0] == offers[0] && (offers + [o])[1..] == offers[1..] + [o];
      OffersAppend(offers[1..], o, w);
    }
  }

  // ----- the state

  /** Rows read from the table some time ago: an offer still there may only have become smaller. */
  ghost predicate Snapshot(rows: seq<Offer>, offers: seq<Offer>, players: nat, nextId: nat) {
    && (forall r :: r in rows ==> r.playerId < players && r.price > 0 && r.id < nextId)
    && (forall r, o :: r in rows && o in offers && o.id == r.id ==> o.amount <= r.amount && o == r.(amount := o.amount))
    && forall j, k :: 0 <= j < k < |rows| ==> rows[j].id != rows[k].id
  }

  /** The table of offers, and what has been read from it. */
  ghost predicate TableOk(offers: seq<Offer>, results: seq<seq<Offer>>, players: nat, nextId: nat) {
    && (forall o :: o in offers ==> o.playerId < players && o.amount > 0 && o.price > 0 && o.id < nextId)
    && DistinctIds(offers)
    && forall rows :: rows in results ==> Snapshot(rows, offers, players, nextId)
  }

  lemma {:induction false} TableAppend(offers: seq<Offer>, results: seq<seq<Offer>>, players: nat, nextId: nat,
                                       o: Offer)
    requires TableOk(offers, results, players, nextId)
    requires o.id == nextId && o.playerId < players && o.amount > 0 && o.price > 0
    ensures TableOk(offers + [o], results, players, nextId + 1)
  {
    forall j | 0 <= j < |offers| ensures offers[j].id < nextId {
      assert offers[j] in offers;
    }
  }

  lemma {:induction false} TableWithout(offers: seq<Offer>, results: seq<seq<Offer>>, players: nat, nextId: nat, k: nat)
    requires TableOk(offers, results, players, nextId) && k < |offers|
    ensures TableOk(Without(offers, k), results, players, nextId)
  {
    var left := Without(offers, k);
    forall o | o in left ensures o in offers {
    }
    forall i, j | 0 <= i < j < |left| ensures left[i].id != left[j].id {
      assert left[i] == offers[if i < k then i else i + 1] && left[j] == offers[if j < k then j else j + 1];
    }
  }

  /** An offer that has only become smaller leaves the table and the rows read from it sound. */
  lemma {:induction false} TableShrunk(offers: seq<Offer>, results: seq<seq<Offer>>, players: nat, nextId: nat, k: nat,
                                       left: Offer)
    requires TableOk(offers, results, players, nextId)
    requires k < |offers| && left == offers[k].(amount := left.amount) && 0 < left.amount <= offers[k].amount
    ensures TableOk(offers[k := left], results, players, nextId)
  {
    var after := offers[k := left];
    assert offers[k] in offers;
    forall o | o in after ensures o == left || o in offers {
    }
  }

  lemma {:induction false} TableRead(offers: seq<Offer>, results: seq<seq<Offer>>, players: nat, nextId: nat, date: int)
    requires TableOk(offers, results, players, nextId)
    ensures TableOk(offers, results + [Expired(offers, date)], players, nextId)
  {
    ExpiredIsSnapshot(offers, date);
    assert Snapshot(Expired(offers, date), offers, players, nextId);
  }

  /** The bank balances after p has accepted some of an offer. */
  ghost function Traded(balances: seq<nat>, p: nat, o: Offer, amount: nat): seq<int>
    requires p < |balances| && o.playerId < |balances|
  {
    seq(|balances|, q requires 0 <= q < |balances| =>
      balances[q]
      + if o.sale then (if q == o.playerId then o.price * amount else 0) - (if q == p then o.price * amount else 0)
        else if q == p then o.price * amount else 0)
  }

  lemma {:induction false} TradedIs(balances: seq<nat>, p: nat, o: Offer, amount: nat)
    requires p < |balances| && o.playerId < |balances|
    requires o.sale ==> o.price * amount <= balances[p]
    ensures Traded(balances, p, o, amount)
            == if o.sale then
                 var paid := balances[p := balances[p] - o.price * amount];
                 paid[o.playerId := paid[o.playerId] + o.price * amount]
               else balances[p := balances[p] + o.price * amount]
  {
  }

  class Market {
    const wares: WareTable
    // bank balances, and what each player has in the depot chest and the inbox
    var balances: seq<nat>
    var stores: seq<Store>
    // no item has this identity or a greater one
    var nextGood: nat
    var offers: seq<Offer>
    var nextId: nat
    // results of the query for expired offers that have not been processed yet
    var results: seq<seq<Offer>>
    ghost var fees: nat

    ghost predicate Valid()
      reads this`balances, this`stores, this`nextGood, this`offers, this`nextId, this`results
    {
      Stocked() && |balances| == |stores| && TableOk(offers, results, |balances|, nextId)
    }

    ghost predicate Stocked()
      reads this`stores, this`nextGood
    {
      AllSound(stores, wares, nextGood)
    }

    /** All money: in banks, in offers and paid as fees. */
    ghost function AllMoney(): nat
      reads this`balances, this`offers, this`fees
    {
      Balances(balances) + OfferMoney(offers) + fees
    }

    /** All items of a kind: with players and in offers. */
    ghost function AllWares(w: Ware): nat
      reads this`stores, this`offers
    {
      Held(stores, w) + OfferWares(offers, w)
    }

    method Pay(p: nat, n: nat)
      requires p < |balances| && n <= balances[p]
      modifies this`balances
      ensures balances == old(balances)[p := old(balances)[p] - n]
      ensures Balances(balances) == old(Balances(balances)) - n
    {
      BalancesUpdate(balances, p, balances[p] - n);
      balances := balances[p := balances[p] - n];
    }

    method Earn(p: nat, n: nat)
      requires p < |balances|
      modifies this`balances
      ensures balances == old(balances)[p := old(balances)[p] + n]
      ensures Balances(balances) == old(Balances(balances)) + n
    {
      BalancesUpdate(balances, p, balances[p] + n);
      balances := balances[p := balances[p] + n];
    }

    /** The items of getMarketItemList are removed, if there are enough. */
    method Give(p: nat, ware: Ware, n: nat) returns (ok: bool)
      requires Stocked() && p < |stores| && 1 <= n <= MAX_AMOUNT
      modifies this`stores
      ensures Stocked() && (ok <==> n <= ForSaleOf(old(stores)[p], ware))
      ensures !ok ==> stores == old(stores)
      ensures ok ==> Given(wares, old(stores), stores, p, ware, n)
      ensures ok ==> forall w :: Held(stores, w) == old(Held(stores, w)) - if w == ware then n else 0
    {
      var left;
      SoundAt(stores, wares, nextGood, p);
      ok, left := Collect(stores[p], ware, n, wares, nextGood);
      if !ok {
        return;
      }
      forall w ensures Held(stores[p := left], w) == Held(stores, w) - if w == ware then n else 0 {
        HeldUpdate(stores, p, left, w);
      }
      SoundUpdate(stores, wares, nextGood, p, left, nextGood);
      stores := stores[p := left];
    }

    /** New items are put into the inbox. */
    method Receive(p: nat, ware: Ware, n: nat)
      requires Stocked() && p < |stores|
      modifies this`stores, this`nextGood
      ensures Stocked() && Received(wares, old(stores), stores, p, ware, n)
      ensures forall w :: Held(stores, w) == old(Held(stores, w)) + if w == ware then n else 0
    {
      SoundAt(stores, wares, nextGood, p);
      var more, next := Deliver(stores[p], ware, n, wares, nextGood);
      forall w ensures Held(stores[p := more], w) == Held(stores, w) + if w == ware then n else 0 {
        HeldUpdate(stores, p, more, w);
      }
      SoundUpdate(stores, wares, nextGood, p, more, next);
      stores, nextGood := stores[p := more], next;
    }

    // ----- what players do

    /** Game::playerCreateMarketOffer, past the checks of the player and the item type. */
    method CreateOffer(p: nat, sale: bool, ware: Ware, amount: nat, price: nat, maxOfferCount: nat, now: int)
      returns (ok: bool)
      requires Valid() && p < |balances|
      modifies this
      ensures Valid() && |balances| == old(|balances|) && results == old(results)
      ensures AllMoney() == old(AllMoney()) && forall w :: AllWares(w) == old(AllWares(w))
      ensures ok <==>
                1 <= amount <= MAX_AMOUNT && 1 <= price <= MAX_PRICE
                  && (wares(ware).stackable || amount <= MAX_UNSTACKED)
                && (maxOfferCount == 0 || old(OfferCount(p)) < maxOfferCount)
                && if sale then Fee(price, amount) <= old(balances)[p] && amount <= ForSaleOf(old(stores)[p], ware)
                   else price * amount + Fee(price, amount) <= old(balances)[p]
      ensures ok ==>
                && offers == old(offers) + [Offer(old(nextId), p, sale, ware, amount, price, now)]
                && balances[p] == old(balances)[p] - Fee(price, amount) - (if sale then 0 else price * amount)
                && fees == old(fees) + Fee(price, amount)
                && if sale then Given(wares, old(stores), stores, p, ware, amount) else stores == old(stores)
      ensures !ok ==> offers == old(offers) && balances == old(balances) && stores == old(stores)
    {
      if amount == 0 || amount > MAX_AMOUNT || price == 0 || price > MAX_PRICE
        || (!wares(ware).stackable && amount > MAX_UNSTACKED) {
        return false;
      }
      var count := GetPlayerOfferCount(p);
      if maxOfferCount != 0 && count >= maxOfferCount {
        return false;
      }
      var fee := Fee(price, amount);
      ok := TakeEscrow(p, sale, ware, amount, price, fee);
      if !ok {
        return;
      }
      fees := fees + fee;
      AddOffer(p, sale, ware, amount, price, now);
    }

    /** The fee, and the money or the items that the new offer is to hold. */
    method TakeEscrow(p: nat, sale: bool, ware: Ware, amount: nat, price: nat, fee: nat) returns (ok: bool)
      requires Stocked() && p < |balances| == |stores| && 1 <= amount <= MAX_AMOUNT
      modifies this`balances, this`stores
      ensures Stocked() && |balances| == |stores| == old(|balances|)
      ensures ok <==> if sale then fee <= old(balances)[p] && amount <= ForSaleOf(old(stores)[p], ware)
                      else price * amount + fee <= old(balances)[p]
      ensures !ok ==> balances == old(balances) && stores == old(stores)
      ensures ok ==> balances[p] == old(balances)[p] - fee - (if sale then 0 else price * amount)
      ensures ok ==> Balances(balances) == old(Balances(balances)) - fee - (if sale then 0 else price * amount)
      ensures ok ==> if sale then Given(wares, old(stores), stores, p, ware, amount) else stores == old(stores)
      ensures ok ==> forall w :: Held(stores, w) == old(Held(stores, w)) - if sale && w == ware then amount else 0
    {
      if sale {
        if fee > balances[p] {
          return false;
        }
        ok := Give(p, ware, amount);
        if ok {
          Pay(p, fee);
        }
      } else {
        if price * amount + fee > balances[p] {
          return false;
        }
        Pay(p, price * amount + fee);
        ok := true;
      }
    }

    /** IOMarket::createOffer. */
    method AddOffer(p: nat, sale: bool, ware: Ware, amount: nat, price: nat, now: int)
      requires Valid() && p < |balances| && amount > 0 && price > 0
      modifies this`offers, this`nextId
      ensures Valid() && offers == old(offers) + [Offer(old(nextId), p, sale, ware, amount, price, now)]
      ensures OfferMoney(offers) == old(OfferMoney(offers)) + if sale then 0 else price * amount
      ensures forall w :: OfferWares(offers, w) == old(OfferWares(offers, w)) + if sale && w == ware then amount else 0
    {
      var offer := Offer(nextId, p, sale, ware, amount, price, now);
      forall w ensures OfferWares(offers + [offer], w) == OfferWares(offers, w) + Wares(offer, w) {
        OffersAppend(offers, offer, w);
      }
      OffersAppend(offers, offer, ware);
      TableAppend(offers, results, |balances|, nextId, offer);
      offers, nextId := offers + [offer], nextId + 1;
    }

    ghost function OfferCount(p: nat): nat
      reads this
    {
      |set k | 0 <= k < |offers| && offers[k].playerId == p|
    }

    method GetPlayerOfferCount(p: nat) returns (n: nat)
      ensures n == OfferCount(p)
    {
      n := 0;
      ghost var mine: set<int> := {};
      for k := 0 to |offers|
        invariant mine == set j | 0 <= j < k && offers[j].playerId == p
        invariant n == |mine|
      {
        if offers[k].playerId == p {
          n := n + 1;
          mine := mine + {k};
        }
      }
    }

    /** IOMarket::getOfferByCounter: the first row with this time and counter. */
    method GetOfferByCounter(created: int, counter: nat) returns (k: int)
      ensures k == Lookup(offers, created, counter)
    {
      for j := 0 to |offers|
        invariant forall i :: 0 <= i < j ==> !Matches(offers[i], created, counter)
      {
        if offers[j].created == created && offers[j].id % COUNTERS == counter {
          LookupIs(offers, created, counter, j);
          return j;
        }
      }
      return -1;
    }

    /** Game::playerCancelMarketOffer. */
    method CancelOffer(p: nat, created: int, counter: nat) returns (ok: bool)
      requires Valid() && p < |balances|
      modifies this
      ensures Valid() && |balances| == old(|balances|) && results == old(results) && fees == old(fees)
      ensures AllMoney() == old(AllMoney()) && forall w :: AllWares(w) == old(AllWares(w))
      ensures var k := Lookup(old(offers), created, counter);
              && (ok <==> k >= 0 && old(offers)[k].playerId == p)
              && (!ok ==> offers == old(offers) && balances == old(balances) && stores == old(stores))
              && (ok ==> offers == Without(old(offers), k)
                         && balances == old(balances)[p := old(balances)[p] + Money(old(offers)[k])]
                         && if old(offers)[k].sale
                            then Received(wares, old(stores), stores, p, old(offers)[k].ware, old(offers)[k].amount)
                            else stores == old(stores))
    {
      var k := GetOfferByCounter(created, counter);
      if k == -1 || offers[k].playerId != p {
        return false;
      }
      var offer := offers[k];
      assert offer in offers;
      Refund(offer);
      DeleteAt(k);
      return true;
    }

    /** IOMarket::deleteOffer. */
    method DeleteAt(k: nat)
      requires k < |offers|
      modifies this`offers
      ensures offers == Without(old(offers), k)
      ensures old(Valid()) ==> Valid()
      ensures OfferMoney(offers) == old(OfferMoney(offers)) - Money(old(offers)[k])
      ensures forall w :: OfferWares(offers, w) == old(OfferWares(offers, w)) - Wares(old(offers)[k], w)
    {
      forall w ensures OfferWares(Without(offers, k), w) == OfferWares(offers, w) - Wares(offers[k], w) {
        OffersWithout(offers, k, w);
      }
      OffersWithout(offers, k, 0);
      if TableOk(offers, results, |balances|, nextId) {
        TableWithout(offers, results, |balances|, nextId, k);
      }
      offers := offers[..k] + offers[k + 1..];
    }

    /** Game::playerAcceptMarketOffer; players may accept their own offers. */
    method AcceptOffer(p: nat, created: int, counter: nat, amount: nat) returns (ok: bool)
      requires Valid() && p < |balances|
      modifies this
      ensures Valid() && |balances| == old(|balances|) && results == old(results) && fees == old(fees)
      ensures AllMoney() == old(AllMoney()) && forall w :: AllWares(w) == old(AllWares(w))
      ensures var k := Lookup(old(offers), created, counter);
              && (ok <==> 1 <= amount <= MAX_AMOUNT && k >= 0 && amount <= old(offers)[k].amount
                          && Affordable(old(balances), old(stores), p, old(offers)[k], amount))
              && (!ok ==> offers == old(offers) && balances == old(balances) && stores == old(stores))
              && (ok ==> offers == Reduced(old(offers), k, amount)
                         && balances == Traded(old(balances), p, old(offers)[k], amount)
                         && Delivered(wares, old(stores), stores, p, old(offers)[k], amount))
    {
      if amount == 0 || amount > MAX_AMOUNT {
        return false;
      }
      var k := GetOfferByCounter(created, counter);
      if k == -1 || amount > offers[k].amount {
        return false;
      }
      ok := AcceptAt(p, k, amount);
    }

    /** The rest of playerAcceptMarketOffer, for an offer that has been found. */
    method AcceptAt(p: nat, k: nat, amount: nat) returns (ok: bool)
      requires Valid() && p < |balances| && k < |offers| && 1 <= amount <= MAX_AMOUNT && amount <= offers[k].amount
      modifies this`balances, this`stores, this`nextGood, this`offers
      ensures Valid() && |balances| == old(|balances|)
      ensures AllMoney() == old(AllMoney()) && forall w :: AllWares(w) == old(AllWares(w))
      ensures ok <==> Affordable(old(balances), old(stores), p, old(offers)[k], amount)
      ensures !ok ==> offers == old(offers) && balances == old(balances) && stores == old(stores)
      ensures ok ==> offers == Reduced(old(offers), k, amount)
      ensures ok ==> balances == Traded(old(balances), p, old(offers)[k], amount)
      ensures ok ==> Delivered(wares, old(stores), stores, p, old(offers)[k], amount)
    {
      var offer := offers[k];
      assert offer in offers;
      ok := Settle(p, offer, amount);
      if !ok {
        return;
      }
      label settled:
      Reduce(k, amount);
      forall w ensures AllWares(w) == old(AllWares(w)) {
        assert OfferWares(offers, w) == old@settled(OfferWares(offers, w)) -
               if offer.sale && offer.ware == w then amount else 0;
      }
    }

    /** Moves the money and the items of an accepted offer; the offer itself is still to be reduced. */
    method Settle(p: nat, offer: Offer, amount: nat) returns (ok: bool)
      requires Stocked() && p < |balances| == |stores| && offer.playerId < |balances| && 1 <= amount <= MAX_AMOUNT
      modifies this`balances, this`stores, this`nextGood
      ensures Stocked() && |balances| == |stores| == old(|balances|)
      ensures ok <==> Affordable(old(balances), old(stores), p, offer, amount)
      ensures !ok ==> balances == old(balances) && stores == old(stores)
      ensures ok ==> balances == Traded(old(balances), p, offer, amount)
      ensures ok ==> Delivered(wares, old(stores), stores, p, offer, amount)
      ensures ok ==> Balances(balances) == old(Balances(balances)) + if offer.sale then 0 else offer.price * amount
      ensures ok ==>
                forall w ::
                  Held(stores, w) == old(Held(stores, w)) + if offer.sale && w == offer.ware then amount else 0
    {
      if offer.sale {
        ok := Buy(p, offer, amount);
      } else {
        ok := Sell(p, offer, amount);
      }
    }

    /** The player delivers what the offer asks for, and is paid from its money. */
    method Sell(p: nat, offer: Offer, amount: nat) returns (ok: bool)
      requires Stocked() && p < |balances| == |stores| && offer.playerId < |balances| && 1 <= amount <= MAX_AMOUNT
               && !offer.sale
      modifies this`balances, this`stores, this`nextGood
      ensures Stocked() && |balances| == |stores| == old(|balances|)
      ensures ok <==> amount <= ForSaleOf(old(stores)[p], offer.ware)
      ensures !ok ==> balances == old(balances) && stores == old(stores)
      ensures ok ==> balances == Traded(old(balances), p, offer, amount)
      ensures ok ==> Delivered(wares, old(stores), stores, p, offer, amount)
      ensures ok ==> Balances(balances) == old(Balances(balances)) + offer.price * amount
      ensures ok ==> forall w :: Held(stores, w) == old(Held(stores, w))
    {
      ok := Give(p, offer.ware, amount);
      if ok {
        TradedIs(balances, p, offer, amount);
        Earn(p, offer.price * amount);
        Receive(offer.playerId, offer.ware, amount);
      }
    }

    /** The player pays for what the offer has. */
    method Buy(p: nat, offer: Offer, amount: nat) returns (ok: bool)
      requires Stocked() && p < |balances| == |stores| && offer.playerId < |balances| && offer.sale
      modifies this`balances, this`stores, this`nextGood
      ensures Stocked() && |balances| == |stores| == old(|balances|)
      ensures ok <==> offer.price * amount <= old(balances)[p]
      ensures !ok ==> balances == old(balances) && stores == old(stores)
      ensures ok ==> balances == Traded(old(balances), p, offer, amount)
      ensures ok ==> Delivered(wares, old(stores), stores, p, offer, amount)
      ensures ok ==> Balances(balances) == old(Balances(balances))
      ensures ok ==> forall w :: Held(stores, w) == old(Held(stores, w)) + if w == offer.ware then amount else 0
    {
      var totalPrice := offer.price * amount;
      if totalPrice > balances[p] {
        return false;
      }
      TradedIs(balances, p, offer, amount);
      Pay(p, totalPrice);
      Receive(p, offer.ware, amount);
      Earn(offer.playerId, totalPrice);
      ok := true;
    }

    /** The one who accepts has the money, or the items. */
    ghost predicate Affordable(balances: seq<nat>, stores: seq<Store>, p: nat, o: Offer, amount: nat)
      requires p < |balances| == |stores|
    {
      if o.sale then o.price * amount <= balances[p] else amount <= ForSaleOf(stores[p], o.ware)
    }

    ghost function Reduced(offers: seq<Offer>, k: nat, amount: nat): seq<Offer>
      requires k < |offers| && amount <= offers[k].amount
    {
      if offers[k].amount == amount then Without(offers, k)
        else offers[k := offers[k].(amount := offers[k].amount - amount)]
    }

    /** Takes an amount off an offer, and deletes an offer of which nothing is left. */
    method Reduce(k: nat, amount: nat)
      requires Valid() && k < |offers| && 1 <= amount <= offers[k].amount
      modifies this`offers
      ensures Valid() && offers == Reduced(old(offers), k, amount)
      ensures OfferMoney(offers) == old(OfferMoney(offers)) -
              if old(offers)[k].sale then 0 else old(offers)[k].price * amount
      ensures forall w :: OfferWares(offers, w)
                          == old(OfferWares(offers, w)) -
                            if old(offers)[k].sale && old(offers)[k].ware == w then amount else 0
    {
      var offer := offers[k];
      if offer.amount == amount {
        DeleteAt(k);
      } else {
        ShrinkAt(k, amount);
      }
    }

    /** IOMarket::acceptOffer. */
    method ShrinkAt(k: nat, amount: nat)
      requires Valid() && k < |offers| && 1 <= amount < offers[k].amount
      modifies this`offers
      ensures Valid() && offers == old(offers)[k := old(offers)[k].(amount := old(offers)[k].amount - amount)]
      ensures OfferMoney(offers) == old(OfferMoney(offers)) -
              if old(offers)[k].sale then 0 else old(offers)[k].price * amount
      ensures forall w :: OfferWares(offers, w)
                          == old(OfferWares(offers, w)) -
                            if old(offers)[k].sale && old(offers)[k].ware == w then amount else 0
    {
      var offer := offers[k];
      var left := offer.(amount := offer.amount - amount);
      OffersUpdate(offers, k, left);
      forall w ensures OfferWares(offers[k := left], w)
        == OfferWares(offers, w) - Wares(offers[k], w) + Wares(left, w) {
        OffersUpdateWares(offers, k, left, w);
      }
      Difference(offer.price, offer.amount, amount);
      TableShrunk(offers, results, |balances|, nextId, k, left);
      offers := offers[k := left];
    }

    constructor (balances: seq<nat>, stores: seq<Store>, wares: WareTable, nextGood: nat)
      requires |balances| == |stores| && AllSound(stores, wares, nextGood)
      ensures Valid() && offers == [] && results == [] && nextId == 1 && this.balances == balances
              && this.stores == stores
      ensures this.wares == wares
    {
      this.balances, this.stores, this.wares, this.nextGood := balances, stores, wares, nextGood;
      offers, results, nextId, fees := [], [], 1, 0;
    }

    // ----- expiry

    /** IOMarket::checkExpiredOffers: the rows are read now and processed later. */
    method CheckExpiredOffers(lastExpireDate: int)
      requires Valid()
      modifies this`results
      ensures Valid() && results == old(results) + [Expired(offers, lastExpireDate)]
    {
      var rows: seq<Offer> := [];
      for k := 0 to |offers|
        invariant rows == Expired(offers[..k], lastExpireDate) && results == old(results)
      {
        assert offers[..k + 1] == offers[..k] + [offers[k]];
        ExpiredAppend(offers[..k], offers[k], lastExpireDate);
        if offers[k].created <= lastExpireDate {
          rows := rows + [offers[k]];
        }
      }
      assert offers[..|offers|] == offers;
      assert rows == Expired(offers, lastExpireDate);
      TableRead(offers, results, |balances|, nextId, lastExpireDate);
      results := results + [rows];
    }

    /** The row with an id, or -1. */
    method FindOffer(id: nat) returns (k: int)
      ensures k == Find(offers, id)
    {
      for j := 0 to |offers|
        invariant forall i :: 0 <= i < j ==> offers[i].id != id
      {
        if offers[j].id == id {
          FindIs(offers, id, j);
          return j;
        }
      }
      return -1;
    }

    /**
     IOMarket::processExpiredOffers. What is paid back is what the rows said when they were read, so an
     offer that has been accepted in part since then gives back more than it holds.
     */
    method ProcessExpiredOffers()
      requires Valid() && results != []
      modifies this
      ensures Valid() && |balances| == old(|balances|) && results == old(results)[1..] && fees == old(fees)
      ensures AllMoney() == old(AllMoney()) + ExtraMoney(old(results)[0], old(offers))
      ensures forall w :: AllWares(w) == old(AllWares(w)) + ExtraWares(old(results)[0], old(offers), w)
      ensures AllMoney() == old(AllMoney()) && (forall w :: AllWares(w) == old(AllWares(w)))
              <==> NoneStale(old(results)[0], old(offers))
      ensures forall r :: r in old(results)[0] ==> Find(offers, r.id) == -1
    {
      var rows := results[0];
      assert rows in results;
      ConservedIffNoneStale(rows, offers, |balances|, nextId);
      results := results[1..];
      ProcessRows(rows);
    }

    method ProcessRows(rows: seq<Offer>)
      requires Valid() && Snapshot(rows, offers, |balances|, nextId)
      modifies this`balances, this`stores, this`nextGood, this`offers
      ensures Valid() && |balances| == old(|balances|)
      ensures AllMoney() == old(AllMoney()) + ExtraMoney(rows, old(offers))
      ensures forall w :: AllWares(w) == old(AllWares(w)) + ExtraWares(rows, old(offers), w)
      ensures forall r :: r in rows ==> Find(offers, r.id) == -1
    {
      assert rows[0..] == rows;
      for i := 0 to |rows|
        invariant Valid() && |balances| == old(|balances|)
        invariant Snapshot(rows, offers, |balances|, nextId)
        invariant AllMoney() + ExtraMoney(rows[i..], offers) == old(AllMoney()) + ExtraMoney(rows, old(offers))
        invariant forall w :: AllWares(w) + ExtraWares(rows[i..], offers, w)
                              == old(AllWares(w)) + ExtraWares(rows, old(offers), w)
        invariant forall j :: 0 <= j < i ==> Find(offers, rows[j].id) == -1
      {
        ProcessRow(rows, i);
      }
      assert rows[|rows|..] == [];
    }

    /** An offer for ten items of which six are sold before the rows are processed: all ten are paid back. */
    static method PaidBackTwice() returns (market: Market, ghost before: nat)
      ensures market.Valid() && market.AllMoney() == before + 30
    {
      market := SoldInBetween();
      ghost var rows := market.results[0];
      before := market.AllMoney();
      assert ExtraMoney(rows, market.offers) == 30 by { assert rows[1..] == []; }
      market.ProcessExpiredOffers();
    }

    /** The offer is read when it has expired, and then six of its ten are sold. */
    static method SoldInBetween() returns (market: Market)
      ensures fresh(market) && market.Valid()
      ensures market.results == [[Offer(1, 0, false, 7, 10, 5, 0)]] && market.offers == [Offer(1, 0, false, 7, 4, 5, 0)]
    {
      market := TwoPlayers();
      var ok := market.CreateOffer(0, false, 7, 10, 5, 0, 0);
      ghost var offer := Offer(1, 0, false, 7, 10, 5, 0);
      assert market.offers == [offer];
      market.CheckExpiredOffers(0);
      assert market.results[0] == [offer] by { assert [offer][1..] == []; }
      LookupIs(market.offers, 0, 1, 0);
      ok := market.AcceptOffer(1, 0, 1, 6);
    }

    /** A player with 100 gold and one with six of a ware. */
    static method TwoPlayers() returns (market: Market)
      ensures fresh(market) && market.Valid() && market.balances == [100, 0] && market.offers == []
              && market.results == []
      ensures market.nextId == 1 && market.wares(7).stackable && ForSaleOf(market.stores[1], 7) == 6
    {
      var box: Tree<Good> := Node(Good(0, Kind(1, 1, true, []), 1, true), true, []);
      var stack: Tree<Good> := Node(Good(0, Kind(7, 7, true, []), 6, true), false, []);
      var none, six := Store(box, box), Store(box.(kids := [stack]), box);
      var wares: WareTable := w => WareType(w, true, false);
      SingleStack(six, stack.data.kind, 6, wares);
      assert Roots(none) == [] && [none, six][1..] == [six] && [six][1..] == [];
      market := new Market([100, 0], [none, six], wares, 1);
    }

    method ProcessRow(rows: seq<Offer>, i: nat)
      requires Valid() && Snapshot(rows, offers, |balances|, nextId) && i < |rows|
      modifies this`balances, this`stores, this`nextGood, this`offers
      ensures Valid() && Snapshot(rows, offers, |balances|, nextId) && |balances| == old(|balances|)
      ensures AllMoney() + ExtraMoney(rows[i + 1..], offers) == old(AllMoney() + ExtraMoney(rows[i..], offers))
      ensures forall w ::
                AllWares(w) + ExtraWares(rows[i + 1..], offers, w)
                == old(AllWares(w) + ExtraWares(rows[i..], offers, w))
      ensures Find(offers, rows[i].id) == -1
      ensures forall id :: old(Find(offers, id)) == -1 ==> Find(offers, id) == -1
    {
      var row := rows[i];
      var k := FindOffer(row.id);
      if k == -1 {
        ExtraGone(rows, i, offers);
        return;
      }
      MoveToHistory(rows, i, k);
      Refund(row);
    }

    /** IOMarket::moveOfferToHistory; the owner has not been paid back yet. */
    method MoveToHistory(rows: seq<Offer>, i: nat, k: nat)
      requires Valid() && Snapshot(rows, offers, |balances|, nextId) && i < |rows| && k < |offers|
               && offers[k].id == rows[i].id
      modifies this`offers
      ensures Valid() && Snapshot(rows, offers, |balances|, nextId)
      ensures var row := rows[i];
              OfferMoney(offers) + ExtraMoney(rows[i + 1..], offers) + Money(row)
              == old(OfferMoney(offers) + ExtraMoney(rows[i..], offers))
      ensures forall w :: OfferWares(offers, w) + ExtraWares(rows[i + 1..], offers, w) + Wares(rows[i], w)
                          == old(OfferWares(offers, w) + ExtraWares(rows[i..], offers, w))
      ensures Find(offers, rows[i].id) == -1
      ensures forall id :: old(Find(offers, id)) == -1 ==> Find(offers, id) == -1
    {
      assert rows[i] in rows && offers[k] in offers;
      forall w
        ensures OfferWares(Without(offers, k), w) + ExtraWares(rows[i + 1..], Without(offers, k), w) + Wares(rows[i], w)
                == OfferWares(offers, w) + ExtraWares(rows[i..], offers, w)
      {
        HistoryTotals(offers, k, rows, i, w);
      }
      HistoryTotals(offers, k, rows, i, 0);
      FindWithout(offers, k);
      DeleteAt(k);
    }

    method Refund(row: Offer)
      requires Stocked() && row.playerId < |balances| == |stores|
      modifies this`balances, this`stores, this`nextGood
      ensures Stocked() && |balances| == |stores| == old(|balances|)
      ensures Balances(balances) == old(Balances(balances)) + Money(row)
      ensures forall w :: Held(stores, w) == old(Held(stores, w)) + Wares(row, w)
      ensures balances == old(balances)[row.playerId := old(balances)[row.playerId] + Money(row)]
      ensures if row.sale then Received(wares, old(stores), stores, row.playerId, row.ware, row.amount)
              else stores == old(stores)
    {
      if row.sale {
        Receive(row.playerId, row.ware, row.amount);
      } else {
        Earn(row.playerId, row.price * row.amount);
      }
    }
  }

  ghost predicate AllSound(stores: seq<Store>, wares: WareTable, next: nat) {
    stores == [] || (Sound(Roots(stores[0]), wares, next) && AllSound(stores[1..], wares, next))
  }

  lemma {:induction false} SoundAt(stores: seq<Store>, wares: WareTable, next: nat, p: nat)
    requires AllSound(stores, wares, next) && p < |stores|
    ensures Sound(Roots(stores[p]), wares, next)
    decreases p
  {
    if p > 0 {
      SoundAt(stores[1..], wares, next, p - 1);
    }
  }

  lemma {:induction false} SoundUpdate(stores: seq<Store>, wares: WareTable, next: nat, p: nat, store: Store,
                                       later: nat)
    requires AllSound(stores, wares, next) && p < |stores| && next <= later && Sound(Roots(store), wares, later)
    ensures AllSound(stores[p := store], wares, later)
    decreases |stores|
  {
    if p == 0 {
      assert stores[p := store][1..] == stores[1..];
      AllLater(stores[1..], wares, next, later);
    } else {
      assert stores[p := store][1..] == stores[1..][p - 1 := store];
      SoundLater(Roots(stores[0]), wares, next, later);
      SoundUpdate(stores[1..], wares, next, p - 1, store, later);
    }
  }

  lemma {:induction false} AllLater(stores: seq<Store>, wares: WareTable, next: nat, later: nat)
    requires AllSound(stores, wares, next) && next <= later
    ensures AllSound(stores, wares, later)
  {
    if stores != [] {
      SoundLater(Roots(stores[0]), wares, next, later);
      AllLater(stores[1..], wares, next, later);
    }
  }

  /** n of a ware have been taken from what a player had for sale, and nothing else has changed. */
  ghost predicate Given(wares: WareTable, before: seq<Store>, after: seq<Store>, p: nat, ware: Ware, n: nat) {
    && p < |before| == |after| && after == before[p := after[p]] && 0 < n <= ForSaleOf(before[p], ware)
    && Taken(Roots(before[p]), Roots(after[p]), ListOf(before[p], ware, n), ware, n)
  }

  /** n of a ware have been delivered to a player, and nothing else has changed. */
  ghost predicate Received(wares: WareTable, before: seq<Store>, after: seq<Store>, p: nat, ware: Ware, n: nat) {
    && p < |before| == |after| && after == before[p := after[p]]
    && Added(Roots(before[p]), Roots(after[p]), KindOf(wares, ware), n)
  }

  /** The seller's items have come to the one who accepts, or those of the one who accepts to the buyer. */
  ghost predicate Delivered(wares: WareTable, before: seq<Store>, after: seq<Store>, p: nat, o: Offer, amount: nat) {
    if o.sale then Received(wares, before, after, p, o.ware, amount)
    else exists between :: Given(wares, before, between, p, o.ware, amount)
                           && Received(wares, between, after, o.playerId, o.ware, amount)
  }

  ghost predicate Matches(o: Offer, created: int, counter: nat) {
    o.created == created && o.id % COUNTERS == counter
  }

  ghost function Lookup(offers: seq<Offer>, created: int, counter: nat): (k: int)
    ensures -1 <= k < |offers| && (k >= 0 ==> Matches(offers[k], created, counter))
    ensures k == -1 ==> forall o :: o in offers ==> !Matches(o, created, counter)
  {
    if offers == [] then -1
    else if Matches(offers[0], created, counter) then 0
    else
      var k := Lookup(offers[1..], created, counter);
      if k == -1 then -1 else k + 1
  }

  lemma {:induction false} LookupIs(offers: seq<Offer>, created: int, counter: nat, k: nat)
    requires k < |offers| && Matches(offers[k], created, counter)
    requires forall j :: 0 <= j < k ==> !Matches(offers[j], created, counter)
    ensures Lookup(offers, created, counter) == k
    decreases k
  {
    if k > 0 {
      LookupIs(offers[1..], created, counter, k - 1);
    }
  }

  // ----- the rows of expired offers

  ghost function Expired(offers: seq<Offer>, date: int): (rows: seq<Offer>)
    ensures forall r :: r in rows ==> r in offers && r.created <= date
  {
    if offers == [] then [] else (if offers[0].created <= date then [offers[0]] else []) + Expired(offers[1..], date)
  }

  lemma {:induction false} ExpiredAppend(offers: seq<Offer>, o: Offer, date: int)
    ensures Expired(offers + [o], date) == Expired(offers, date) + if o.created <= date then [o] else []
    decreases |offers|
  {
    if offers == [] {
      assert (offers + [o])[1..] == [];
    } else {
      assert (offers + [o])[0] == offers[0] && (offers + [o])[1..] == offers[1..] + [o];
      ExpiredAppend(offers[1..], o, date);
    }
  }

  lemma {:induction false} SameId(offers: seq<Offer>, o: Offer, r: Offer)
    requires DistinctIds(offers) && o in offers && r in offers && o.id == r.id
    ensures o == r
  {
  }

  lemma {:induction false} ExpiredIsSnapshot(offers: seq<Offer>, date: int)
    requires DistinctIds(offers)
    ensures forall r, o :: r in Expired(offers, date) && o in offers && o.id == r.id ==> o == r
    ensures DistinctIds(Expired(offers, date))
    decreases |offers|
  {
    forall r, o | r in Expired(offers, date) && o in offers && o.id == r.id ensures o == r {
      SameId(offers, o, r);
    }
    if offers != [] {
      ExpiredIsSnapshot(offers[1..], date);
      var rows, rest := Expired(offers, date), Expired(offers[1..], date);
      forall r | r in rest ensures r.id != offers[0].id {
        var j :| 0 <= j < |offers[1..]| && offers[1..][j] == r;
        assert offers[j + 1] == r;
      }
      assert rows == (if offers[0].created <= date then [offers[0]] else []) + rest;
    }
  }

  ghost function Find(offers: seq<Offer>, id: nat): (k: int)
    ensures -1 <= k < |offers| && (k >= 0 ==> offers[k].id == id)
    ensures k == -1 ==> forall o :: o in offers ==> o.id != id
  {
    if offers == [] then -1
    else if offers[0].id == id then 0
    else
      var k := Find(offers[1..], id);
      if k == -1 then -1 else k + 1
  }

  lemma {:induction false} FindIs(offers: seq<Offer>, id: nat, k: nat)
    requires k < |offers| && offers[k].id == id && forall j :: 0 <= j < k ==> offers[j].id != id
    ensures Find(offers, id) == k
    decreases k
  {
    if k > 0 {
      FindIs(offers[1..], id, k - 1);
    }
  }

  lemma {:induction false} FindUnique(offers: seq<Offer>, k: nat)
    requires k < |offers| && DistinctIds(offers)
    ensures Find(offers, offers[k].id) == k
  {
    FindIs(offers, offers[k].id, k);
  }

  /** What a row gives back beyond what its offer still holds. */
  ghost function Extra(row: Offer, offers: seq<Offer>): int {
    var k := Find(offers, row.id);
    if k == -1 then 0 else row.amount - offers[k].amount
  }

  ghost function ExtraMoney(rows: seq<Offer>, offers: seq<Offer>): int {
    if rows == [] then 0
    else (if rows[0].sale then 0 else rows[0].price * Extra(rows[0], offers)) + ExtraMoney(rows[1..], offers)
  }

  ghost function ExtraWares(rows: seq<Offer>, offers: seq<Offer>, w: Ware): int {
    if rows == [] then 0
    else (if rows[0].sale && rows[0].ware == w then Extra(rows[0], offers) else 0) + ExtraWares(rows[1..], offers, w)
  }

  ghost predicate DistinctIds(offers: seq<Offer>) {
    forall j, k :: 0 <= j < k < |offers| ==> offers[j].id != offers[k].id
  }

  /** Deleting one offer hides it from its own row only. */
  lemma {:induction false} FindWithout(offers: seq<Offer>, k: nat)
    requires k < |offers| && DistinctIds(offers)
    ensures Find(Without(offers, k), offers[k].id) == -1
    ensures forall id :: id != offers[k].id ==>
              var j, j' := Find(offers, id), Find(Without(offers, k), id);
              (j == -1 <==> j' == -1) && (j >= 0 ==> Without(offers, k)[j'] == offers[j])
  {
    var left := Without(offers, k);
    assert forall o :: o in left ==> o in offers;
    forall o | o in left ensures o.id != offers[k].id {
    }
    forall id | id != offers[k].id
      ensures var j, j' := Find(offers, id), Find(left, id);
              (j == -1 <==> j' == -1) && (j >= 0 ==> left[j'] == offers[j])
    {
      var j := Find(offers, id);
      if j >= 0 {
        assert left[if j < k then j else j - 1] == offers[j];
        assert offers[j] in left;
      }
    }
  }

  lemma {:induction false} ExtraWithout(offers: seq<Offer>, k: nat, rows: seq<Offer>, i: nat)
    requires k < |offers| && DistinctIds(offers) && DistinctIds(rows) && 0 < i <= |rows|
             && rows[i - 1].id == offers[k].id
    ensures ExtraMoney(rows[i..], Without(offers, k)) == ExtraMoney(rows[i..], offers)
    ensures forall w :: ExtraWares(rows[i..], Without(offers, k), w) == ExtraWares(rows[i..], offers, w)
  {
    FindWithout(offers, k);
    assert forall r :: r in rows[i..] ==> r.id != offers[k].id;
    forall w {
      ExtraSame(rows[i..], offers, Without(offers, k), w);
    }
    ExtraSame(rows[i..], offers, Without(offers, k), 0);
  }

  /** No offer of the rows has been accepted in part since they were read. */
  ghost predicate NoneStale(rows: seq<Offer>, offers: seq<Offer>) {
    forall r, o :: r in rows && o in offers && r.id == o.id ==> o.amount == r.amount
  }

  lemma {:induction false} ExtraBounds(rows: seq<Offer>, offers: seq<Offer>, players: nat, nextId: nat, w: Ware)
    requires Snapshot(rows, offers, players, nextId)
    ensures forall r :: r in rows ==> Extra(r, offers) >= 0
    ensures ExtraMoney(rows, offers) >= 0 && ExtraWares(rows, offers, w) >= 0
    ensures forall r :: r in rows && Extra(r, offers) > 0 ==>
              (!r.sale ==> ExtraMoney(rows, offers) > 0) && (r.sale && r.ware == w ==> ExtraWares(rows, offers, w) > 0)
    decreases |rows|
  {
    if rows != [] {
      ExtraBounds(rows[1..], offers, players, nextId, w);
      var k := Find(offers, rows[0].id);
      assert rows[0] in rows && (k >= 0 ==> offers[k] in offers);
      assert Extra(rows[0], offers) > 0 ==> rows[0].price * Extra(rows[0], offers) > 0;
      assert forall r :: r in rows ==> r == rows[0] || r in rows[1..];
    }
  }

  /** Money and items are conserved exactly when no row is stale. */
  lemma {:induction false} ConservedIffNoneStale(rows: seq<Offer>, offers: seq<Offer>, players: nat, nextId: nat)
    requires Snapshot(rows, offers, players, nextId) && DistinctIds(offers)
    ensures ExtraMoney(rows, offers) == 0 && (forall w :: ExtraWares(rows, offers, w) == 0) <==> NoneStale(rows, offers)
  {
    if NoneStale(rows, offers) {
      forall r | r in rows ensures Extra(r, offers) == 0 {
        var k := Find(offers, r.id);
        assert k >= 0 ==> offers[k] in offers;
      }
      forall w ensures ExtraWares(rows, offers, w) == 0 {
        NoExtra(rows, offers, w);
      }
      NoExtra(rows, offers, 0);
    } else {
      var r, o :| r in rows && o in offers && r.id == o.id && o.amount != r.amount;
      var k :| 0 <= k < |offers| && offers[k] == o;
      FindUnique(offers, k);
      ExtraBounds(rows, offers, players, nextId, r.ware);
      assert Extra(r, offers) > 0;
    }
  }

  lemma {:induction false} NoExtra(rows: seq<Offer>, offers: seq<Offer>, w: Ware)
    requires forall r :: r in rows ==> Extra(r, offers) == 0
    ensures ExtraMoney(rows, offers) == 0 && ExtraWares(rows, offers, w) == 0
    decreases |rows|
  {
    if rows != [] {
      NoExtra(rows[1..], offers, w);
    }
  }

  /** With an offer goes what it held, and its row is paid back in full. */
  lemma {:induction false} HistoryTotals(offers: seq<Offer>, k: nat, rows: seq<Offer>, i: nat, w: Ware)
    requires k < |offers| && DistinctIds(offers) && DistinctIds(rows) && i < |rows|
    requires offers[k] == rows[i].(amount := offers[k].amount) && offers[k].amount <= rows[i].amount
    ensures OfferMoney(Without(offers, k)) + ExtraMoney(rows[i + 1..], Without(offers, k)) + Money(rows[i])
            == OfferMoney(offers) + ExtraMoney(rows[i..], offers)
    ensures OfferWares(Without(offers, k), w) + ExtraWares(rows[i + 1..], Without(offers, k), w) + Wares(rows[i], w)
            == OfferWares(offers, w) + ExtraWares(rows[i..], offers, w)
  {
    ExtraHead(rows, i, offers, w);
    FindUnique(offers, k);
    ExtraWithout(offers, k, rows, i + 1);
    OffersWithout(offers, k, w);
    Difference(rows[i].price, rows[i].amount, offers[k].amount);
  }

  lemma {:induction false} Difference(price: nat, a: nat, b: nat)
    ensures price * (a - b) == price * a - price * b
  {
  }

  lemma {:induction false} ExtraGone(rows: seq<Offer>, i: nat, offers: seq<Offer>)
    requires i < |rows| && Find(offers, rows[i].id) == -1
    ensures ExtraMoney(rows[i..], offers) == ExtraMoney(rows[i + 1..], offers)
    ensures forall w :: ExtraWares(rows[i..], offers, w) == ExtraWares(rows[i + 1..], offers, w)
  {
    ExtraHead(rows, i, offers, 0);
    forall w ensures ExtraWares(rows[i..], offers, w) == ExtraWares(rows[i + 1..], offers, w) {
      ExtraHead(rows, i, offers, w);
    }
  }

  lemma {:induction false} ExtraHead(rows: seq<Offer>, i: nat, offers: seq<Offer>, w: Ware)
    requires i < |rows|
    ensures var row := rows[i];
            ExtraMoney(rows[i..], offers)
            == (if row.sale then 0 else row.price * Extra(row, offers)) + ExtraMoney(rows[i + 1..], offers)
    ensures var row := rows[i];
            ExtraWares(rows[i..], offers, w)
            == (if row.sale && row.ware == w then Extra(row, offers) else 0) + ExtraWares(rows[i + 1..], offers, w)
  {
    assert rows[i..][0] == rows[i] && rows[i..][1..] == rows[i + 1..];
  }

  lemma {:induction false} ExtraSame(rows: seq<Offer>, a: seq<Offer>, b: seq<Offer>, w: Ware)
    requires forall r :: r in rows ==> Extra(r, a) == Extra(r, b)
    ensures ExtraMoney(rows, a) == ExtraMoney(rows, b) && ExtraWares(rows, a, w) == ExtraWares(rows, b, w)
    decreases |rows|
  {
    if rows != [] {
      ExtraSame(rows[1..], a, b, w);
    }
  }

  /** A hundredth of the price, at least 20 and at most 1000. */
  function Fee(price: nat, amount: nat): (fee: nat)
    ensures 20 <= fee <= 1000
  {
    var fee := price * amount / 100;
    if fee < 20 then 20 else if fee > 1000 then 1000 else fee
  }
}
