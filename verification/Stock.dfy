/**
 The items of a player that the market reaches: the trees of the depot chest and the inbox. An offer
 collects items from them, removes just as many as it needs, and delivers new ones.
 */
module Stock {
  import opened Basics
  import opened Forest

  type Ware = int

  const MAX_AMOUNT := 64000
  const STACK_MAX := 100
  const WRAP16 := 0x1_0000

  /** Item type and attributes; items with the same kind stack together. Plain ones have no attributes of their own. */
  datatype Kind = Kind(typeId: int, ware: Ware, plain: bool, attributes: seq<int>)

  /** An item; one that is a container may have another size than is usual. */
  datatype Good = Good(id: nat, kind: Kind, count: nat, rightSize: bool)

  /** What an item type is that is traded under a ware. */
  datatype WareType = WareType(typeId: int, stackable: bool, container: bool)

  type WareTable = Ware -> WareType

  datatype Store = Store(depotChest: Tree<Good>, inbox: Tree<Good>)

  function Roots(store: Store): seq<Tree<Good>> {
    store.depotChest.kids + store.inbox.kids
  }

  // ----- what is in a forest of items

  /** How many of a ware there are, at all depths. */
  ghost function Owned(ts: seq<Tree<Good>>, w: Ware): nat {
    if ts == [] then 0
    else (if ts[0].data.kind.ware == w then ts[0].data.count else 0) + Owned(ts[0].kids, w) + Owned(ts[1..], w)
  }

  /** How often an item occurs, just as it is. */
  ghost function Copies(ts: seq<Tree<Good>>, g: Good): nat {
    if ts == [] then 0
    else (if ts[0].data == g then 1 else 0) + Copies(ts[0].kids, g) + Copies(ts[1..], g)
  }

  /** How many items have an identity. */
  ghost function Times(ts: seq<Tree<Good>>, id: nat): nat {
    if ts == [] then 0
    else (if ts[0].data.id == id then 1 else 0) + Times(ts[0].kids, id) + Times(ts[1..], id)
  }

  /** How many of a ware could be sold if they were empty, and how many of them are not empty. */
  ghost function FitIn(ts: seq<Tree<Good>>, w: Ware): nat {
    if ts == [] then 0
    else (if Fit(ts[0], w) then ts[0].data.count else 0) + FitIn(ts[0].kids, w) + FitIn(ts[1..], w)
  }

  ghost function Packed(ts: seq<Tree<Good>>, w: Ware): nat {
    if ts == [] then 0
    else
      (if Fit(ts[0], w) && !Sellable(ts[0], w) then ts[0].data.count else 0)
      + Packed(ts[0].kids, w) + Packed(ts[1..], w)
  }

  /** Plain, and of its usual size if it is a container. */
  predicate Fit(t: Tree<Good>, wareId: Ware) {
    t.data.kind.ware == wareId && (t.isContainer ==> t.data.rightSize) && t.data.kind.plain
  }

  /** Fit, and not a container with something inside. */
  predicate Sellable(t: Tree<Good>, wareId: Ware) {
    Fit(t, wareId) && !(t.isContainer && t.kids != [])
  }

  /** The item is there, has nothing inside and can be sold. */
  ghost predicate ForSale(ts: seq<Tree<Good>>, g: Good) {
    ts != []
    && ((ts[0].data == g && ts[0].kids == [] && Sellable(ts[0], g.kind.ware)) || ForSale(ts[0].kids, g)
        || ForSale(ts[1..], g))
  }

  predicate GoodOk(g: Good, wares: WareTable, next: nat) {
    g.id < next && 1 <= g.count && if wares(g.kind.ware).stackable then g.count <= STACK_MAX else g.count == 1
  }

  /** Every item is one of its own, and stacks hold at most a hundred. */
  ghost predicate Sound(ts: seq<Tree<Good>>, wares: WareTable, next: nat) {
    && (forall id :: Times(ts, id) <= 1)
    && (forall g :: Copies(ts, g) > 0 ==> GoodOk(g, wares, next))
    && forall t :: t in ts ==> WellFormed(t)
  }

  lemma {:induction false} ConcatCounts(a: seq<Tree<Good>>, b: seq<Tree<Good>>, w: Ware, g: Good, id: nat)
    ensures Owned(a + b, w) == Owned(a, w) + Owned(b, w)
    ensures Copies(a + b, g) == Copies(a, g) + Copies(b, g)
    ensures Times(a + b, id) == Times(a, id) + Times(b, id)
    ensures FitIn(a + b, w) == FitIn(a, w) + FitIn(b, w) && Packed(a + b, w) == Packed(a, w) + Packed(b, w)
    ensures ForSale(a + b, g) <==> ForSale(a, g) || ForSale(b, g)
    decreases |a|
  {
    if a == [] {
      assert a + b == b;
    } else {
      assert (a + b)[1..] == a[1..] + b;
      ConcatCounts(a[1..], b, w, g, id);
    }
  }

  lemma {:induction false} LeafCounts(ts: seq<Tree<Good>>, g: Good)
    ensures ForSale(ts, g) ==> Copies(ts, g) > 0
    ensures Copies(ts, g) <= Times(ts, g.id)
  {
    if ts != [] {
      LeafCounts(ts[0].kids, g);
      LeafCounts(ts[1..], g);
    }
  }

  // ----- removing some of one item

  /** internalRemoveItem: some of a stack is taken, or the whole item. */
  function TakeOut(ts: seq<Tree<Good>>, g: Good, n: nat): seq<Tree<Good>>
    requires n <= g.count
  {
    if ts == [] then []
    else if ts[0].data == g then
      (if n < g.count then [ts[0].(data := g.(count := g.count - n))] else []) + TakeOut(ts[1..], g, n)
    else [ts[0].(kids := TakeOut(ts[0].kids, g, n))] + TakeOut(ts[1..], g, n)
  }

  lemma {:induction false} TakeOutConcat(a: seq<Tree<Good>>, b: seq<Tree<Good>>, g: Good, n: nat)
    requires n <= g.count
    ensures TakeOut(a + b, g, n) == TakeOut(a, g, n) + TakeOut(b, g, n)
    decreases |a|
  {
    if a == [] {
      assert a + b == b;
    } else {
      assert (a + b)[0] == a[0] && (a + b)[1..] == a[1..] + b;
      TakeOutConcat(a[1..], b, g, n);
    }
  }

  lemma {:induction false} TakeOutNothing(ts: seq<Tree<Good>>, g: Good, n: nat)
    requires n <= g.count && Copies(ts, g) == 0
    ensures TakeOut(ts, g, n) == ts
  {
    if ts != [] {
      TakeOutNothing(ts[0].kids, g, n);
      TakeOutNothing(ts[1..], g, n);
      assert [ts[0]] + ts[1..] == ts;
    }
  }

  /** Just that many are gone of the ware, and of no other. */
  lemma {:induction false} TakeOutOwned(ts: seq<Tree<Good>>, g: Good, n: nat, w: Ware)
    requires n <= g.count && ForSale(ts, g) && Copies(ts, g) == 1
    ensures Owned(TakeOut(ts, g, n), w) == Owned(ts, w) - if w == g.kind.ware then n else 0
    ensures FitIn(TakeOut(ts, g, n), w) == FitIn(ts, w) - if w == g.kind.ware then n else 0
  {
    LeafCounts(ts[0].kids, g);
    LeafCounts(ts[1..], g);
    var rest := TakeOut(ts[1..], g, n);
    if ts[0].data == g {
      TakeOutNothing(ts[1..], g, n);
      var left := if n < g.count then [ts[0].(data := g.(count := g.count - n))] else [];
      assert left != [] ==> (left + rest)[0] == left[0] && (left + rest)[1..] == rest;
      assert left == [] ==> left + rest == rest;
    } else {
      var first := ts[0].(kids := TakeOut(ts[0].kids, g, n));
      assert ([first] + rest)[0] == first && ([first] + rest)[1..] == rest;
      if ForSale(ts[0].kids, g) {
        TakeOutOwned(ts[0].kids, g, n, w);
        TakeOutNothing(ts[1..], g, n);
      } else {
        TakeOutNothing(ts[0].kids, g, n);
        TakeOutOwned(ts[1..], g, n, w);
      }
    }
  }

  /** Taking something out fills no container. */
  lemma {:induction false} TakeOutPacked(ts: seq<Tree<Good>>, g: Good, n: nat, w: Ware)
    requires n <= g.count && ForSale(ts, g) && Copies(ts, g) == 1
    ensures Packed(TakeOut(ts, g, n), w) <= Packed(ts, w)
  {
    LeafCounts(ts[0].kids, g);
    LeafCounts(ts[1..], g);
    var rest := TakeOut(ts[1..], g, n);
    if ts[0].data == g {
      TakeOutNothing(ts[1..], g, n);
      var left := if n < g.count then [ts[0].(data := g.(count := g.count - n))] else [];
      assert left != [] ==> (left + rest)[0] == left[0] && (left + rest)[1..] == rest;
      assert left == [] ==> left + rest == rest;
    } else {
      var first := ts[0].(kids := TakeOut(ts[0].kids, g, n));
      assert ([first] + rest)[0] == first && ([first] + rest)[1..] == rest;
      if ForSale(ts[0].kids, g) {
        TakeOutPacked(ts[0].kids, g, n, w);
        TakeOutNothing(ts[1..], g, n);
      } else {
        TakeOutNothing(ts[0].kids, g, n);
        TakeOutPacked(ts[1..], g, n, w);
      }
    }
  }

  /** No other item has changed. */
  lemma {:induction false} TakeOutOthers(ts: seq<Tree<Good>>, g: Good, n: nat, h: Good, id: nat)
    requires n <= g.count && ForSale(ts, g) && Copies(ts, g) == 1
    ensures h.id != g.id ==> Copies(TakeOut(ts, g, n), h) == Copies(ts, h)
    ensures Times(TakeOut(ts, g, n), id) <= Times(ts, id)
    ensures Copies(TakeOut(ts, g, n), h) > 0 ==> Copies(ts, h) > 0 || (n < g.count && h == g.(count := g.count - n))
  {
    LeafCounts(ts[0].kids, g);
    LeafCounts(ts[1..], g);
    var rest := TakeOut(ts[1..], g, n);
    if ts[0].data == g {
      TakeOutNothing(ts[1..], g, n);
      var left := if n < g.count then [ts[0].(data := g.(count := g.count - n))] else [];
      assert left != [] ==> (left + rest)[0] == left[0] && (left + rest)[1..] == rest;
      assert left == [] ==> left + rest == rest;
    } else {
      var first := ts[0].(kids := TakeOut(ts[0].kids, g, n));
      assert ([first] + rest)[0] == first && ([first] + rest)[1..] == rest;
      if ForSale(ts[0].kids, g) {
        TakeOutOthers(ts[0].kids, g, n, h, id);
        TakeOutNothing(ts[1..], g, n);
      } else {
        TakeOutNothing(ts[0].kids, g, n);
        TakeOutOthers(ts[1..], g, n, h, id);
      }
    }
  }

  lemma {:induction false} TakeOutLeaves(ts: seq<Tree<Good>>, g: Good, n: nat, h: Good)
    requires n <= g.count && ForSale(ts, h) && h.id != g.id
    requires ForSale(ts, g) && Copies(ts, g) == 1
    ensures ForSale(TakeOut(ts, g, n), h)
  {
    LeafCounts(ts[0].kids, g);
    LeafCounts(ts[1..], g);
    var rest := TakeOut(ts[1..], g, n);
    if ts[0].data == g {
      TakeOutNothing(ts[1..], g, n);
      var left := if n < g.count then [ts[0].(data := g.(count := g.count - n))] else [];
      assert TakeOut(ts, g, n) == left + rest && ForSale(rest, h);
      assert left == [] ==> left + rest == rest;
      assert left != [] ==> (left + rest)[1..] == rest;
    } else {
      var kids := TakeOut(ts[0].kids, g, n);
      var first := ts[0].(kids := kids);
      assert TakeOut(ts, g, n) == [first] + rest && ([first] + rest)[0] == first && ([first] + rest)[1..] == rest;
      if ForSale(ts[0].kids, g) {
        TakeOutNothing(ts[1..], g, n);
        if ForSale(ts[0].kids, h) {
          TakeOutLeaves(ts[0].kids, g, n, h);
        }
      } else {
        TakeOutNothing(ts[0].kids, g, n);
        if ForSale(ts[1..], h) {
          TakeOutLeaves(ts[1..], g, n, h);
        }
      }
    }
  }

  lemma {:induction false} TakeOutWellFormed(ts: seq<Tree<Good>>, g: Good, n: nat)
    requires n <= g.count && forall t :: t in ts ==> WellFormed(t)
    ensures forall t :: t in TakeOut(ts, g, n) ==> WellFormed(t)
  {
    if ts != [] {
      assert ts[0] in ts && WellFormed(ts[0]);
      TakeOutWellFormed(ts[0].kids, g, n);
      TakeOutWellFormed(ts[1..], g, n);
    }
  }

  // ----- the list of what can be sold

  ghost function SellableIn(ts: seq<Tree<Good>>, wareId: Ware): seq<Good> {
    if ts == [] then []
    else (if Sellable(ts[0], wareId) then [ts[0].data] else []) + SellableIn(ts[1..], wareId)
  }

  ghost function CountOf(goods: seq<Good>): nat {
    if goods == [] then 0 else goods[0].count + CountOf(goods[1..])
  }

  lemma {:induction false} CountOfConcat(a: seq<Good>, b: seq<Good>)
    ensures CountOf(a + b) == CountOf(a) + CountOf(b)
    decreases |a|
  {
    if a == [] {
      assert a + b == b;
    } else {
      assert (a + b)[1..] == a[1..] + b;
      CountOfConcat(a[1..], b);
    }
  }

  ghost function Reversed(goods: seq<Good>): seq<Good> {
    if goods == [] then [] else Reversed(goods[1..]) + [goods[0]]
  }

  lemma {:induction false} ReversedAppend(goods: seq<Good>, g: Good)
    ensures Reversed(goods + [g]) == [g] + Reversed(goods)
    decreases |goods|
  {
    if goods == [] {
      assert (goods + [g])[1..] == [];
    } else {
      assert (goods + [g])[0] == goods[0] && (goods + [g])[1..] == goods[1..] + [g];
      ReversedAppend(goods[1..], g);
    }
  }

  /** The sellable things still to be met when these are next in line. */
  ghost function ToCome(pending: seq<Tree<Good>>, wareId: Ware): seq<Good> {
    SellableIn(Queued(pending), wareId)
  }

  lemma {:induction false} ToComeStep(pending: seq<Tree<Good>>, wareId: Ware)
    requires pending != []
    ensures Size(pending[1..] + pending[0].kids) < Size(pending)
    ensures ToCome(pending, wareId)
            == (if Sellable(pending[0], wareId) then [pending[0].data] else [])
              + ToCome(pending[1..] + pending[0].kids, wareId)
  {
    SizeConcat(pending[1..], pending[0].kids);
    var rest := Queued(pending[1..] + pending[0].kids);
    assert Queued(pending) == [pending[0]] + rest;
    assert Queued(pending)[1..] == rest;
  }

  /** The shortest part from the front that has the count. */
  ghost function EnoughOf(all: seq<Good>, sufficientCount: nat): seq<Good>
    requires 0 < sufficientCount <= CountOf(all)
  {
    [all[0]] + if all[0].count >= sufficientCount then [] else EnoughOf(all[1..], sufficientCount - all[0].count)
  }

  lemma {:induction false} EnoughUnique(all: seq<Good>, met: seq<Good>, sufficientCount: nat)
    requires Enough(all, met, sufficientCount) && sufficientCount > 0
    ensures met == EnoughOf(all, sufficientCount)
    decreases |met|
  {
    assert met[0] == all[0];
    if |met| == 1 {
      assert met[1..] == [] && met == [met[0]];
    } else {
      assert met[..|met| - 1][0] == all[0] && met[..|met| - 1][1..] == met[1..][..|met[1..]| - 1];
      EnoughUnique(all[1..], met[1..], sufficientCount - all[0].count);
      assert met == [met[0]] + met[1..];
    }
  }

  /**
   Game::getMarketItemList: the sellable items in the order in which they are met, level by level, up
   to the first that makes the count sufficient, listed backwards; nothing if they do not suffice.
   The count has 16 bits.
   */
  method GetMarketItemList(wareId: Ware, sufficientCount: nat, depotChest: Tree<Good>, inbox: Tree<Good>)
    returns (itemList: seq<Good>)
    requires 1 <= sufficientCount <= MAX_AMOUNT
    requires forall t :: t in LevelOrder(depotChest.kids + inbox.kids) ==> t.data.count < 0x100 && WellFormed(t)
    ensures var all := SellableIn(LevelOrder(depotChest.kids + inbox.kids), wareId);
            itemList == if CountOf(all) < sufficientCount then [] else Reversed(EnoughOf(all, sufficientCount))
  {
    itemList := [];
    ghost var met: seq<Good> := [];
    var count := 0;
    var containers := [depotChest, inbox];
    ghost var all := SellableIn(LevelOrder(depotChest.kids + inbox.kids), wareId);
    FirstPending(depotChest, inbox, wareId);
    while containers != []
      invariant Scanned(all, met, Kids(containers), wareId, sufficientCount)
      invariant itemList == Reversed(met) && count == CountOf(met)
      decreases Size(Kids(containers)), |containers|
    {
      var container, enough := containers[0], false;
      assert Kids(containers) == container.kids + Kids(containers[1..]);
      assert container.kids == [] ==> container.kids + Kids(containers[1..]) == Kids(containers[1..]);
      enough, itemList, count, containers, met :=
        ScanContainer(wareId, sufficientCount, container, itemList, count, containers[1..], met, all);
      if enough {
        EnoughUnique(all, met, sufficientCount);
        return;
      }
    }
    assert ToCome([], wareId) == [] && met + [] == met;
    return [];
  }

  /** The inner loop: everything directly inside one container; containers inside are queued. */
  method ScanContainer(wareId: Ware, sufficientCount: nat, container: Tree<Good>, itemList: seq<Good>, count: nat,
                       containers: seq<Tree<Good>>, ghost met: seq<Good>, ghost all: seq<Good>)
    returns (enough: bool, itemList': seq<Good>, count': nat, containers': seq<Tree<Good>>, ghost met': seq<Good>)
    requires 1 <= sufficientCount <= MAX_AMOUNT
    requires Scanned(all, met, container.kids + Kids(containers), wareId, sufficientCount)
    requires itemList == Reversed(met) && count == CountOf(met)
    ensures itemList' == Reversed(met') && count' == CountOf(met')
    ensures !enough ==> Scanned(all, met', Kids(containers'), wareId, sufficientCount)
    ensures !enough ==> if container.kids == [] then containers' == containers
                        else Size(Kids(containers')) < Size(container.kids + Kids(containers))
    ensures enough ==> Enough(all, met', sufficientCount)
  {
    itemList', count', containers', met' := itemList, count, containers, met;
    assert container.kids[0..] == container.kids;
    for i := 0 to |container.kids|
      invariant Scanned(all, met', container.kids[i..] + Kids(containers'), wareId, sufficientCount)
      invariant itemList' == Reversed(met') && count' == CountOf(met')
      invariant Size(container.kids[i..] + Kids(containers')) <= Size(container.kids + Kids(containers)) - i
      invariant i == 0 ==> containers' == containers
    {
      var item := container.kids[i];
      ghost var pending := container.kids[i..] + Kids(containers');
      ScannedStep(all, met', pending, wareId, sufficientCount);
      ToComeStep(pending, wareId);
      Queue(container.kids, i, containers', item);
      if item.isContainer && item.kids != [] {
        containers' := containers' + [item];
      } else if Sellable(item, wareId) {
        itemList', count', met' := Meet(item.data, itemList', count', met', sufficientCount);
        if count' >= sufficientCount {
          EnoughNow(all, met', ToCome(pending[1..] + item.kids, wareId), sufficientCount);
          return true, itemList', count', containers', met';
        }
      }
    }
    assert container.kids[|container.kids|..] + Kids(containers') == Kids(containers');
    enough := false;
  }

  /** One more item for the list; the count stays far from its 16 bits. */
  method Meet(item: Good, itemList: seq<Good>, count: nat, ghost met: seq<Good>, ghost sufficientCount: nat)
    returns (itemList': seq<Good>, count': nat, ghost met': seq<Good>)
    requires itemList == Reversed(met) && count == CountOf(met) < sufficientCount <= MAX_AMOUNT && item.count < 0x100
    ensures met' == met + [item] && met'[..|met'| - 1] == met
    ensures itemList' == Reversed(met') && count' == CountOf(met')
  {
    ReversedAppend(met, item);
    CountOfConcat(met, [item]);
    assert CountOf([item]) == item.count by { assert [item][1..] == []; }
    itemList', met' := [item] + itemList, met + [item];
    count' := (count + item.count) % WRAP16;
  }

  ghost predicate Enough(all: seq<Good>, met: seq<Good>, sufficientCount: nat) {
    && met <= all && met != [] && sufficientCount <= CountOf(all)
    && CountOf(met[..|met| - 1]) < sufficientCount <= CountOf(met)
  }

  lemma {:induction false} EnoughNow(all: seq<Good>, met: seq<Good>, toCome: seq<Good>, sufficientCount: nat)
    requires all == met + toCome && met != [] && CountOf(met[..|met| - 1]) < sufficientCount <= CountOf(met)
    ensures Enough(all, met, sufficientCount)
  {
    CountOfConcat(met, toCome);
  }

  lemma {:induction false} Queue(kids: seq<Tree<Good>>, i: nat, containers: seq<Tree<Good>>, item: Tree<Good>)
    requires i < |kids| && kids[i] == item
    ensures var pending := kids[i..] + Kids(containers);
            pending != [] && pending[0] == item
            && pending[1..] + item.kids
               == kids[i + 1..] + Kids(if item.kids != [] then containers + [item] else containers)
  {
    QueueKids(containers, item);
  }

  lemma {:induction false} FirstPending(depotChest: Tree<Good>, inbox: Tree<Good>, wareId: Ware)
    ensures Kids([depotChest, inbox]) == depotChest.kids + inbox.kids
    ensures SellableIn(LevelOrder(depotChest.kids + inbox.kids), wareId) == ToCome(depotChest.kids + inbox.kids, wareId)
    ensures Queued(depotChest.kids + inbox.kids) == LevelOrder(depotChest.kids + inbox.kids)
  {
    QueueKids([], depotChest);
    QueueKids([depotChest], inbox);
    assert [] + [depotChest] == [depotChest] && [depotChest] + [inbox] == [depotChest, inbox];
    QueuedIsLevelOrder(depotChest.kids + inbox.kids);
  }

  lemma {:induction false} ScannedStep(all: seq<Good>, met: seq<Good>, pending: seq<Tree<Good>>, wareId: Ware,
                                       sufficientCount: nat)
    requires Scanned(all, met, pending, wareId, sufficientCount) && pending != []
    ensures var item, rest := pending[0], pending[1..] + pending[0].kids;
            WellFormed(item) && item.data.count < 0x100
            && (!Sellable(item, wareId) ==> Scanned(all, met, rest, wareId, sufficientCount))
            && (Sellable(item, wareId) ==> all == met + [item.data] + ToCome(rest, wareId))
            && (Sellable(item, wareId) && CountOf(met + [item.data]) < sufficientCount ==>
                  Scanned(all, met + [item.data], rest, wareId, sufficientCount))
  {
    ToComeStep(pending, wareId);
    var rest := pending[1..] + pending[0].kids;
    QueuedStep(pending);
    if Sellable(pending[0], wareId) {
      Regroup(met, pending[0].data, ToCome(rest, wareId));
    } else {
      assert [] + ToCome(rest, wareId) == ToCome(rest, wareId);
    }
  }

  lemma {:induction false} QueuedStep(pending: seq<Tree<Good>>)
    requires pending != []
    ensures pending[0] in Queued(pending)
    ensures forall t :: t in Queued(pending[1..] + pending[0].kids) ==> t in Queued(pending)
  {
    assert Queued(pending) == [pending[0]] + Queued(pending[1..] + pending[0].kids);
  }

  lemma {:induction false} Regroup<T>(a: seq<T>, x: T, b: seq<T>)
    ensures a + ([x] + b) == a + [x] + b
  {
  }

  /** Some of the sellable things have been met, too few so far, and the others are still to come. */
  ghost predicate Scanned(all: seq<Good>, met: seq<Good>, pending: seq<Tree<Good>>, wareId: Ware,
                          sufficientCount: nat) {
    && all == met + ToCome(pending, wareId) && CountOf(met) < sufficientCount
    && forall t :: t in Queued(pending) ==> t.data.count < 0x100 && WellFormed(t)
  }

  /** The list has the count that was asked for. */
  lemma {:induction false} ListSuffices(all: seq<Good>, sufficientCount: nat)
    requires 0 < sufficientCount <= CountOf(all)
    ensures CountOf(Reversed(EnoughOf(all, sufficientCount))) >= sufficientCount
    decreases |all|
  {
    var met := EnoughOf(all, sufficientCount);
    if all[0].count < sufficientCount {
      ListSuffices(all[1..], sufficientCount - all[0].count);
    }
    assert met[0] == all[0];
    CountOfConcat(Reversed(met[1..]), [met[0]]);
    assert [met[0]][1..] == [];
  }

  /** Of items that do not stack, the list has just as many as were asked for, and all of them are removed. */
  lemma {:induction false} UnstackedExactly(all: seq<Good>, amount: nat)
    requires 0 < amount <= CountOf(all) && forall g :: g in all ==> g.count == 1
    ensures |EnoughOf(all, amount)| == amount
    decreases amount
  {
    if amount > 1 {
      UnstackedExactly(all[1..], amount - 1);
    }
  }

  // ----- what the list names

  ghost function TimesOf(goods: seq<Good>, id: nat): nat {
    if goods == [] then 0 else (if goods[0].id == id then 1 else 0) + TimesOf(goods[1..], id)
  }

  ghost function TimesIn(ts: seq<Tree<Good>>, id: nat): nat {
    if ts == [] then 0 else (if ts[0].data.id == id then 1 else 0) + TimesIn(ts[1..], id)
  }

  lemma {:induction false} TimesFlat(ts: seq<Tree<Good>>, id: nat)
    ensures Times(ts, id) == TimesIn(ts, id) + Times(Kids(ts), id)
  {
    if ts != [] {
      TimesFlat(ts[1..], id);
      ConcatCounts(ts[0].kids, Kids(ts[1..]), 0, ts[0].data, id);
    }
  }

  lemma {:induction false} TimesInConcat(a: seq<Tree<Good>>, b: seq<Tree<Good>>, id: nat)
    ensures TimesIn(a + b, id) == TimesIn(a, id) + TimesIn(b, id)
    decreases |a|
  {
    if a == [] {
      assert a + b == b;
    } else {
      assert (a + b)[1..] == a[1..] + b;
      TimesInConcat(a[1..], b, id);
    }
  }

  /** Level by level, every item is named once. */
  lemma {:induction false} LevelTimes(ts: seq<Tree<Good>>, id: nat)
    ensures TimesIn(LevelOrder(ts), id) == Times(ts, id)
    decreases Size(ts)
  {
    if ts != [] {
      KidsSize(ts);
      TimesFlat(ts, id);
      TimesInConcat(ts, LevelOrder(Kids(ts)), id);
      LevelTimes(Kids(ts), id);
    }
  }

  /** What is directly there, or inside of something there, is there. */
  lemma {:induction false} TopAndKids(ts: seq<Tree<Good>>, t: Tree<Good>, g: Good)
    ensures t in ts ==>
              Copies(ts, t.data) > 0 && (t.kids == [] && Sellable(t, t.data.kind.ware) ==> ForSale(ts, t.data))
    ensures ForSale(Kids(ts), g) ==> ForSale(ts, g)
    ensures Copies(Kids(ts), g) <= Copies(ts, g)
  {
    if ts != [] {
      TopAndKids(ts[1..], t, g);
      ConcatCounts(ts[0].kids, Kids(ts[1..]), 0, g, 0);
      assert t in ts ==> t == ts[0] || t in ts[1..];
    }
  }

  lemma {:induction false} KidsWellFormed(ts: seq<Tree<Good>>)
    requires forall t :: t in ts ==> WellFormed(t)
    ensures forall t :: t in Kids(ts) ==> WellFormed(t)
  {
    if ts != [] {
      KidsWellFormed(ts[1..]);
      assert WellFormed(ts[0]);
    }
  }

  lemma {:induction false} LevelMember(ts: seq<Tree<Good>>, t: Tree<Good>)
    requires t in LevelOrder(ts) && forall u :: u in ts ==> WellFormed(u)
    ensures WellFormed(t) && Copies(ts, t.data) > 0
            && (t.kids == [] && Sellable(t, t.data.kind.ware) ==> ForSale(ts, t.data))
    decreases Size(ts)
  {
    KidsSize(ts);
    TopAndKids(ts, t, t.data);
    if t !in ts {
      KidsWellFormed(ts);
      LevelMember(Kids(ts), t);
    }
  }

  lemma {:induction false} SellableMember(ts: seq<Tree<Good>>, wareId: Ware, g: Good, id: nat) returns (t: Tree<Good>)
    ensures g in SellableIn(ts, wareId) ==> t in ts && Sellable(t, wareId) && t.data == g
    ensures TimesOf(SellableIn(ts, wareId), id) <= TimesIn(ts, id)
  {
    t := Node(g, false, []);
    if ts != [] {
      t := SellableMember(ts[1..], wareId, g, id);
      var rest := SellableIn(ts[1..], wareId);
      if Sellable(ts[0], wareId) {
        assert ([ts[0].data] + rest)[0] == ts[0].data && ([ts[0].data] + rest)[1..] == rest;
        if ts[0].data == g {
          t := ts[0];
        }
      } else {
        assert [] + rest == rest;
      }
    }
  }

  lemma {:induction false} EnoughMember(all: seq<Good>, n: nat, g: Good, id: nat)
    requires 0 < n <= CountOf(all)
    ensures g in EnoughOf(all, n) ==> g in all
    ensures TimesOf(EnoughOf(all, n), id) <= TimesOf(all, id)
    decreases |all|
  {
    var met := EnoughOf(all, n);
    if all[0].count < n {
      EnoughMember(all[1..], n - all[0].count, g, id);
      assert met[1..] == EnoughOf(all[1..], n - all[0].count);
      assert g in met ==> g == met[0] || g in met[1..];
    } else {
      assert met == [all[0]] && met[1..] == [];
    }
  }

  lemma {:induction false} ReversedMember(goods: seq<Good>, g: Good, id: nat)
    ensures g in Reversed(goods) <==> g in goods
    ensures TimesOf(Reversed(goods), id) == TimesOf(goods, id)
  {
    if goods != [] {
      ReversedMember(goods[1..], g, id);
      TimesOfAppend(Reversed(goods[1..]), goods[0], id);
      assert g in goods <==> g == goods[0] || g in goods[1..];
    }
  }

  lemma {:induction false} TimesOfAppend(goods: seq<Good>, g: Good, id: nat)
    ensures TimesOf(goods + [g], id) == TimesOf(goods, id) + if g.id == id then 1 else 0
    decreases |goods|
  {
    if goods == [] {
      assert (goods + [g])[1..] == [];
    } else {
      assert (goods + [g])[0] == goods[0] && (goods + [g])[1..] == goods[1..] + [g];
      TimesOfAppend(goods[1..], g, id);
    }
  }

  lemma {:induction false} TimesOfMember(goods: seq<Good>, g: Good)
    requires g in goods
    ensures TimesOf(goods, g.id) > 0
  {
    if g != goods[0] {
      TimesOfMember(goods[1..], g);
    }
  }

  /** The list names items of the ware that are there with nothing inside, each once. */
  ghost predicate Takeable(ts: seq<Tree<Good>>, itemList: seq<Good>, ware: Ware) {
    && (forall g :: g in itemList ==> ForSale(ts, g) && g.kind.ware == ware)
    && forall id :: TimesOf(itemList, id) <= 1
  }

  lemma {:induction false} ListIsTakeable(ts: seq<Tree<Good>>, wares: WareTable, next: nat, ware: Ware, n: nat)
    requires Sound(ts, wares, next) && 0 < n <= CountOf(SellableIn(LevelOrder(ts), ware))
    ensures Takeable(ts, Reversed(EnoughOf(SellableIn(LevelOrder(ts), ware), n)), ware)
  {
    var all := SellableIn(LevelOrder(ts), ware);
    var met := EnoughOf(all, n);
    forall g | g in Reversed(met) ensures ForSale(ts, g) && g.kind.ware == ware {
      ReversedMember(met, g, 0);
      EnoughMember(all, n, g, 0);
      var t := SellableMember(LevelOrder(ts), ware, g, 0);
      LevelMember(ts, t);
    }
    forall id ensures TimesOf(Reversed(met), id) <= 1 {
      ReversedMember(met, met[0], id);
      EnoughMember(all, n, met[0], id);
      var t := SellableMember(LevelOrder(ts), ware, met[0], id);
      LevelTimes(ts, id);
      assert Times(ts, id) <= 1;
    }
  }

  // ----- removing what the list names

  /** n of the ware are gone, and every item that the list does not name is as it was. */
  ghost predicate Taken(before: seq<Tree<Good>>, after: seq<Tree<Good>>, itemList: seq<Good>, ware: Ware, n: nat) {
    && (forall w :: Owned(after, w) == Owned(before, w) - if w == ware then n else 0)
    && (forall w ::
          FitIn(after, w) == FitIn(before, w) - (if w == ware then n else 0) && Packed(after, w) <= Packed(before, w))
    && forall h: Good :: TimesOf(itemList, h.id) == 0 ==> Copies(after, h) == Copies(before, h)
  }

  lemma {:induction false} TakeOutSound(ts: seq<Tree<Good>>, g: Good, n: nat, wares: WareTable, next: nat)
    requires Sound(ts, wares, next) && ForSale(ts, g) && 1 <= n <= g.count
    ensures Copies(ts, g) == 1 && Sound(TakeOut(ts, g, n), wares, next)
  {
    LeafCounts(ts, g);
    assert Times(ts, g.id) <= 1;
    var after := TakeOut(ts, g, n);
    forall id ensures Times(after, id) <= 1 {
      TakeOutOthers(ts, g, n, g, id);
      assert Times(ts, id) <= 1;
    }
    forall h | Copies(after, h) > 0 ensures GoodOk(h, wares, next) {
      TakeOutOthers(ts, g, n, h, 0);
      assert GoodOk(g, wares, next);
    }
    TakeOutWellFormed(ts, g, n);
  }

  /** One item of the list is taken: what remains of the list can still be taken. */
  lemma {:induction false} TakeStep(before: seq<Tree<Good>>, ts: seq<Tree<Good>>, itemList: seq<Good>, i: nat,
                                    ware: Ware, done: nat, n: nat, wares: WareTable, next: nat)
    requires i < |itemList| && Taken(before, ts, itemList, ware, done) && Takeable(ts, itemList[i..], ware)
    requires Sound(ts, wares, next) && 1 <= n <= itemList[i].count
    ensures var after := TakeOut(ts, itemList[i], n);
            Sound(after, wares, next) && Taken(before, after, itemList, ware, done + n)
              && Takeable(after, itemList[i + 1..], ware)
  {
    var g := itemList[i];
    var rest := itemList[i + 1..];
    assert itemList[i..][0] == g && itemList[i..][1..] == rest && g in itemList[i..];
    TakeOutSound(ts, g, n, wares, next);
    var after := TakeOut(ts, g, n);
    forall w
      ensures Owned(after, w) == Owned(before, w) - if w == ware then done + n else 0
      ensures FitIn(after, w) == FitIn(before, w) - (if w == ware then done + n else 0)
              && Packed(after, w) <= Packed(before, w)
    {
      TakeOutOwned(ts, g, n, w);
      TakeOutPacked(ts, g, n, w);
    }
    TimesOfMember(itemList, g);
    forall h: Good | TimesOf(itemList, h.id) == 0 ensures Copies(after, h) == Copies(before, h) {
      TakeOutOthers(ts, g, n, h, 0);
    }
    assert TimesOf(itemList[i..], g.id) <= 1;
    forall h | h in rest ensures ForSale(after, h) && h.kind.ware == ware {
      TimesOfMember(rest, h);
      assert h in itemList[i..];
      TakeOutLeaves(ts, g, n, h);
    }
    forall id ensures TimesOf(rest, id) <= 1 {
      assert TimesOf(itemList[i..], id) <= 1;
    }
  }

  /** internalRemoveItem, of an item in the depot chest or the inbox. */
  method RemoveItem(store: Store, g: Good, n: nat) returns (store': Store)
    requires n <= g.count
    ensures Roots(store') == TakeOut(Roots(store), g, n)
  {
    TakeOutConcat(store.depotChest.kids, store.inbox.kids, g, n);
    store' := Store(store.depotChest.(kids := TakeOut(store.depotChest.kids, g, n)),
                    store.inbox.(kids := TakeOut(store.inbox.kids, g, n)));
  }

  /** The loop over a list of stacks: from each as much as is still wanted. */
  method TakeStacks(store: Store, itemList: seq<Good>, amount: nat, ghost ware: Ware, ghost wares: WareTable,
                    ghost next: nat)
    returns (store': Store)
    requires Sound(Roots(store), wares, next) && Takeable(Roots(store), itemList, ware)
             && 1 <= amount <= CountOf(itemList)
    ensures Sound(Roots(store'), wares, next) && Taken(Roots(store), Roots(store'), itemList, ware, amount)
  {
    store' := store;
    var tmpAmount := amount;
    assert itemList[0..] == itemList;
    for i := 0 to |itemList|
      invariant 0 < tmpAmount <= amount && tmpAmount <= CountOf(itemList[i..])
      invariant Sound(Roots(store'), wares, next) && Takeable(Roots(store'), itemList[i..], ware)
      invariant Taken(Roots(store), Roots(store'), itemList, ware, amount - tmpAmount)
    {
      var item := itemList[i];
      assert itemList[i..][0] == item && itemList[i..][1..] == itemList[i + 1..] && item in itemList[i..];
      var removeCount := if tmpAmount < item.count then tmpAmount else item.count;
      LeafCounts(Roots(store'), item);
      TakeStep(Roots(store), Roots(store'), itemList, i, ware, amount - tmpAmount, removeCount, wares, next);
      tmpAmount := tmpAmount - removeCount;
      store' := RemoveItem(store', item, removeCount);
      if tmpAmount == 0 {
        return;
      }
    }
  }

  /** The loop over a list of items that do not stack: all of them. */
  method TakeSingles(store: Store, itemList: seq<Good>, ghost ware: Ware, ghost wares: WareTable, ghost next: nat)
    returns (store': Store)
    requires Sound(Roots(store), wares, next) && Takeable(Roots(store), itemList, ware) && !wares(ware).stackable
    ensures Sound(Roots(store'), wares, next) && Taken(Roots(store), Roots(store'), itemList, ware, |itemList|)
  {
    store' := store;
    assert itemList[0..] == itemList;
    for i := 0 to |itemList|
      invariant Sound(Roots(store'), wares, next) && Takeable(Roots(store'), itemList[i..], ware)
      invariant Taken(Roots(store), Roots(store'), itemList, ware, i)
    {
      var item := itemList[i];
      assert item in itemList[i..];
      LeafCounts(Roots(store'), item);
      TakeStep(Roots(store), Roots(store'), itemList, i, ware, i, item.count, wares, next);
      store' := RemoveItem(store', item, item.count);
    }
  }

  // ----- selling: the list and the loop together

  lemma {:induction false} SinglesExactly(ts: seq<Tree<Good>>, wares: WareTable, next: nat, ware: Ware, n: nat)
    requires Sound(ts, wares, next) && !wares(ware).stackable && 0 < n <= CountOf(SellableIn(LevelOrder(ts), ware))
    ensures |Reversed(EnoughOf(SellableIn(LevelOrder(ts), ware), n))| == n
  {
    var all := SellableIn(LevelOrder(ts), ware);
    forall g | g in all ensures g.count == 1 {
      var t := SellableMember(LevelOrder(ts), ware, g, 0);
      LevelMember(ts, t);
      assert GoodOk(g, wares, next);
    }
    UnstackedExactly(all, n);
    ReversedLength(EnoughOf(all, n));
  }

  lemma {:induction false} ReversedLength(goods: seq<Good>)
    ensures |Reversed(goods)| == |goods|
  {
    if goods != [] {
      ReversedLength(goods[1..]);
    }
  }

  /** What the list for an amount names. */
  ghost function ListOf(store: Store, ware: Ware, amount: nat): seq<Good>
    requires 0 < amount <= ForSaleOf(store, ware)
  {
    Reversed(EnoughOf(SellableIn(LevelOrder(Roots(store)), ware), amount))
  }

  /** How many of a ware the market may take. */
  ghost function ForSaleOf(store: Store, ware: Ware): nat {
    CountOf(SellableIn(LevelOrder(Roots(store)), ware))
  }

  /** getMarketItemList and the removal of what it names: as many as are wanted, or none if there are too few. */
  method Collect(store: Store, ware: Ware, amount: nat, wares: WareTable, ghost next: nat)
    returns (ok: bool, store': Store)
    requires Sound(Roots(store), wares, next) && 1 <= amount <= MAX_AMOUNT
    ensures ok <==> amount <= ForSaleOf(store, ware)
    ensures !ok ==> store' == store
    ensures ok ==> Sound(Roots(store'), wares, next)
                   && Taken(Roots(store), Roots(store'), ListOf(store, ware, amount), ware, amount)
  {
    ghost var ts := Roots(store);
    forall t | t in LevelOrder(ts) ensures t.data.count < 0x100 && WellFormed(t) {
      LevelMember(ts, t);
      assert GoodOk(t.data, wares, next);
    }
    var itemList := GetMarketItemList(ware, amount, store.depotChest, store.inbox);
    if amount <= ForSaleOf(store, ware) {
      ReversedLength(EnoughOf(SellableIn(LevelOrder(ts), ware), amount));
    }
    if itemList == [] {
      return false, store;
    }
    ListIsTakeable(ts, wares, next, ware, amount);
    ListSuffices(SellableIn(LevelOrder(ts), ware), amount);
    if wares(ware).stackable {
      store' := TakeStacks(store, itemList, amount, ware, wares, next);
    } else {
      SinglesExactly(ts, wares, next, ware, amount);
      store' := TakeSingles(store, itemList, ware, wares, next);
    }
    ok := true;
  }

  // ----- what is left for sale

  /** Everything fit is for sale but what has something inside. */
  lemma {:induction false} FitSplits(ts: seq<Tree<Good>>, w: Ware)
    ensures FitIn(ts, w) == CountOf(SellableIn(LevelOrder(ts), w)) + Packed(ts, w)
    decreases Size(ts)
  {
    KidsSize(ts);
    if ts != [] {
      FitSplits(Kids(ts), w);
      SellableConcat(ts, LevelOrder(Kids(ts)), w);
      FitFlat(ts, w);
      CountOfConcat(SellableIn(ts, w), SellableIn(LevelOrder(Kids(ts)), w));
    }
  }

  lemma {:induction false} SellableConcat(a: seq<Tree<Good>>, b: seq<Tree<Good>>, w: Ware)
    ensures SellableIn(a + b, w) == SellableIn(a, w) + SellableIn(b, w)
    decreases |a|
  {
    if a == [] {
      assert a + b == b;
    } else {
      assert (a + b)[0] == a[0] && (a + b)[1..] == a[1..] + b;
      SellableConcat(a[1..], b, w);
      Assoc(if Sellable(a[0], w) then [a[0].data] else [], SellableIn(a[1..], w), SellableIn(b, w));
    }
  }

  lemma {:induction false} FitFlat(ts: seq<Tree<Good>>, w: Ware)
    ensures FitIn(ts, w) - Packed(ts, w) == CountOf(SellableIn(ts, w)) + FitIn(Kids(ts), w) - Packed(Kids(ts), w)
  {
    if ts != [] {
      FitFlat(ts[1..], w);
      ConcatCounts(ts[0].kids, Kids(ts[1..]), w, ts[0].data, 0);
      assert FitIn(Kids(ts), w) == FitIn(ts[0].kids, w) + FitIn(Kids(ts[1..]), w);
      assert Packed(Kids(ts), w) == Packed(ts[0].kids, w) + Packed(Kids(ts[1..]), w);
      SellableFirst(ts, w);
    }
  }

  lemma {:induction false} SellableFirst(ts: seq<Tree<Good>>, w: Ware)
    requires ts != []
    ensures CountOf(SellableIn(ts, w)) == (if Sellable(ts[0], w) then ts[0].data.count else 0)
            + CountOf(SellableIn(ts[1..], w))
  {
    var rest := SellableIn(ts[1..], w);
    if Sellable(ts[0], w) {
      assert ([ts[0].data] + rest)[1..] == rest;
    } else {
      assert [] + rest == rest;
    }
  }

  /**
   What is for sale falls by just the amount if and only if no container of that ware has been emptied;
   one that has can be sold itself from then on.
   */
  lemma {:induction false} LeftForSale(store: Store, store': Store, itemList: seq<Good>, ware: Ware, n: nat, w: Ware)
    requires Taken(Roots(store), Roots(store'), itemList, ware, n)
    ensures ForSaleOf(store', w) - ForSaleOf(store, w)
            == Packed(Roots(store), w) - Packed(Roots(store'), w) - if w == ware then n else 0
    ensures ForSaleOf(store', ware) == ForSaleOf(store, ware) - n <==>
            Packed(Roots(store'), ware) == Packed(Roots(store), ware)
    ensures Packed(Roots(store), ware) == 0 ==> ForSaleOf(store', ware) == ForSaleOf(store, ware) - n
  {
    FitSplits(Roots(store), w);
    FitSplits(Roots(store'), w);
    FitSplits(Roots(store), ware);
    FitSplits(Roots(store'), ware);
  }

  /** A bag with a bag inside is for sale as one, and still as one when the inner one has been sold. */
  lemma {:induction false} EmptiedBag(bag: Kind)
    requires bag.plain
    ensures var inner, outer := Good(1, bag, 1, true), Good(0, bag, 1, true);
            var ts := [Node(outer, true, [Node(inner, true, [])])];
            && ForSale(ts, inner) && Owned(ts, bag.ware) == 2 && Owned(TakeOut(ts, inner, 1), bag.ware) == 1
            && CountOf(SellableIn(LevelOrder(ts), bag.ware)) == 1
            && CountOf(SellableIn(LevelOrder(TakeOut(ts, inner, 1)), bag.ware)) == 1
  {
    var inner, outer := Good(1, bag, 1, true), Good(0, bag, 1, true);
    var kid := Node(inner, true, []);
    var ts := [Node(outer, true, [kid])];
    assert ts[1..] == [] && [kid][1..] == [];
    assert TakeOut([kid], inner, 1) == [] + TakeOut([kid][1..], inner, 1) == [];
    var after := [Node(outer, true, [])];
    assert TakeOut(ts, inner, 1) == after + TakeOut(ts[1..], inner, 1) == after;
    assert after[1..] == [];
    FitSplits(ts, bag.ware);
    FitSplits(after, bag.ware);
  }

  // ----- delivering

  /** n of a kind have come, and every item of another kind is as it was. */
  ghost predicate Added(before: seq<Tree<Good>>, after: seq<Tree<Good>>, kind: Kind, n: nat) {
    && (forall w :: Owned(after, w) == Owned(before, w) + if w == kind.ware then n else 0)
    && forall h: Good :: h.kind != kind ==> Copies(after, h) == Copies(before, h)
  }

  /** The changes of one item among those at the top. */
  lemma {:induction false} TopChanged(a: seq<Tree<Good>>, t: Tree<Good>, u: Tree<Good>, b: seq<Tree<Good>>,
                                      w: Ware, g: Good, id: nat)
    requires u == t.(data := u.data)
    ensures Owned(a + [u] + b, w)
            == Owned(a + [t] + b, w) - (if t.data.kind.ware == w then t.data.count else 0)
               + if u.data.kind.ware == w then u.data.count else 0
    ensures Copies(a + [u] + b, g) == Copies(a + [t] + b, g) - (if t.data == g then 1 else 0) +
            if u.data == g then 1 else 0
    ensures Times(a + [u] + b, id) == Times(a + [t] + b, id) - (if t.data.id == id then 1 else 0) +
            if u.data.id == id then 1 else 0
  {
    TopParts(a, t, b, w, g, id);
    TopParts(a, u, b, w, g, id);
  }

  lemma {:induction false} TopParts(a: seq<Tree<Good>>, t: Tree<Good>, b: seq<Tree<Good>>, w: Ware, g: Good, id: nat)
    ensures Owned(a + [t] + b, w)
            == Owned(a, w) + (if t.data.kind.ware == w then t.data.count else 0) + Owned(t.kids, w) + Owned(b, w)
    ensures Copies(a + [t] + b, g) == Copies(a, g) + (if t.data == g then 1 else 0) + Copies(t.kids, g) + Copies(b, g)
    ensures Times(a + [t] + b, id) == Times(a, id) + (if t.data.id == id then 1 else 0) + Times(t.kids, id)
            + Times(b, id)
  {
    ConcatCounts(a + [t], b, w, g, id);
    ConcatCounts(a, [t], w, g, id);
    assert [t][1..] == [];
  }

  /** A stack at the top has grown. */
  lemma {:induction false} MergeKeeps(a: seq<Tree<Good>>, t: Tree<Good>, b: seq<Tree<Good>>, n: nat, wares: WareTable,
                                      next: nat)
    requires Sound(a + [t] + b, wares, next) && wares(t.data.kind.ware).stackable && t.data.count + n <= STACK_MAX
    ensures var u := t.(data := t.data.(count := t.data.count + n));
            Sound(a + [u] + b, wares, next) && Added(a + [t] + b, a + [u] + b, t.data.kind, n)
  {
    var u := t.(data := t.data.(count := t.data.count + n));
    var before, after := a + [t] + b, a + [u] + b;
    assert t in before && WellFormed(t);
    TopParts(a, t, b, 0, t.data, 0);
    assert GoodOk(t.data, wares, next);
    forall w ensures Owned(after, w) == Owned(before, w) + if w == t.data.kind.ware then n else 0 {
      TopChanged(a, t, u, b, w, t.data, 0);
    }
    forall h: Good
      ensures h.kind != t.data.kind ==> Copies(after, h) == Copies(before, h)
      ensures Copies(after, h) > 0 ==> GoodOk(h, wares, next)
    {
      TopChanged(a, t, u, b, 0, h, 0);
    }
    forall id ensures Times(after, id) <= 1 {
      TopChanged(a, t, u, b, 0, t.data, id);
      assert Times(before, id) <= 1;
    }
    forall x | x in after ensures WellFormed(x) {
      assert x == u || x in before;
    }
  }

  /** A new item has come to the top. */
  lemma {:induction false} InsertKeeps(a: seq<Tree<Good>>, g: Good, container: bool, b: seq<Tree<Good>>,
                                       wares: WareTable, next: nat)
    requires Sound(a + b, wares, next) && g.id == next && GoodOk(g, wares, next + 1)
    ensures var t := Node(g, container, []);
            Sound(a + [t] + b, wares, next + 1) && Added(a + b, a + [t] + b, g.kind, g.count)
  {
    var t := Node(g, container, []);
    var before, after := a + b, a + [t] + b;
    forall w ensures Owned(after, w) == Owned(before, w) + if w == g.kind.ware then g.count else 0 {
      TopParts(a, t, b, w, g, 0);
      ConcatCounts(a, b, w, g, 0);
    }
    forall h: Good
      ensures h.kind != g.kind ==> Copies(after, h) == Copies(before, h)
      ensures Copies(after, h) > 0 ==> GoodOk(h, wares, next + 1)
    {
      TopParts(a, t, b, 0, h, 0);
      ConcatCounts(a, b, 0, h, 0);
    }
    Unused(before, wares, next);
    forall id ensures Times(after, id) <= 1 {
      TopParts(a, t, b, 0, g, id);
      ConcatCounts(a, b, 0, g, id);
      assert Times(before, id) <= 1;
    }
    forall x | x in after ensures WellFormed(x) {
      assert x == t || x in before;
    }
  }

  lemma {:induction false} Unused(ts: seq<Tree<Good>>, wares: WareTable, next: nat)
    requires forall g :: Copies(ts, g) > 0 ==> GoodOk(g, wares, next)
    ensures Times(ts, next) == 0
  {
    if ts != [] {
      assert Copies(ts, ts[0].data) > 0;
      forall g | Copies(ts[0].kids, g) > 0 ensures GoodOk(g, wares, next) {
        assert Copies(ts, g) > 0;
      }
      forall g | Copies(ts[1..], g) > 0 ensures GoodOk(g, wares, next) {
        assert Copies(ts, g) > 0;
      }
      Unused(ts[0].kids, wares, next);
      Unused(ts[1..], wares, next);
    }
  }

  lemma {:induction false} AddedTwice(a: seq<Tree<Good>>, b: seq<Tree<Good>>, c: seq<Tree<Good>>, kind: Kind,
                                      n: nat, m: nat)
    requires Added(a, b, kind, n) && Added(b, c, kind, m)
    ensures Added(a, c, kind, n + m)
  {
    forall w ensures Owned(c, w) == Owned(a, w) + if w == kind.ware then n + m else 0 {
      assert Owned(b, w) == Owned(a, w) + if w == kind.ware then n else 0;
    }
    forall h: Good | h.kind != kind ensures Copies(c, h) == Copies(a, h) {
      assert Copies(b, h) == Copies(a, h);
    }
  }

  /** A stack in the inbox takes up n more. */
  method MergeAt(store: Store, k: nat, n: nat, ghost wares: WareTable, ghost next: nat) returns (store': Store)
    requires Sound(Roots(store), wares, next) && k < |store.inbox.kids|
    requires var g := store.inbox.kids[k].data; wares(g.kind.ware).stackable && g.count + n <= STACK_MAX
    ensures Sound(Roots(store'), wares, next)
    ensures Added(Roots(store), Roots(store'), store.inbox.kids[k].data.kind, n)
  {
    var kids := store.inbox.kids;
    var t := kids[k];
    var u := t.(data := t.data.(count := t.data.count + n));
    store' := store.(inbox := store.inbox.(kids := kids[k := u]));
    ghost var a := store.depotChest.kids + kids[..k];
    assert Roots(store) == a + [t] + kids[k + 1..] && Roots(store') == a + [u] + kids[k + 1..];
    MergeKeeps(a, t, kids[k + 1..], n, wares, next);
  }

  /** internalAddItem of a new item into the inbox, without limits: stacks of its kind are filled first. */
  method AddItem(store: Store, kind: Kind, count: nat, wares: WareTable, next: nat) returns (store': Store, next': nat)
    requires Sound(Roots(store), wares, next) && GoodOk(Good(next, kind, count, true), wares, next + 1)
    ensures next' >= next && Sound(Roots(store'), wares, next') && Added(Roots(store), Roots(store'), kind, count)
    decreases count
  {
    var kids := store.inbox.kids;
    if wares(kind.ware).stackable {
      for k := 0 to |kids| {
        if kids[k].data.kind == kind && kids[k].data.count < STACK_MAX {
          var n := if count < STACK_MAX - kids[k].data.count then count else STACK_MAX - kids[k].data.count;
          store' := MergeAt(store, k, n, wares, next);
          next' := next;
          if n < count {
            ghost var merged := Roots(store');
            store', next' := AddItem(store', kind, count - n, wares, next);
            AddedTwice(Roots(store), merged, Roots(store'), kind, n, count - n);
          }
          return;
        }
      }
    }
    var item := Node(Good(next, kind, count, true), wares(kind.ware).container, []);
    store', next' := store.(inbox := store.inbox.(kids := [item] + kids)), next + 1;
    assert Roots(store') == store.depotChest.kids + [item] + kids;
    InsertKeeps(store.depotChest.kids, item.data, item.isContainer, kids, wares, next);
  }

  function KindOf(wares: WareTable, ware: Ware): Kind {
    Kind(wares(ware).typeId, ware, true, [])
  }

  /** The delivery of an amount into the inbox: stacks of a hundred and one of the rest, or single items. */
  method Deliver(store: Store, ware: Ware, amount: nat, wares: WareTable, next: nat) returns (store': Store, next': nat)
    requires Sound(Roots(store), wares, next)
    ensures next' >= next && Sound(Roots(store'), wares, next')
    ensures Added(Roots(store), Roots(store'), KindOf(wares, ware), amount)
  {
    store', next' := store, next;
    var tmpAmount: nat := amount;
    while tmpAmount > 0
      invariant tmpAmount <= amount && next' >= next && Sound(Roots(store'), wares, next')
      invariant Added(Roots(store), Roots(store'), KindOf(wares, ware), amount - tmpAmount)
    {
      var stackCount := if !wares(ware).stackable then 1 else if STACK_MAX < tmpAmount then STACK_MAX else tmpAmount;
      ghost var before := Roots(store');
      store', next' := AddItem(store', KindOf(wares, ware), stackCount, wares, next');
      AddedTwice(Roots(store), before, Roots(store'), KindOf(wares, ware), amount - tmpAmount, stackCount);
      tmpAmount := tmpAmount - stackCount;
    }
  }

  /** Numbers that are used up do no harm. */
  lemma {:induction false} SoundLater(ts: seq<Tree<Good>>, wares: WareTable, next: nat, later: nat)
    requires Sound(ts, wares, next) && next <= later
    ensures Sound(ts, wares, later)
  {
    forall g | Copies(ts, g) > 0 ensures GoodOk(g, wares, later) {
      assert GoodOk(g, wares, next);
    }
  }

  /** One stack and nothing else. */
  lemma {:induction false} SingleStack(store: Store, kind: Kind, n: nat, wares: WareTable)
    requires Roots(store) == [Node(Good(0, kind, n, true), false, [])]
    requires kind.plain && wares(kind.ware).stackable && 1 <= n <= STACK_MAX
    ensures Sound(Roots(store), wares, 1) && ForSaleOf(store, kind.ware) == n
  {
    var ts := Roots(store);
    assert ts[1..] == [] && WellFormed(ts[0]);
    forall id ensures Times(ts, id) <= 1 {
      assert Times(ts[1..], id) == 0;
    }
    forall g | Copies(ts, g) > 0 ensures GoodOk(g, wares, 1) {
      assert Copies(ts[1..], g) == 0;
    }
    assert FitIn(ts[1..], kind.ware) == 0 && Packed(ts[1..], kind.ware) == 0;
    FitSplits(ts, kind.ware);
  }
}
