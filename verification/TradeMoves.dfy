/**
 The end of a trade among linked items: both additions and both removals are tried first, and then one
 item is moved after the other. What comes of the second move is not looked at.
 */
module TradeMoves {
  import opened ItemTree
  import opened ItemMoves

  /** Which of the two items have changed hands. */
  datatype Moved = Neither | OnlyFirst | Both

  const PLAIN := Flags(false, false)
  const IGNORE_AUTOSTACK := Flags(false, true)

  /** Two different items and two different containers of the same world. */
  ghost predicate Deal(w: World, item1: Item, to1: Item, item2: Item, to2: Item)
    reads w, w.items
  {
    && w.Valid() && StacksOk(w) && {item1, to1, item2, to2} <= w.items
    && item1 != item2 && to1 != to2 && to1.isContainer && to2.isContainer
  }

  /** The tests are passed: stacks may take up what is added, and items that may not be moved can be removed. */
  ghost predicate Tested(w: World, item1: Item, to1: Item, item2: Item, to2: Item)
    requires Deal(w, item1, to1, item2, to2)
    reads w, w.items
  {
    assert forall x :: x in to1.itemlist ==> x in w.items;
    assert forall x :: x in to2.itemlist ==> x in w.items;
    && Addable(w, to1, item1, PLAIN) && Addable(w, to2, item2, PLAIN)
    && item1.parent != null && item2.parent != null
  }

  /** The first move, which wants a slot of its own, finds one, and not in what is given for the item. */
  ghost predicate FirstMoves(w: World, item1: Item, to1: Item, item2: Item)
    requires w.Wired() && w.Ranked() && to1 in w.items
    reads w, w.items, item1
  {
    item1.kind.moveable && FreeSlots(to1) > 0 && !w.Holds(item2, to1)
  }

  /** The free slots of a container once another item has left it. */
  ghost function SlotsWithout(to: Item, gone: Item): nat
    reads to, gone
  {
    var size := |to.itemlist| - if gone.parent == to then 1 else 0;
    if to.capacity > size then to.capacity - size else 0
  }

  /** What comes of the moves, as it can be seen before. */
  ghost function MovesOf(w: World, item1: Item, to1: Item, item2: Item, to2: Item): Moved
    requires Deal(w, item1, to1, item2, to2)
    reads w, w.items
  {
    if !Tested(w, item1, to1, item2, to2) || !FirstMoves(w, item1, to1, item2) then Neither
    else if item2.kind.moveable && SlotsWithout(to2, item1) > 0 then Both
    else OnlyFirst
  }

  /**
   Once the tests are passed and the first item has been moved, the other player goes empty-handed exactly
   if the second item stacks and no slot is free for it, or cannot be moved at all.
   */
  lemma {:induction false} EmptyHandedIff(w: World, item1: Item, to1: Item, item2: Item, to2: Item)
    requires Deal(w, item1, to1, item2, to2)
    requires Tested(w, item1, to1, item2, to2) && FirstMoves(w, item1, to1, item2)
    ensures MovesOf(w, item1, to1, item2, to2) == OnlyFirst <==>
              (item2.kind.stackable && SlotsWithout(to2, item1) == 0) || !item2.kind.moveable
  {
    assert !item2.kind.stackable ==> FreeSlots(to2) > 0;
  }

  /** How much n things that go from one container to another change the count of a kind in a container. */
  function Shift(k: Kind, c: Item, kind: Kind, from: Item?, to: Item, n: nat): int {
    if k != kind then 0 else (if c == to then n else 0) - if c == from then n else 0
  }

  /** How many things of each kind every container has. */
  ghost function Tally(w: World): (t: map<Item, imap<Kind, int>>)
    requires w.Wired()
    reads w`items, w.items`kind, w.items`count, w.items`parent, w.items`itemlist
    ensures t.Keys == w.items
  {
    map c | c in w.items :: imap k: Kind :: CountIn(w, k, c)
  }

  twostate lemma {:induction false} Untouched(w: World)
    requires old(w.Valid()) && old(StacksOk(w)) && unchanged(w) && unchanged(w.items)
    ensures w.Valid() && StacksOk(w) && Tally(w) == old(Tally(w))
  {
  }

  lemma {:induction false} NoneSwapped(w: World, lot1: Lot, to1: Item, lot2: Lot, to2: Item)
    requires w.Wired()
    ensures Swapped(Tally(w), Tally(w), Neither, lot1, to1, lot2, to2)
  {
    forall c | c in w.items
      ensures SwappedIn(c, Tally(w)[c], Tally(w)[c], Neither, lot1, to1, lot2, to2)
    {
    }
  }

  /** What an item is, where it lies and how many it counts for. */
  datatype Lot = Lot(kind: Kind, parent: Item?, count: nat)

  function LotOf(item: Item): Lot
    reads item`kind, item`parent, item`count
  {
    Lot(item.kind, item.parent, item.count)
  }

  /** The lots that were moved have gone from where they were to where they belong, and nothing else has. */
  ghost predicate Swapped(before: map<Item, imap<Kind, int>>, after: map<Item, imap<Kind, int>>, moved: Moved,
                          lot1: Lot, to1: Item, lot2: Lot, to2: Item)
  {
    before.Keys <= after.Keys && forall c :: c in before ==>
      SwappedIn(c, before[c], after[c], moved, lot1, to1, lot2, to2)
  }

  ghost predicate SwappedIn(c: Item, before: imap<Kind, int>, after: imap<Kind, int>, moved: Moved,
                            lot1: Lot, to1: Item, lot2: Lot, to2: Item)
  {
    forall k :: k in before && k in after
      && after[k] == before[k]
           + (if moved == Neither then 0 else Shift(k, c, lot1.kind, lot1.parent, to1, lot1.count))
           + if moved == Both then Shift(k, c, lot2.kind, lot2.parent, to2, lot2.count) else 0
  }

  /** The moves at the end of playerAcceptTrade, in figures. */
  method TransferTallied(w: World, item1: Item, to1: Item, item2: Item, to2: Item)
    returns (isSuccess: bool, moved: Moved)
    requires Deal(w, item1, to1, item2, to2)
    modifies w, w.items
    ensures w.Valid() && StacksOk(w)
    ensures moved == old(MovesOf(w, item1, to1, item2, to2)) && (isSuccess <==> moved != Neither)
    ensures Swapped(old(Tally(w)), Tally(w), moved, old(LotOf(item1)), to1, old(LotOf(item2)), to2)
  {
    isSuccess, moved := TransferItems(w, item1, to1, item2, to2);
    forall c | c in old(w.items)
      ensures SwappedIn(c, old(Tally(w))[c], Tally(w)[c], moved, old(LotOf(item1)), to1, old(LotOf(item2)), to2)
    {
    }
  }

  /** The moves at the end of playerAcceptTrade. */
  method TransferItems(w: World, item1: Item, to1: Item, item2: Item, to2: Item)
    returns (isSuccess: bool, moved: Moved)
    requires Deal(w, item1, to1, item2, to2)
    modifies w, w.items
    ensures w.Valid() && StacksOk(w) && old(w.items) <= w.items && fresh(w.items - old(w.items))
    ensures moved == old(MovesOf(w, item1, to1, item2, to2)) && (isSuccess <==> moved != Neither)
    ensures isSuccess <==> old(Tested(w, item1, to1, item2, to2) && FirstMoves(w, item1, to1, item2))
    ensures isSuccess ==>
              (moved == OnlyFirst <==>
               old((item2.kind.stackable && SlotsWithout(to2, item1) == 0) || !item2.kind.moveable))
    ensures moved == Neither ==> unchanged(w) && unchanged(old(w.items))
    ensures forall k: Kind, c: Item {:trigger CountIn(w, k, c)} :: c in old(w.items) ==>
              CountIn(w, k, c) == old(CountIn(w, k, c))
                + (if moved == Neither then 0
                   else Shift(k, c, old(item1.kind), old(item1.parent), to1, old(item1.count)))
                + if moved == Both then Shift(k, c, old(item2.kind), old(item2.parent), to2, old(item2.count)) else 0
  {
    isSuccess, moved := false, Neither;
    var ready := TestAll(w, item1, to1, item2, to2);
    if !ready {
      return;
    }
    isSuccess, moved := MoveBoth(w, item1.parent, item1, to1, item2.parent, item2, to2);
  }

  method MoveBoth(w: World, cylinder1: Item, item1: Item, to1: Item, cylinder2: Item, item2: Item, to2: Item)
    returns (isSuccess: bool, moved: Moved)
    requires Deal(w, item1, to1, item2, to2) && Tested(w, item1, to1, item2, to2)
    requires item1.parent == cylinder1 && item2.parent == cylinder2
    modifies w, w.items
    ensures w.Valid() && StacksOk(w) && old(w.items) <= w.items && fresh(w.items - old(w.items))
    ensures moved == old(MovesOf(w, item1, to1, item2, to2)) && (isSuccess <==> moved != Neither)
    ensures moved == Neither ==> unchanged(w) && unchanged(old(w.items))
    ensures forall k: Kind, c: Item {:trigger CountIn(w, k, c)} :: c in old(w.items) ==>
              CountIn(w, k, c) == old(CountIn(w, k, c))
                + (if moved == Neither then 0 else Shift(k, c, old(item1.kind), cylinder1, to1, old(item1.count)))
                + if moved == Both then Shift(k, c, old(item2.kind), cylinder2, to2, old(item2.count)) else 0
  {
    isSuccess, moved := false, Neither;
    var ret1 := MoveFirst(w, cylinder1, item1, to1, item2, to2);
    if ret1 == NoError {
      var ret2 := MoveAll(w, cylinder2, to2, item2, null);
      isSuccess, moved := true, if ret2 == NoError then Both else OnlyFirst;
    }
  }

  /** Both additions and both removals, as tests. */
  method TestAll(w: World, item1: Item, to1: Item, item2: Item, to2: Item) returns (ready: bool)
    requires Deal(w, item1, to1, item2, to2)
    ensures ready <==> Tested(w, item1, to1, item2, to2)
  {
    var ret1 := TestAddItem(w, to1, item1, PLAIN);
    var ret2 := TestAddItem(w, to2, item2, PLAIN);
    if ret1 != NoError || ret2 != NoError {
      return false;
    }
    ret1 := TestRemoveItem(w, item1);
    ret2 := TestRemoveItem(w, item2);
    return ret1 == NoError && ret2 == NoError;
  }

  /** internalRemoveItem with the test flag, for all of an item; it does not mind items that may not be moved. */
  method TestRemoveItem(w: World, item: Item) returns (r: ReturnValue)
    requires w.Valid() && StacksOk(w) && item in w.items
    ensures r == NoError <==> item.parent != null
  {
    if item.parent == null {
      return NotPossible;
    }
    r := QueryRemove(w, item.parent, item, item.count, true);
  }

  /** internalMoveItem of all of an item to a slot of its own. */
  method MoveAll(w: World, from: Item, to: Item, item: Item, tradeItem: Item?) returns (r: ReturnValue)
    requires w.Valid() && StacksOk(w) && {from, to, item} <= w.items && from.isContainer && to.isContainer
    modifies w, w.items
    ensures w.Valid() && StacksOk(w) && old(w.items) <= w.items && fresh(w.items - old(w.items))
    ensures r == NoError <==> old(Takes(w, from, to, item, item.count, tradeItem))
    ensures if r == NoError then Arrived(w, from, to, item) else unchanged(w) && unchanged(old(w.items))
    ensures forall k: Kind, c: Item {:trigger CountIn(w, k, c)} :: c in old(w.items) ==>
              CountIn(w, k, c) == old(CountIn(w, k, c))
                + if r == NoError then Shift(k, c, old(item.kind), from, to, old(item.count)) else 0
  {
    var moveItem;
    ghost var dest, taken, lost;
    r, moveItem, dest, taken, lost :=
      InternalMoveItem(w, from, to, INDEX_WHEREEVER, item, item.count, IGNORE_AUTOSTACK, tradeItem);
  }

  /**
   The first move leaves the second item where it is, and its destination with a slot more if that is where
   the first came from.
   */
  method MoveFirst(w: World, cylinder1: Item, item1: Item, to1: Item, item2: Item, to2: Item) returns (r: ReturnValue)
    requires Deal(w, item1, to1, item2, to2) && Tested(w, item1, to1, item2, to2) && item1.parent == cylinder1
    modifies w, w.items
    ensures w.Valid() && StacksOk(w) && old(w.items) <= w.items && fresh(w.items - old(w.items))
    ensures r == NoError <==> old(FirstMoves(w, item1, to1, item2))
    ensures r != NoError ==> unchanged(w) && unchanged(old(w.items))
    ensures r == NoError ==>
              && item2.parent == old(item2.parent) && item2.kind == old(item2.kind) && item2.count == old(item2.count)
              && !w.Holds(item2, to2) && FreeSlots(to2) == old(SlotsWithout(to2, item1))
    ensures forall k: Kind, c: Item {:trigger CountIn(w, k, c)} :: c in old(w.items) ==>
              CountIn(w, k, c) == old(CountIn(w, k, c))
                + if r == NoError then Shift(k, c, old(item1.kind), cylinder1, to1, old(item1.count)) else 0
  {
    ghost var others := set x | x in w.items && !w.Holds(item2, x);
    r := MoveAll(w, cylinder1, to1, item1, item2);
    if r == NoError {
      HoldsNone(w, item2, to2, others);
    }
  }

  /** A full bag with fifty coins, and another with thirty coins and a free slot; elsewhere lies a sword. */
  ghost predicate FullBag(w: World, gold: Kind, sword: Kind, item1: Item, to1: Item, item2: Item, to2: Item)
    reads w, w.items, to2, to2.itemlist
  {
    && Deal(w, item1, to1, item2, to2) && item1.parent != null && item1.parent != to1 && item1.parent != to2
    && item1.kind == sword && item1.count == 1 && item1.itemlist == [] && item2.itemlist == []
    && to1.itemlist == [item2] && item2.kind == gold && item2.count == 30 && to1.capacity == 2 && to1.unlocked
    && |to2.itemlist| == 1 && to2.itemlist[0].kind == gold && to2.itemlist[0].count == 50
    && to2.capacity == 1 && to2.unlocked
  }

  lemma {:induction false} FullBagTakesNothing(w: World, gold: Kind, sword: Kind, item1: Item, to1: Item, item2: Item,
                                               to2: Item)
    requires FullBag(w, gold, sword, item1, to1, item2, to2)
    requires gold.stackable && gold.pickupable && gold.moveable
    requires !sword.stackable && sword.pickupable && sword.moveable
    ensures MovesOf(w, item1, to1, item2, to2) == OnlyFirst
  {
    EmptyHoldsNothing(w, item1, to1);
    EmptyHoldsNothing(w, item2, to1);
    EmptyHoldsNothing(w, item2, to2);
    assert item2 in to1.itemlist && to2.itemlist[0] in to2.itemlist && to2.itemlist[1..] == [];
    assert RoomIn(to2.itemlist, item2) == 50 + RoomIn(to2.itemlist[1..], item2);
  }

  lemma {:induction false} FullBagCounts(w: World, gold: Kind, sword: Kind, item1: Item, to1: Item, item2: Item,
                                         to2: Item)
    requires FullBag(w, gold, sword, item1, to1, item2, to2) && gold.stackable && !sword.stackable
    ensures Tally(w)[to1][gold] == 30 && Tally(w)[to1][sword] == 0
    ensures Tally(w)[to2][gold] == 50 && Tally(w)[to2][sword] == 0
  {
    CountOfOne(w, gold, to1);
    CountOfOne(w, sword, to1);
    CountOfOne(w, gold, to2);
    CountOfOne(w, sword, to2);
  }

  /** The sword is in the bag of the one who paid for it, and all coins are where they were. */
  lemma {:induction false} OnlyTheSword(before: map<Item, imap<Kind, int>>, after: map<Item, imap<Kind, int>>,
                                        gold: Kind, sword: Kind, lot1: Lot, to1: Item, lot2: Lot, to2: Item)
    requires Swapped(before, after, OnlyFirst, lot1, to1, lot2, to2) && {to1, to2} <= before.Keys && to1 != to2
    requires lot1.kind == sword && lot1.count == 1 && lot1.parent != to1 && lot1.parent != to2 && gold != sword
    requires sword in before[to1] && before[to1][sword] == 0 && gold in before[to1] && before[to1][gold] == 30
    requires sword in before[to2] && before[to2][sword] == 0 && gold in before[to2] && before[to2][gold] == 50
    ensures {to1, to2} <= after.Keys && sword in after[to1] && gold in after[to1] && sword in after[to2]
            && gold in after[to2]
    ensures after[to1][sword] == 1 && after[to1][gold] == 30
    ensures after[to2][sword] == 0 && after[to2][gold] == 50
  {
    assert SwappedIn(to1, before[to1], after[to1], OnlyFirst, lot1, to1, lot2, to2);
    assert SwappedIn(to2, before[to2], after[to2], OnlyFirst, lot1, to1, lot2, to2);
  }

  method FillBag(gold: Kind, sword: Kind) returns (w: World, item1: Item, to1: Item, item2: Item, to2: Item)
    requires gold.stackable && !sword.stackable
    ensures fresh(w) && fresh(w.items) && FullBag(w, gold, sword, item1, to1, item2, to2)
  {
    var box, coins;
    w, box, to1, to2, coins := FiftyCoins(gold, sword);
    item1 := NewIn(w, box, sword, 1);
    item2 := NewIn(w, to1, gold, 30);
    assert to1.itemlist == [item2] && to2.itemlist == [coins];
  }

  method FiftyCoins(gold: Kind, sword: Kind) returns (w: World, box: Item, bag: Item, bag': Item, coins: Item)
    requires gold.stackable && !sword.stackable
    ensures fresh(w) && fresh(w.items) && w.Valid() && StacksOk(w) && {box, bag, bag', coins} <= w.items
    ensures box != bag && box != bag' && bag != bag'
    ensures box.isContainer && bag.isContainer && bag'.isContainer && bag.unlocked && bag'.unlocked
    ensures box.itemlist == bag.itemlist == [] && bag'.itemlist == [coins] && bag.capacity == 2 && bag'.capacity == 1
    ensures coins.kind == gold && coins.count == 50
  {
    w, box, bag, bag' := ThreeBoxes(sword);
    coins := NewIn(w, bag', gold, 50);
  }

  /**
   A sword is given for thirty coins to a player whose bag is full and holds fifty. The thirty would fit onto the
   fifty, and so the tests are passed, but they are to have a slot of their own: only the sword changes hands, and
   the trade is a success.
   */
  method EmptyHanded(gold: Kind, sword: Kind)
    returns (isSuccess: bool, moved: Moved, w: World, theirBag: Item, fullBag: Item)
    requires gold.stackable && gold.pickupable && gold.moveable
    requires !sword.stackable && sword.pickupable && sword.moveable
    ensures isSuccess && moved == OnlyFirst && w.Valid() && {theirBag, fullBag} <= w.items
    ensures Tally(w)[theirBag][sword] == 1 && Tally(w)[theirBag][gold] == 30
    ensures Tally(w)[fullBag][sword] == 0 && Tally(w)[fullBag][gold] == 50
  {
    var item1, item2;
    w, item1, theirBag, item2, fullBag := FillBag(gold, sword);
    FullBagTakesNothing(w, gold, sword, item1, theirBag, item2, fullBag);
    FullBagCounts(w, gold, sword, item1, theirBag, item2, fullBag);
    ghost var before, lot1, lot2 := Tally(w), LotOf(item1), LotOf(item2);
    isSuccess, moved := TransferTallied(w, item1, theirBag, item2, fullBag);
    OnlyTheSword(before, Tally(w), gold, sword, lot1, theirBag, lot2, fullBag);
  }

  method ThreeBoxes(kind: Kind) returns (w: World, box: Item, bag: Item, bag': Item)
    requires !kind.stackable
    ensures fresh(w) && fresh(w.items) && w.Valid() && StacksOk(w) && {box, bag, bag'} <= w.items
    ensures box != bag && box != bag' && bag != bag'
    ensures box.isContainer && bag.isContainer && bag'.isContainer && bag.unlocked && bag'.unlocked
    ensures box.itemlist == bag.itemlist == bag'.itemlist == [] && bag.capacity == 2 && bag'.capacity == 1
    ensures bag.parent == null && bag'.parent == null
  {
    w := new World();
    box := w.CreateItem(kind, 1, true, 1, true);
    bag := w.CreateItem(kind, 1, true, 2, true);
    bag' := w.CreateItem(kind, 1, true, 1, true);
  }
}
