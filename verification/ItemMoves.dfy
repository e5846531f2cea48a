/**
 Moving and adding items between containers: stacks are split, merged up to 100 and cloned, and
 nothing is lost or made on the way.
 */
module ItemMoves {
  import opened ItemTree

  const STACK_MAX := 100

  ghost function Counts(w: World, kind: Kind): (m: map<Item, int>)
    reads w`items, w.items`kind, w.items`count
    ensures m.Keys == w.items
  {
    map x | x in w.items :: if x.kind == kind then x.count as int else 0
  }

  /** How many things of a kind lie directly in a container. */
  ghost function CountIn(w: World, kind: Kind, c: Item): int
    requires w.Wired() && c in w.items
    reads w`items, w.items`kind, w.items`count, w.items`parent, w.items`itemlist
  {
    Total(Counts(w, kind), c.itemlist)
  }

  /** Every item counts for at least one thing, stacks hold at most 100, and containers do not stack. */
  ghost predicate StacksOk(w: World)
    reads w`items, w.items`kind, w.items`count
  {
    forall x {:trigger x.count} :: x in w.items ==>
      1 <= x.count < 0x100 && (x.kind.stackable ==> x.count <= STACK_MAX && !x.isContainer)
  }

  // ----- the primitive changes and what they do to the counts

  /** removeThing with a count that queryRemove has allowed. */
  method TakeFrom(w: World, from: Item, item: Item, m: nat)
    requires w.Valid() && StacksOk(w) && from in w.items && from.isContainer && item in from.itemlist
    requires item.kind.stackable ==> 1 <= m <= item.count
    modifies from`itemlist, item`parent, item`kind, item`count, w.items`totalWeight
    ensures w.Valid() && StacksOk(w)
    ensures item.kind == old(item.kind)
    ensures item.count == if item.kind.stackable && m != old(item.count) then old(item.count) - m else old(item.count)
    ensures if item.kind.stackable && m != old(item.count)
            then from.itemlist == old(from.itemlist) && item.parent == from
            else item.parent == null && from.itemlist == Without(old(from.itemlist), IndexOf(old(from.itemlist), item))
    ensures forall k: Kind, c: Item {:trigger CountIn(w, k, c)} :: c in w.items ==>
              CountIn(w, k, c) == old(CountIn(w, k, c))
                - if c == from && k == item.kind then (if item.kind.stackable then m else item.count) else 0
  {
    var index := IndexOf(from.itemlist, item);
    w.RemoveThing(from, item, m);
    forall k: Kind, c: Item | c in w.items
      ensures CountIn(w, k, c) == old(CountIn(w, k, c))
                - if c == from && k == item.kind then (if item.kind.stackable then m else item.count) else 0
    {
      var before := old(Counts(w, k));
      assert item in c.itemlist ==> c == from;
      if item.kind.stackable && m != old(item.count) {
        if k == item.kind {
          TotalUpdate(before, c.itemlist, item, item.count);
          assert Counts(w, k) == before[item := item.count];
        } else {
          assert Counts(w, k) == before;
        }
      } else {
        assert Counts(w, k) == before;
        if c == from {
          TotalRemove(before, old(from.itemlist), index);
        }
      }
    }
  }

  /** updateThing with a larger count. */
  method MergeInto(w: World, to: Item, toItem: Item, n: nat)
    requires w.Valid() && StacksOk(w) && to in w.items && to.isContainer && toItem in to.itemlist
    requires toItem.kind.stackable && toItem.count + n <= STACK_MAX
    modifies toItem`kind, toItem`count, w.items`totalWeight
    ensures w.Valid() && StacksOk(w)
    ensures toItem.kind == old(toItem.kind) && toItem.count == old(toItem.count) + n
    ensures forall k: Kind, c: Item {:trigger CountIn(w, k, c)} :: c in w.items ==>
              CountIn(w, k, c) == old(CountIn(w, k, c)) + if c == to && k == toItem.kind then n else 0
  {
    w.UpdateThing(to, toItem, toItem.kind, toItem.count + n);
    forall k: Kind, c: Item | c in w.items
      ensures CountIn(w, k, c) == old(CountIn(w, k, c)) + if c == to && k == toItem.kind then n else 0
    {
      var before := old(Counts(w, k));
      assert toItem in c.itemlist ==> c == to;
      if k == toItem.kind {
        TotalUpdate(before, c.itemlist, toItem, toItem.count);
        assert Counts(w, k) == before[toItem := toItem.count];
      } else {
        assert Counts(w, k) == before;
      }
    }
  }

  /** addThing of a loose item; an index beyond the capacity drops it silently. */
  method PutInto(w: World, to: Item, index: int, x: Item)
    requires w.Valid() && StacksOk(w) && to in w.items && to.isContainer && x in w.items && x.parent == null
    requires !w.Holds(x, to)
    modifies w`rank, to`itemlist, x`parent, w.items`totalWeight
    ensures w.Valid() && StacksOk(w)
    ensures if index >= to.capacity then to.itemlist == old(to.itemlist) && x.parent == null
            else to.itemlist == [x] + old(to.itemlist) && x.parent == to
    ensures forall k: Kind, c: Item {:trigger CountIn(w, k, c)} :: c in w.items ==>
              CountIn(w, k, c) == old(CountIn(w, k, c)) +
                if c == to && k == x.kind && index < to.capacity then x.count else 0
  {
    w.AddThing(to, index, x);
    forall k: Kind, c: Item | c in w.items
      ensures CountIn(w, k, c) == old(CountIn(w, k, c)) +
              if c == to && k == x.kind && index < to.capacity then x.count else 0
    {
      assert Counts(w, k) == old(Counts(w, k));
      assert to.itemlist != old(to.itemlist) ==> to.itemlist[1..] == old(to.itemlist);
    }
  }

  /** clone and setItemCount: a new loose stack. */
  method NewStack(w: World, kind: Kind, count: nat) returns (x: Item)
    requires w.Valid() && StacksOk(w) && kind.stackable && 1 <= count <= STACK_MAX
    modifies w`items, w`rank
    ensures w.Valid() && StacksOk(w) && fresh(x) && w.items == old(w.items) + {x}
    ensures x.kind == kind && x.count == count && x.parent == null && x.itemlist == [] && !x.isContainer
    ensures forall k: Kind, c: Item {:trigger CountIn(w, k, c)} :: c in old(w.items) ==>
              CountIn(w, k, c) == old(CountIn(w, k, c))
    ensures forall c :: c in old(w.items) ==> !w.Holds(x, c)
  {
    x := w.CreateItem(kind, count, false, 0, true);
    forall k: Kind, c: Item | c in old(w.items)
      ensures CountIn(w, k, c) == old(CountIn(w, k, c))
    {
      TotalSame(old(Counts(w, k)), Counts(w, k), c.itemlist);
    }
    forall c | c in old(w.items) ensures !w.Holds(x, c) {
      EmptyHoldsNothing(w, x, c);
    }
  }

  /** Nothing is below an item that lists nothing. */
  lemma {:induction false} EmptyHoldsNothing(w: World, x: Item, c: Item)
    requires w.Wired() && w.Ranked() && x in w.items && x.itemlist == [] && c in w.items && c != x
    ensures !w.Holds(x, c)
    decreases w.rank[c]
  {
    if c.parent != null {
      EmptyHoldsNothing(w, x, c.parent);
    }
  }

  /** An item outside a set that is closed under parents holds nothing in the set. */
  lemma {:induction false} HoldsNone(w: World, item: Item, c: Item, others: set<Item>)
    requires w.Wired() && w.Ranked() && c in w.items && c in others && item !in others
    requires forall x {:trigger x.parent} :: x in others && x in w.items && x.parent != null ==> x.parent in others
    ensures !w.Holds(item, c)
    decreases w.rank[c]
  {
    if c.parent != null {
      HoldsNone(w, item, c.parent, others);
    }
  }

  // ----- the queries of a container

  predicate HasRoom(x: Item, item: Item)
    reads x, item
  {
    x != item && x.kind == item.kind && x.count < STACK_MAX
  }

  /** Room left in the stacks of the same kind, the item itself not counted. */
  ghost function RoomIn(s: seq<Item>, item: Item): nat
    reads s, item
  {
    if s == [] then 0
    else (if HasRoom(s[0], item) then STACK_MAX - s[0].count else 0) + RoomIn(s[1..], item)
  }

  /** Where the first stack of the item's kind with room is; the length of the list if there is none. */
  ghost function FirstRoom(s: seq<Item>, item: Item): (k: nat)
    reads s, item
    ensures k <= |s| && (k < |s| ==> HasRoom(s[k], item)) && forall j :: 0 <= j < k ==> !HasRoom(s[j], item)
    ensures k == |s| <==> RoomIn(s, item) == 0
  {
    if s == [] then 0
    else if HasRoom(s[0], item) then 0
    else
      var k := FirstRoom(s[1..], item);
      assert forall j :: 1 <= j < k + 1 ==> s[j] == s[1..][j - 1];
      k + 1
  }

  lemma {:induction false} FirstRoomIs(s: seq<Item>, item: Item, k: nat)
    requires k < |s| && HasRoom(s[k], item) && forall j :: 0 <= j < k ==> !HasRoom(s[j], item)
    ensures FirstRoom(s, item) == k
  {
  }

  function FreeSlots(c: Item): nat
    reads c
  {
    if c.capacity > |c.itemlist| then c.capacity - |c.itemlist| else 0
  }

  /** The loop of queryMaxCount over the stacks of the same kind. */
  method StackRoom(w: World, c: Item, item: Item) returns (n: nat)
    requires w.Valid() && c in w.items && item in w.items
    ensures n == if w.QueryAddResult(c, 0, item, false) == NoError then RoomIn(c.itemlist, item) else 0
  {
    n := 0;
    var slotIndex := 0;
    ghost var addable := w.QueryAddResult(c, 0, item, false) == NoError;
    for k := 0 to |c.itemlist|
      invariant slotIndex >= 0
      invariant if addable then n + RoomIn(c.itemlist[k..], item) == RoomIn(c.itemlist, item) else n == 0
    {
      var x := c.itemlist[k];
      assert c.itemlist[k..][1..] == c.itemlist[k + 1..];
      assert RoomIn(c.itemlist[k..], item)
             == (if HasRoom(x, item) then STACK_MAX - x.count else 0) + RoomIn(c.itemlist[k + 1..], item);
      if HasRoom(x, item) {
        var ret := w.QueryAdd(c, slotIndex, item, false);
        slotIndex := slotIndex + 1;
        if ret == NoError {
          n := n + (STACK_MAX - x.count);
        }
      }
    }
    assert c.itemlist[|c.itemlist|..] == [];
  }

  /** Container::queryMaxCount: how much of the item fits, and whether count of it does. */
  method QueryMaxCount(w: World, c: Item, index: int, item: Item, count: nat, noLimit: bool)
    returns (r: ReturnValue, maxQueryCount: nat)
    requires w.Valid() && StacksOk(w) && c in w.items && item in w.items
    ensures noLimit ==> r == NoError && maxQueryCount == if count == 0 then 1 else count
    ensures !noLimit && !item.kind.stackable ==>
              maxQueryCount == FreeSlots(c) && r == if FreeSlots(c) == 0 then ContainerNotEnoughRoom else NoError
    ensures !noLimit && item.kind.stackable ==>
              && (r == if maxQueryCount < count then ContainerNotEnoughRoom else NoError)
              && maxQueryCount == FreeSlots(c) * STACK_MAX
                  + if w.QueryAddResult(c, 0, item, false) != NoError then 0
                    else if index == INDEX_WHEREEVER then RoomIn(c.itemlist, item)
                    else if 0 <= index < |c.itemlist| && c.itemlist[index].kind == item.kind
                    then STACK_MAX - c.itemlist[index].count
                    else 0
  {
    if noLimit {
      return NoError, if count == 0 then 1 else count;
    }
    var freeSlots := FreeSlots(c);
    if item.kind.stackable {
      var n := 0;
      if index == INDEX_WHEREEVER {
        n := StackRoom(w, c, item);
      } else if 0 <= index < |c.itemlist| {
        var destItem := c.itemlist[index];
        assert destItem in c.itemlist;
        if item.kind == destItem.kind && destItem.count < STACK_MAX {
          var ret := w.QueryAdd(c, index, item, noLimit);
          if ret == NoError {
            n := STACK_MAX - destItem.count;
          }
        }
      }
      maxQueryCount := freeSlots * STACK_MAX + n;
      r := if maxQueryCount < count then ContainerNotEnoughRoom else NoError;
    } else {
      maxQueryCount := freeSlots;
      r := if maxQueryCount == 0 then ContainerNotEnoughRoom else NoError;
    }
  }

  method QueryRemove(w: World, c: Item, item: Item, count: nat, ignoreNotMoveable: bool) returns (r: ReturnValue)
    ensures r == NoError <==>
              item in c.itemlist && count != 0 && (item.kind.stackable ==> count <= item.count)
              && (item.kind.moveable || ignoreNotMoveable)
  {
    var index := w.GetThingIndex(c, item);
    if index == -1 { return NotPossible; }
    if count == 0 || (item.kind.stackable && count > item.count) { return NotPossible; }
    if !item.kind.moveable && !ignoreNotMoveable { return NotMoveable; }
    return NoError;
  }

  /** What queryDestination may answer: another cylinder with no index, or this one with a slot of its own. */
  ghost predicate DestinationOk(w: World, c: Item, dest: Item, index: int, toItem: Item?)
    requires w.Wired()
    reads w, w.items
  {
    && dest in w.items && dest.isContainer
    && (dest != c ==> index == INDEX_WHEREEVER && toItem == null)
    && (toItem != null ==> dest in w.items && 0 <= index < |dest.itemlist| && dest.itemlist[index] == toItem)
    && (dest == c && toItem == null && c.unlocked ==> index == INDEX_WHEREEVER || |c.itemlist| <= index < c.capacity)
  }

  /** Whether queryDestination answers with another container: the one above, or the one at the index. */
  predicate Redirects(c: Item, index: int)
    reads c, c.itemlist
  {
    c.unlocked
    && if index == 254 then c.parent != null
       else index != 255 && 0 <= index < c.capacity && index < |c.itemlist| && c.itemlist[index].isContainer
  }

  /** The container that queryDestination answers with. */
  function AskedIn(c: Item, index: int): Item
    reads c, c.itemlist
  {
    if !Redirects(c, index) then c else if index == 254 then c.parent else c.itemlist[index]
  }

  /** The slot that is asked for, if it is one that the container has. */
  function SlotAsked(c: Item, index: int): int {
    if index == 254 || index == 255 || index >= c.capacity then INDEX_WHEREEVER else index
  }

  function ItemAt(c: Item, index: int): Item?
    reads c
  {
    if 0 <= index < |c.itemlist| then c.itemlist[index] else null
  }

  /** Whether queryDestination looks for a stack to merge with, and finds one. */
  ghost predicate AutoStacks(c: Item, index: int, item: Item, ignoreAutoStack: bool)
    reads c, c.itemlist, item
  {
    && c.unlocked && index != 254 && !Redirects(c, index) && !ignoreAutoStack
    && item.kind.stackable && item.parent != c && FirstRoom(c.itemlist, item) < |c.itemlist|
  }

  /** The slot that queryDestination answers with: that of the first stack with room, or the one asked for. */
  ghost predicate Placed(c: Item, index0: int, item: Item, ignoreAutoStack: bool, index: int, toItem: Item?)
    reads c, c.itemlist, item
  {
    if AutoStacks(c, index0, item, ignoreAutoStack)
    then index == FirstRoom(c.itemlist, item) && toItem == c.itemlist[index]
    else (toItem != null ==> index < c.capacity) && (index0 == INDEX_WHEREEVER ==> index == index0 && toItem == null)
  }

  method QueryDestination(w: World, c: Item, index: int, item: Item, ignoreAutoStack: bool)
    returns (dest: Item, newIndex: int, toItem: Item?)
    requires w.Valid() && StacksOk(w) && c in w.items && c.isContainer && item in w.items && index >= INDEX_WHEREEVER
    ensures DestinationOk(w, c, dest, newIndex, toItem) && newIndex >= INDEX_WHEREEVER
    ensures dest == AskedIn(c, index) && (dest != c <==> Redirects(c, index))
    ensures Placed(c, index, item, ignoreAutoStack, newIndex, toItem)
    ensures c.unlocked && dest == c && !AutoStacks(c, index, item, ignoreAutoStack) ==>
              newIndex == SlotAsked(c, index) && toItem == ItemAt(c, newIndex)
  {
    dest, newIndex, toItem := c, index, null;
    if !c.unlocked {
      return;
    }
    if newIndex == 254 {
      newIndex := INDEX_WHEREEVER;
      if c.parent != null {
        dest := c.parent;
      }
      return;
    }
    if newIndex == 255 || newIndex >= c.capacity {
      newIndex := INDEX_WHEREEVER;
    }
    if newIndex != INDEX_WHEREEVER {
      if newIndex < |c.itemlist| {
        toItem := c.itemlist[newIndex];
        assert toItem in c.itemlist;
      }
      if toItem != null && toItem.isContainer {
        dest, newIndex, toItem := toItem, INDEX_WHEREEVER, null;
        return;
      }
    }
    if !ignoreAutoStack && item.kind.stackable && item.parent != c {
      for n := 0 to |c.itemlist|
        invariant forall j :: 0 <= j < n ==> !HasRoom(c.itemlist[j], item)
      {
        if HasRoom(c.itemlist[n], item) {
          newIndex, toItem := n, c.itemlist[n];
          FirstRoomIs(c.itemlist, item, n);
          return;
        }
      }
    }
  }

  // ----- Game::internalMoveItem

  const MAP_MAX_LAYERS := 16

  /** Follows queryDestination until a cylinder keeps the item for itself. */
  method FindDestination(w: World, toCylinder: Item, index0: int, item: Item, flags: Flags)
    returns (to: Item, index: int, toItem: Item?, left: Flags)
    requires w.Valid() && StacksOk(w) && toCylinder in w.items && toCylinder.isContainer && item in w.items
    requires index0 >= INDEX_WHEREEVER
    ensures to in w.items && to.isContainer && index >= INDEX_WHEREEVER
    ensures toItem != null ==> 0 <= index < |to.itemlist| && to.itemlist[index] == toItem
    ensures toItem == null && to.unlocked ==> index == INDEX_WHEREEVER || |to.itemlist| <= index < to.capacity
    ensures if Redirects(toCylinder, index0) then to != toCylinder && left == Flags(false, false)
            else to == toCylinder && left == flags
    ensures Placed(to, if to == toCylinder then index0 else INDEX_WHEREEVER, item, left.ignoreAutoStack, index, toItem)
  {
    to, index, left := toCylinder, index0, flags;
    var floorN := 0;
    var subCylinder;
    subCylinder, index, toItem := QueryDestination(w, to, index, item, left.ignoreAutoStack);
    while subCylinder != to
      invariant 0 <= floorN <= 1 && index >= INDEX_WHEREEVER && to in w.items
                && DestinationOk(w, to, subCylinder, index, toItem)
      invariant floorN == 0 ==>
                  to == toCylinder && left == flags && (subCylinder != to <==> Redirects(toCylinder, index0))
                  && Placed(to, index0, item, flags.ignoreAutoStack, index, toItem)
      invariant floorN == 1 ==>
                  subCylinder == to && to != toCylinder && left == Flags(false, false) && Redirects(toCylinder, index0)
                  && Placed(to, INDEX_WHEREEVER, item, false, index, toItem)
      decreases 1 - floorN
    {
      to, left := subCylinder, Flags(false, false);
      // to prevent an infinite loop; one round is enough among containers
      floorN := floorN + 1;
      if floorN >= MAP_MAX_LAYERS { break; }
      subCylinder, index, toItem := QueryDestination(w, to, index, item, left.ignoreAutoStack);
    }
  }

  datatype Flags = Flags(noLimit: bool, ignoreAutoStack: bool)

  /** What is left of m after the merge with the destination's stack. */
  function Unmerged(toItem: Item?, item: Item, m: int): int
    reads toItem, item
  {
    if toItem == null || toItem.kind != item.kind then m
    else if m + toItem.count <= STACK_MAX then 0
    else m + toItem.count - STACK_MAX
  }

  /** The item has left its place and is the first in its new container. */
  twostate predicate MovedWhole(from: Item, to: Item, item: Item)
    reads from, to, item
  {
    && item.parent == to && item in old(from.itemlist)
    && var left := Without(old(from.itemlist), IndexOf(old(from.itemlist), item));
       if from == to then to.itemlist == [item] + left
       else to.itemlist == [item] + old(to.itemlist) && from.itemlist == left
  }

  /** One place fewer is taken where the item came from and one more where it went; every other item is as it was. */
  twostate predicate Arrived(w: World, from: Item, to: Item, item: Item)
    reads w`items, w.items, item`parent
  {
    && old(w.items) <= w.items && (item.parent == null || item.parent == to)
    && (forall x {:trigger x.parent} {:trigger x.count} {:trigger x.kind} :: x in old(w.items) && x != item ==>
          x.parent == old(x.parent) && x.count == old(x.count) && x.kind == old(x.kind))
    && forall c {:trigger c.itemlist} :: c in old(w.items) ==>
         |c.itemlist| == |old(c.itemlist)| - (if c == from then 1 else 0) + if c == to then 1 else 0
  }

  /** The changing half of internalMoveItem: every query has been answered. */
  method Transfer(w: World, from: Item, to: Item, index: int, toItem: Item?, item: Item, m: nat, ghost noLimit: bool)
    returns (moveItem: Item?, ghost taken: nat, ghost lost: nat)
    requires w.Valid() && StacksOk(w) && from in w.items && from.isContainer && to in w.items && to.isContainer
    requires item in from.itemlist && item != toItem && !w.Holds(item, to)
    requires item.kind.stackable ==> 1 <= m <= item.count
    requires toItem != null ==> toItem in to.itemlist && 0 <= index < |to.itemlist|
    requires index >= to.capacity ==> toItem != null && toItem.kind == item.kind && item.kind.stackable
    requires !noLimit && (item.kind.stackable ==> Unmerged(toItem, item, m) > 0) ==> FreeSlots(to) > 0
    modifies w, w.items
    ensures w.Valid() && StacksOk(w) && old(w.items) <= w.items
    ensures fresh(w.items - old(w.items))
    ensures forall k: Kind, c: Item {:trigger CountIn(w, k, c)} :: c in old(w.items) ==>
              CountIn(w, k, c) == old(CountIn(w, k, c))
                + (if k == old(item.kind) && c == to then taken - lost else 0)
                - (if k == old(item.kind) && c == from then taken else 0)
    ensures item.kind == old(item.kind) && taken == (if item.kind.stackable then m else old(item.count))
    ensures !item.kind.stackable && lost == 0 ==> moveItem == item && MovedWhole(from, to, item)
    ensures toItem == null && taken == old(item.count) ==> Arrived(w, from, to, item)
    ensures lost <= taken && lost == if index >= to.capacity then old(Unmerged(toItem, item, m)) else 0
    ensures !noLimit ==> |to.itemlist| <= to.capacity || |to.itemlist| <= |old(to.itemlist)|
  {
    if item.kind.stackable {
      moveItem, lost := TransferStack(w, from, to, index, toItem, item, m, noLimit);
      taken := m;
    } else {
      moveItem, taken, lost := item, item.count, 0;
      TransferWhole(w, from, to, index, item, m);
    }
  }

  method TransferWhole(w: World, from: Item, to: Item, index: int, item: Item, m: nat)
    requires w.Valid() && StacksOk(w) && from in w.items && from.isContainer && to in w.items && to.isContainer
    requires item in from.itemlist && !item.kind.stackable && !w.Holds(item, to) && index < to.capacity
    modifies w`rank, from`itemlist, to`itemlist, item`parent, item`kind, item`count, w.items`totalWeight
    ensures w.Valid() && StacksOk(w) && item.kind == old(item.kind)
    ensures forall k: Kind, c: Item {:trigger CountIn(w, k, c)} :: c in w.items ==>
              CountIn(w, k, c) == old(CountIn(w, k, c))
                + (if k == item.kind && c == to then old(item.count) else 0)
                - (if k == item.kind && c == from then old(item.count) else 0)
    ensures MovedWhole(from, to, item) && Arrived(w, from, to, item)
  {
    ghost var others := set x | x in w.items && !w.Holds(item, x);
    TakeFrom(w, from, item, m);
    HoldsNone(w, item, to, others);
    PutInto(w, to, index, item);
  }

  method TransferStack(w: World, from: Item, to: Item, index: int, toItem: Item?, item: Item, m: nat,
                       ghost noLimit: bool)
    returns (moveItem: Item?, ghost lost: nat)
    requires w.Valid() && StacksOk(w) && from in w.items && from.isContainer && to in w.items && to.isContainer
    requires item in from.itemlist && item != toItem && item.kind.stackable && 1 <= m <= item.count
    requires toItem != null ==> toItem in to.itemlist && 0 <= index < |to.itemlist|
    requires !noLimit && Unmerged(toItem, item, m) > 0 ==> FreeSlots(to) > 0
    modifies w, w.items
    ensures w.Valid() && StacksOk(w) && old(w.items) <= w.items
    ensures fresh(w.items - old(w.items))
    ensures forall k: Kind, c: Item {:trigger CountIn(w, k, c)} :: c in old(w.items) ==>
              CountIn(w, k, c) == old(CountIn(w, k, c))
                + (if k == old(item.kind) && c == to then m - lost else 0)
                - (if k == old(item.kind) && c == from then m else 0)
    ensures item.kind == old(item.kind)
    ensures toItem == null && m == old(item.count) && index < to.capacity ==> Arrived(w, from, to, item)
    ensures lost <= m && lost == if index >= to.capacity then old(Unmerged(toItem, item, m)) else 0
    ensures !noLimit ==> |to.itemlist| <= to.capacity || |to.itemlist| <= |old(to.itemlist)|
  {
    var kind := item.kind;
    TakeFrom(w, from, item, m);
    var n := 0;
    if toItem != null && item.kind == toItem.kind {
      n := if m < STACK_MAX - toItem.count then m else STACK_MAX - toItem.count;
      MergeInto(w, to, toItem, n);
    }
    moveItem, lost := AddRest(w, to, index, kind, m - n);
  }

  /** The clone that carries what did not fit into the destination's stack. */
  method AddRest(w: World, to: Item, index: int, kind: Kind, newCount: nat) returns (moveItem: Item?, ghost lost: nat)
    requires w.Valid() && StacksOk(w) && to in w.items && to.isContainer && kind.stackable && newCount <= STACK_MAX
    modifies w, to`itemlist, w.items`totalWeight
    ensures w.Valid() && StacksOk(w) && old(w.items) <= w.items
    ensures fresh(w.items - old(w.items))
    ensures lost == if index >= to.capacity then newCount else 0
    ensures newCount == 0 || index >= to.capacity ==> to.itemlist == old(to.itemlist)
    ensures newCount > 0 && index < to.capacity ==> |to.itemlist| == |old(to.itemlist)| + 1
    ensures forall k: Kind, c: Item {:trigger CountIn(w, k, c)} :: c in old(w.items) ==>
              CountIn(w, k, c) == old(CountIn(w, k, c)) + if k == kind && c == to then newCount - lost else 0
  {
    moveItem := null;
    lost := if index >= to.capacity then newCount else 0;
    if newCount > 0 {
      moveItem := NewStack(w, kind, newCount);
      PutInto(w, to, index, moveItem);
    }
  }

  /** Whether holder is the cylinder or one of its parents. */
  method IsUnder(w: World, holder: Item, c: Item) returns (r: bool)
    requires w.Valid() && c in w.items
    ensures r <==> w.Holds(holder, c)
  {
    var cylinder: Item? := c;
    while cylinder != null
      invariant cylinder != null ==> cylinder in w.items && (w.Holds(holder, c) <==> w.Holds(holder, cylinder))
      invariant cylinder == null ==> !w.Holds(holder, c)
      decreases if cylinder == null then 0 else w.rank[cylinder] + 1
    {
      if cylinder == holder { return true; }
      cylinder := cylinder.parent;
    }
    return false;
  }

  /** The item is there in that count, may be moved and may go there, and the destination has a free slot. */
  ghost predicate Allowed(w: World, from: Item, to: Item, item: Item, count: nat)
    requires w.Wired() && w.Ranked() && to in w.items
    reads w, w.items, item, from
  {
    && item in from.itemlist && item.kind.moveable && (item.kind.stackable ==> 1 <= count <= item.count)
    && to.unlocked && item.kind.pickupable && !w.Holds(item, to) && FreeSlots(to) > 0
  }

  /** The same, and the destination is not inside what is given for it. */
  ghost predicate Takes(w: World, from: Item, to: Item, item: Item, count: nat, tradeItem: Item?)
    requires w.Wired() && w.Ranked() && to in w.items
    reads w, w.items, item, from
  {
    Allowed(w, from, to, item, count) && (tradeItem != null ==> !w.Holds(tradeItem, to))
  }

  /** Asked to go anywhere in a container, as a whole and not onto another stack. */
  predicate Apart(index0: int, item: Item, count: nat, flags: Flags)
    reads item
  {
    index0 == INDEX_WHEREEVER && flags == Flags(false, true) && count == item.count
  }

  /**
   A stack is asked into an overfull container without limits, nothing speaks against it, and the first stack of
   its kind with room lies beyond the capacity and cannot take all of it.
   */
  ghost predicate Loses(w: World, from: Item, to: Item, index: int, item: Item, count: nat, flags: Flags,
                        tradeItem: Item?)
    requires w.Wired() && w.Ranked() && to in w.items
    reads w, w.items, item, from, to, to.itemlist
  {
    && flags.noLimit && item.kind.stackable && 1 <= count <= item.count && item in from.itemlist && item.kind.moveable
    && to.unlocked && item.kind.pickupable && !w.Holds(item, to) && (tradeItem != null ==> !w.Holds(tradeItem, to))
    && AutoStacks(to, index, item, flags.ignoreAutoStack)
    && var k := FirstRoom(to.itemlist, item);
       k >= to.capacity && count > STACK_MAX - to.itemlist[k].count
  }

  /** A plain request that nothing speaks against. */
  ghost predicate Movable(w: World, from: Item, to: Item, index: int, item: Item, count: nat, flags: Flags,
                          tradeItem: Item?)
    requires w.Wired() && w.Ranked() && to in w.items
    reads w, w.items, item, from
  {
    index == INDEX_WHEREEVER && tradeItem == null && !flags.noLimit && Allowed(w, from, to, item, count)
  }

  /** The querying half of internalMoveItem. go tells whether anything is to be moved; r is the answer to the caller. */
  method PlanMove(w: World, from: Item, toCylinder: Item, index0: int, item: Item, count: nat, flags: Flags,
                  tradeItem: Item?)
    returns (go: bool, r: ReturnValue, to: Item, index: int, toItem: Item?, m: nat, left: Flags)
    requires w.Valid() && StacksOk(w) && from in w.items && from.isContainer && item in w.items
    requires toCylinder in w.items && toCylinder.isContainer && index0 >= INDEX_WHEREEVER
    ensures to in w.items && to.isContainer
    ensures if Redirects(toCylinder, index0) then to != toCylinder && left == Flags(false, false)
            else to == toCylinder && left == flags
    ensures toItem != null ==> 0 <= index < |to.itemlist| && to.itemlist[index] == toItem
    ensures go ==> item in from.itemlist && item != toItem
    ensures go && index >= to.capacity ==> toItem != null && toItem.kind == item.kind && item.kind.stackable
    ensures go ==> PlannedFor(w, from, to, toItem, item, count, left, tradeItem, r, m)
    ensures !go && r == NoError ==> item == toItem
    ensures Apart(index0, item, count, flags) ==>
              to == toCylinder && toItem == null
              && (go <==> Takes(w, from, toCylinder, item, count, tradeItem)) && (go <==> r == NoError)
    ensures Movable(w, from, toCylinder, index0, item, count, flags, tradeItem) ==>
            go && r == NoError && to == toCylinder
    ensures Loses(w, from, toCylinder, index0, item, count, flags, tradeItem) <==>
              go && index >= to.capacity && Unmerged(toItem, item, m) > 0
    ensures Loses(w, from, toCylinder, index0, item, count, flags, tradeItem) ==>
              to == toCylinder && m == count
              && Unmerged(toItem, item, m) == count - (STACK_MAX - to.itemlist[FirstRoom(to.itemlist, item)].count)
  {
    to, index, toItem, left := FindDestination(w, toCylinder, index0, item, flags);
    assert toItem != null ==> toItem in to.itemlist;
    go, m := false, 0;
    if item == toItem {
      r := NoError;
      return;
    }
    go, r, m := PlanFound(w, from, toCylinder, index0, to, index, toItem, item, count, flags, left, tradeItem);
  }

  /** The same once the destination is known. */
  method PlanFound(w: World, from: Item, ghost toCylinder: Item, ghost index0: int, to: Item, index: int, toItem: Item?,
                   item: Item, count: nat, ghost flags: Flags, left: Flags, tradeItem: Item?)
    returns (go: bool, r: ReturnValue, m: nat)
    requires w.Valid() && StacksOk(w) && from in w.items && from.isContainer && item in w.items
    requires toCylinder in w.items && to in w.items && to.isContainer && index >= INDEX_WHEREEVER && item != toItem
    requires toItem != null ==> 0 <= index < |to.itemlist| && to.itemlist[index] == toItem
    requires toItem == null && to.unlocked ==> index == INDEX_WHEREEVER || |to.itemlist| <= index < to.capacity
    requires if Redirects(toCylinder, index0) then to != toCylinder && left == Flags(false, false)
             else to == toCylinder && left == flags
    requires Placed(to, if to == toCylinder then index0 else INDEX_WHEREEVER, item, left.ignoreAutoStack, index, toItem)
    ensures go ==> item in from.itemlist
    ensures go && index >= to.capacity ==> toItem != null && toItem.kind == item.kind && item.kind.stackable
    ensures go ==> PlannedFor(w, from, to, toItem, item, count, left, tradeItem, r, m)
    ensures !go ==> r != NoError
    ensures Movable(w, from, toCylinder, index0, item, count, flags, tradeItem) ==>
            go && r == NoError && to == toCylinder
    ensures Apart(index0, item, count, flags) ==>
              to == toCylinder && toItem == null
              && (go <==> Takes(w, from, toCylinder, item, count, tradeItem)) && (go <==> r == NoError)
    ensures Loses(w, from, toCylinder, index0, item, count, flags, tradeItem) <==>
              go && index >= to.capacity && Unmerged(toItem, item, m) > 0
    ensures Loses(w, from, toCylinder, index0, item, count, flags, tradeItem) ==>
              to == toCylinder && m == count
              && Unmerged(toItem, item, m) == count - (STACK_MAX - to.itemlist[FirstRoom(to.itemlist, item)].count)
  {
    assert toItem != null ==> toItem in to.itemlist;
    go, r, m := PlanAt(w, from, to, index, toItem, item, count, left, tradeItem);
    if go {
      LosesIff(w, from, toCylinder, to, index0, index, toItem, item, count, flags, left, tradeItem, r, m);
    }
  }

  /** Something is lost exactly when the rest of a stack is to go to a slot beyond the capacity. */
  lemma {:induction false} LosesIff(w: World, from: Item, toCylinder: Item, to: Item, index0: int, index: int,
                                    toItem: Item?, item: Item, count: nat, flags: Flags, left: Flags,
                                    tradeItem: Item?, r: ReturnValue, m: nat)
    requires w.Wired() && w.Ranked() && toCylinder in w.items && to in w.items && item in from.itemlist
    requires if Redirects(toCylinder, index0) then to != toCylinder && left == Flags(false, false)
             else to == toCylinder && left == flags
    requires toItem != null ==> 0 <= index < |to.itemlist| && to.itemlist[index] == toItem
    requires Placed(to, if to == toCylinder then index0 else INDEX_WHEREEVER, item, left.ignoreAutoStack, index, toItem)
    requires toItem == null ==> index < to.capacity
    requires PlannedFor(w, from, to, toItem, item, count, left, tradeItem, r, m)
    ensures Loses(w, from, toCylinder, index0, item, count, flags, tradeItem) <==>
              index >= to.capacity && Unmerged(toItem, item, m) > 0
    ensures Loses(w, from, toCylinder, index0, item, count, flags, tradeItem) ==>
              to == toCylinder && m == count
              && Unmerged(toItem, item, m) == count - (STACK_MAX - to.itemlist[FirstRoom(to.itemlist, item)].count)
  {
    if index >= to.capacity {
      assert FreeSlots(to) == 0;
    }
  }

  /** What has been found out when something is to be moved: how much, and the answer to the caller. */
  ghost predicate PlannedFor(w: World, from: Item, to: Item, toItem: Item?, item: Item, count: nat, left: Flags,
                             tradeItem: Item?, r: ReturnValue, m: nat)
    requires w.Wired() && w.Ranked() && to in w.items
    reads w, w.items, item, from, to, toItem
  {
    && to.unlocked && item.kind.pickupable && !w.Holds(item, to) && item.kind.moveable && m > 0
    && (tradeItem != null ==> !w.Holds(tradeItem, to))
    && (if item.kind.stackable
        then m <= count && m <= item.count
             && r == (if m == count then NoError else ContainerNotEnoughRoom) && (left.noLimit ==> m == count)
        else r == NoError)
    && (!left.noLimit && (item.kind.stackable ==> Unmerged(toItem, item, m) > 0) ==> FreeSlots(to) > 0)
  }

  /** The questions to the destination, the source and the trade once the destination is known. */
  method PlanAt(w: World, from: Item, to: Item, index: int, toItem: Item?, item: Item, count: nat, left: Flags,
                tradeItem: Item?)
    returns (go: bool, r: ReturnValue, m: nat)
    requires w.Valid() && StacksOk(w) && from in w.items && from.isContainer && item in w.items
    requires to in w.items && to.isContainer && index >= INDEX_WHEREEVER && item != toItem
    requires toItem != null ==> toItem in to.itemlist && 0 <= index < |to.itemlist| && to.itemlist[index] == toItem
    requires toItem == null && to.unlocked ==> index == INDEX_WHEREEVER || |to.itemlist| <= index < to.capacity
    ensures go ==> item in from.itemlist && (toItem == null ==> index < to.capacity)
    ensures go ==> PlannedFor(w, from, to, toItem, item, count, left, tradeItem, r, m)
    ensures !go ==> r != NoError
    ensures Allowed(w, from, to, item, count) && tradeItem == null && !left.noLimit
            && (toItem != null ==> toItem.kind == item.kind) && (toItem == null ==> index == INDEX_WHEREEVER)
            ==> go && r == NoError
    ensures toItem == null && index == INDEX_WHEREEVER && !left.noLimit && count == item.count ==>
              (go <==> Takes(w, from, to, item, count, tradeItem)) && (go ==> r == NoError)
    ensures left.noLimit && item.kind.stackable && 1 <= count <= item.count && item in from.itemlist
            && item.kind.moveable && to.unlocked && item.kind.pickupable && !w.Holds(item, to)
            && (tradeItem != null ==> !w.Holds(tradeItem, to))
            ==> go
  {
    go, m := false, 0;
    r := w.QueryAdd(to, index, item, left.noLimit);
    if r != NoError {
      return;
    }
    var retMaxCount, maxQueryCount := QueryMaxCount(w, to, index, item, count, left.noLimit);
    if retMaxCount != NoError && maxQueryCount == 0 {
      r := retMaxCount;
      return;
    }
    m := if !item.kind.stackable then maxQueryCount else if count < maxQueryCount then count else maxQueryCount;
    r := QueryRemove(w, from, item, m, false);
    if r != NoError {
      return;
    }
    if tradeItem != null {
      var inTrade := IsUnder(w, tradeItem, to);
      if inTrade {
        r := NotEnoughRoom;
        return;
      }
    }
    go := true;
    r := if item.kind.stackable && maxQueryCount < count then retMaxCount else NoError;
  }

  twostate lemma {:induction false} CountsUntouched(w: World)
    requires old(w.Wired()) && unchanged(w) && unchanged(w.items)
    ensures w.Wired()
    ensures forall k: Kind, c: Item {:trigger CountIn(w, k, c)} :: c in w.items ==>
              CountIn(w, k, c) == old(CountIn(w, k, c))
  {
  }

  /** Moves count of an item between two containers, which may be the same. taken is what left the
      source, and lost what did not arrive. */
  method InternalMoveItem(w: World, from: Item, toCylinder: Item, index0: int, item: Item, count: nat, flags: Flags,
                          tradeItem: Item?)
    returns (r: ReturnValue, moveItem: Item?, ghost to: Item, ghost taken: nat, ghost lost: nat)
    requires w.Valid() && StacksOk(w) && from in w.items && from.isContainer && item in w.items
    requires toCylinder in w.items && toCylinder.isContainer && index0 >= INDEX_WHEREEVER
    modifies w, w.items
    ensures w.Valid() && StacksOk(w) && old(w.items) <= w.items && to in old(w.items)
    ensures fresh(w.items - old(w.items))
    ensures forall k: Kind, c: Item {:trigger CountIn(w, k, c)} :: c in old(w.items) ==>
              CountIn(w, k, c) == old(CountIn(w, k, c))
                + (if k == old(item.kind) && c == to then taken - lost else 0)
                - (if k == old(item.kind) && c == from then taken else 0)
    ensures lost > 0 <==> old(Loses(w, from, toCylinder, index0, item, count, flags, tradeItem))
    ensures lost > 0 ==>
              to == toCylinder && taken == count
              && lost == count - (STACK_MAX - old(to.itemlist[FirstRoom(to.itemlist, item)].count))
    ensures !flags.noLimit ==> |to.itemlist| <= to.capacity || |to.itemlist| <= |old(to.itemlist)|
    ensures old(item.kind).stackable && taken > 0 ==> taken <= count && taken <= old(item.count)
    ensures old(item.kind).stackable && taken > 0 ==> r == if taken == count then NoError else ContainerNotEnoughRoom
    ensures !old(item.kind).stackable && taken > 0 ==> r == NoError && taken == old(item.count)
    ensures !old(item.kind).stackable && taken > 0 && lost == 0 ==> moveItem == item && MovedWhole(from, to, item)
    ensures taken == 0 ==> forall c :: c in old(w.items) ==> c.itemlist == old(c.itemlist)
    ensures taken > 0 ==> item in old(from.itemlist) && !old(w.Holds(item, to))
    ensures old(Movable(w, from, toCylinder, index0, item, count, flags, tradeItem)) ==>
              r == NoError && to == toCylinder && taken == (if old(item.kind).stackable then count else old(item.count))
    ensures old(Apart(index0, item, count, flags)) ==>
              && to == toCylinder && (r == NoError <==> old(Takes(w, from, toCylinder, item, count, tradeItem)))
              && if r == NoError then taken == count && Arrived(w, from, to, item)
                 else unchanged(w) && unchanged(old(w.items))
  {
    var go, dest, index, toItem, m, left;
    go, r, dest, index, toItem, m, left := PlanMove(w, from, toCylinder, index0, item, count, flags, tradeItem);
    to, taken, lost, moveItem := dest, 0, 0, null;
    CountsUntouched(w);
    if go {
      moveItem, taken, lost := Transfer(w, from, dest, index, toItem, item, m, left.noLimit);
    }
  }

  /**
   A container for one item holds a filler and, beyond its capacity, a stack of fifty. A hundred more of the same
   kind are moved there without limits: fifty of them are gone, and the answer is that all went well.
   */
  method FiftyLost(kind: Kind, filler: Kind) returns (w: World, from: Item, to: Item, r: ReturnValue)
    requires kind.stackable && kind.pickupable && kind.moveable && !filler.stackable
    ensures w.Valid() && from in w.items && to in w.items
    ensures r == NoError && CountIn(w, kind, from) == 0 && CountIn(w, kind, to) == 100
  {
    var item;
    w, from, to, item := Overfull(kind, filler);
    var moved;
    ghost var dest, taken, lost;
    CountOfOne(w, kind, from);
    CountOfTwo(w, kind, to);
    assert CountIn(w, kind, from) == 100 && CountIn(w, kind, to) == 50;
    assert FirstRoom(to.itemlist, item) == 1;
    r, moved, dest, taken, lost := InternalMoveItem(w, from, to, INDEX_WHEREEVER, item, 100, Flags(true, false), null);
  }

  method Overfull(kind: Kind, filler: Kind) returns (w: World, from: Item, to: Item, item: Item)
    requires kind.stackable && !filler.stackable
    ensures fresh(w) && fresh(w.items) && w.Valid() && StacksOk(w) && {from, to, item} <= w.items
    ensures from != to && from.isContainer && from.itemlist == [item] && item.kind == kind && item.count == 100
    ensures to.isContainer && to.unlocked && to.capacity == 1 && to.parent == null
    ensures |to.itemlist| == 2 && to.itemlist[0].kind == filler && to.itemlist[1].kind == kind
            && to.itemlist[1].count == 50
  {
    w, from, to := TwoBoxes(filler);
    item := NewIn(w, from, kind, 100);
    var stack := NewIn(w, to, kind, 50);
    var other := NewIn(w, to, filler, 1);
  }

  method TwoBoxes(filler: Kind) returns (w: World, from: Item, to: Item)
    requires !filler.stackable
    ensures fresh(w) && fresh(w.items) && w.Valid() && StacksOk(w) && {from, to} <= w.items && from != to
    ensures from.isContainer && from.itemlist == []
    ensures to.isContainer && to.itemlist == [] && to.unlocked && to.capacity == 1 && to.parent == null
  {
    w := new World();
    from := w.CreateItem(filler, 1, true, 1, true);
    to := w.CreateItem(filler, 1, true, 1, true);
  }

  /** A new item, put into a container whatever its capacity. */
  method NewIn(w: World, c: Item, kind: Kind, count: nat) returns (x: Item)
    requires w.Valid() && StacksOk(w) && c in w.items && c.isContainer && 1 <= count < 0x100
    requires kind.stackable ==> count <= STACK_MAX
    modifies w`items, w`rank, c`itemlist, w.items`totalWeight
    ensures w.Valid() && StacksOk(w) && fresh(x) && w.items == old(w.items) + {x}
    ensures x.kind == kind && x.count == count && x.parent == c && x.itemlist == [] && !x.isContainer
    ensures c.itemlist == [x] + old(c.itemlist)
  {
    x := w.CreateItem(kind, count, false, 0, true);
    EmptyHoldsNothing(w, x, c);
    w.InternalAddThing(c, x);
  }

  lemma {:induction false} CountOfOne(w: World, kind: Kind, c: Item)
    requires w.Wired() && c in w.items && |c.itemlist| == 1
    ensures CountIn(w, kind, c) == if c.itemlist[0].kind == kind then c.itemlist[0].count as int else 0
  {
    assert c.itemlist[0] in c.itemlist && c.itemlist[1..] == [];
    assert Total(Counts(w, kind), c.itemlist)
           == Counts(w, kind)[c.itemlist[0]] + Total(Counts(w, kind), c.itemlist[1..]);
  }

  lemma {:induction false} CountOfTwo(w: World, kind: Kind, c: Item)
    requires w.Wired() && c in w.items && |c.itemlist| == 2
    ensures CountIn(w, kind, c)
            == (if c.itemlist[0].kind == kind then c.itemlist[0].count as int else 0)
               + if c.itemlist[1].kind == kind then c.itemlist[1].count as int else 0
  {
    var counts, rest := Counts(w, kind), c.itemlist[1..];
    assert c.itemlist[0] in c.itemlist && c.itemlist[1] in c.itemlist;
    assert rest[0] == c.itemlist[1] && rest[1..] == [];
    assert Total(counts, rest) == counts[rest[0]] + Total(counts, rest[1..]);
    assert Total(counts, c.itemlist) == counts[c.itemlist[0]] + Total(counts, rest);
  }

  // ----- Game::internalAddItem

  ghost function Stacks(s: seq<Item>): (st: seq<(Kind, nat)>)
    reads s
    ensures |st| == |s| && forall i :: 0 <= i < |s| ==> st[i] == (s[i].kind, s[i].count)
  {
    if s == [] then [] else [(s[0].kind, s[0].count)] + Stacks(s[1..])
  }

  /** Room in stacks with the given kinds and counts. */
  ghost function RoomOf(st: seq<(Kind, nat)>, kind: Kind): nat {
    if st == [] then 0
    else (if st[0].0 == kind && st[0].1 < STACK_MAX then STACK_MAX - st[0].1 else 0) + RoomOf(st[1..], kind)
  }

  lemma {:induction false} RoomIsRoomOf(s: seq<Item>, st: seq<(Kind, nat)>, item: Item)
    requires item !in s && st == Stacks(s)
    ensures RoomIn(s, item) == RoomOf(st, item.kind)
    decreases |s|
  {
    if s != [] {
      RoomIsRoomOf(s[1..], Stacks(s[1..]), item);
      assert st[1..] == Stacks(s[1..]);
    }
  }

  /** Merging into one stack of the list takes that much of the room there was. */
  lemma {:induction false} RoomMerged(s: seq<Item>, st: seq<(Kind, nat)>, toItem: Item, n: nat, rest: Item)
    requires NoDuplicates(s) && rest !in s && |st| == |s|
    requires forall i :: 0 <= i < |s| ==>
               s[i].kind == st[i].0 && s[i].count == st[i].1 + if s[i] == toItem then n else 0
    requires toItem in s ==> toItem.kind == rest.kind && toItem.count <= STACK_MAX
    ensures RoomIn(s, rest) == RoomOf(st, rest.kind) - if toItem in s then n else 0
    decreases |s|
  {
    if s != [] {
      RoomMerged(s[1..], st[1..], toItem, n, rest);
      assert s[0] == toItem ==> toItem !in s[1..];
    }
  }

  /** All of the item fits: free slots count as stacks of a hundred. */
  ghost predicate Fits(w: World, c: Item, item: Item)
    requires w.Wired() && w.Ranked() && c in w.items
    reads w, w.items, item, c.itemlist
  {
    if item.kind.stackable
    then item.count <= FreeSlots(c) * STACK_MAX
                       + if w.QueryAddResult(c, 0, item, false) == NoError then RoomIn(c.itemlist, item) else 0
    else FreeSlots(c) > 0
  }

  /** Whether internalAddItem accepts. All must fit where it was asked, even if it goes elsewhere. */
  ghost predicate Accepts(w: World, c: Item, index: int, item: Item, flags: Flags)
    requires w.Wired() && w.Ranked() && c in w.items
    reads w, w.items, item, c.itemlist
  {
    var to := AskedIn(c, index);
    assert c.parent != null ==> c.parent in w.items;
    assert Redirects(c, index) && index != 254 ==> c.itemlist[index] in c.itemlist;
    && w.QueryAddResult(to, 0, item, false) == NoError
    && (flags.noLimit
        || (Fits(w, c, item)
            && (SlotAsked(c, index) == INDEX_WHEREEVER || to != c ==>
                  AutoStacks(c, index, item, flags.ignoreAutoStack) || FreeSlots(to) > 0)))
  }

  /** The same with no slot asked for. */
  ghost predicate Addable(w: World, to: Item, item: Item, flags: Flags)
    requires w.Wired() && w.Ranked() && to in w.items
    reads w, w.items, item, to.itemlist
  {
    && w.QueryAddResult(to, 0, item, false) == NoError
    && (flags.noLimit
        || if item.kind.stackable
           then item.count <= FreeSlots(to) * STACK_MAX + RoomIn(to.itemlist, item)
                && (flags.ignoreAutoStack || item.parent == to ==> FreeSlots(to) > 0)
           else FreeSlots(to) > 0)
  }

  lemma {:induction false} AddableIsAccepted(w: World, to: Item, item: Item, flags: Flags)
    requires w.Wired() && w.Ranked() && StacksOk(w) && to in w.items && item in w.items
    ensures Addable(w, to, item, flags) <==> Accepts(w, to, INDEX_WHEREEVER, item, flags)
  {
  }

  /** internalAddItem with the test flag, which asks and changes nothing; the item may still lie somewhere. */
  method TestAddItem(w: World, to: Item, item: Item, flags: Flags) returns (r: ReturnValue)
    requires w.Valid() && StacksOk(w) && to in w.items && to.isContainer && item in w.items
    ensures r == NoError <==> Addable(w, to, item, flags)
  {
    var dest, index, toItem, m;
    r, dest, index, toItem, m := PlanAdd(w, to, INDEX_WHEREEVER, item, flags);
    AddableIsAccepted(w, to, item, flags);
  }

  /** A slot of a full container is asked for, and stacks with room elsewhere do not come into it. */
  ghost predicate Squeezed(w: World, c: Item, index: int, item: Item, flags: Flags)
    requires w.Wired() && w.Ranked() && c in w.items
    reads w, w.items, item, c.itemlist
  {
    && Accepts(w, c, index, item, flags) && !flags.noLimit && flags.ignoreAutoStack && item.kind.stackable
    && AskedIn(c, index) == c && SlotAsked(c, index) >= 0 && FreeSlots(c) == 0
  }

  /** The item that lies there takes up part of a stack, and the rest has no place. */
  ghost predicate LosesRest(w: World, c: Item, index: int, item: Item, flags: Flags)
    requires w.Wired() && w.Ranked() && c in w.items
    reads w, w.items, item, c.itemlist
  {
    && Squeezed(w, c, index, item, flags) && HasRoom(c.itemlist[index], item)
    && item.count > STACK_MAX - c.itemlist[index].count
  }

  /** The item that lies there takes up nothing, and the stack is put beside all the others. */
  ghost predicate Overfills(w: World, c: Item, index: int, item: Item, flags: Flags)
    requires w.Wired() && w.Ranked() && c in w.items
    reads w, w.items, item, c.itemlist
  {
    Squeezed(w, c, index, item, flags) && !HasRoom(c.itemlist[index], item)
  }

  /** The item is put onto another stack. */
  predicate Onto(item: Item, toItem: Item?)
    reads item, toItem
  {
    toItem != null && item.kind.stackable && toItem.kind == item.kind
  }

  /** Where the item goes, as queryDestination answers. */
  ghost predicate Directed(w: World, c: Item, index0: int, item: Item, flags: Flags, dest: Item, index: int,
                           toItem: Item?)
    requires w.Wired() && c in w.items
    reads w, w.items, item, c.itemlist
  {
    assert c.parent != null ==> c.parent in w.items;
    assert Redirects(c, index0) && index0 != 254 ==> c.itemlist[index0] in c.itemlist;
    && dest == AskedIn(c, index0) && dest in w.items && dest.isContainer
    && if AutoStacks(c, index0, item, flags.ignoreAutoStack)
       then dest == c && index == FirstRoom(c.itemlist, item) && toItem == c.itemlist[index]
       else if dest == c then index == SlotAsked(c, index0) && toItem == ItemAt(c, index)
       else index == INDEX_WHEREEVER && toItem == null
  }

  /** What becomes of an item that is accepted depends on the stack it is put onto, if there is one. */
  lemma {:induction false} OntoOrBeside(w: World, c: Item, index0: int, item: Item, flags: Flags,
                                        dest: Item, index: int, toItem: Item?)
    requires w.Valid() && StacksOk(w) && c in w.items && item in w.items && item.parent == null
    requires index0 >= INDEX_WHEREEVER
    requires Accepts(w, c, index0, item, flags) && Directed(w, c, index0, item, flags, dest, index, toItem)
    ensures var tight := !flags.noLimit && FreeSlots(dest) == 0;
            if Onto(item, toItem) then
              && dest == c && toItem in c.itemlist && toItem.count <= STACK_MAX && (flags.noLimit || Fits(w, c, item))
              && (toItem.count == STACK_MAX ==> index < c.capacity && (tight ==> flags.ignoreAutoStack))
              && (LosesRest(w, c, index0, item, flags) <==>
                    tight && flags.ignoreAutoStack && 0 < STACK_MAX - toItem.count < item.count)
              && (LosesRest(w, c, index0, item, flags) ==> toItem == c.itemlist[index0])
              && (Overfills(w, c, index0, item, flags) <==>
                    tight && flags.ignoreAutoStack && toItem.count == STACK_MAX)
            else
              index < dest.capacity && !LosesRest(w, c, index0, item, flags)
              && (Overfills(w, c, index0, item, flags) <==> tight)
  {
    assert toItem != null ==> toItem in dest.itemlist;
    assert AskedIn(c, index0) == c && SlotAsked(c, index0) >= 0 && FreeSlots(c) == 0 ==>
        c.itemlist[index0] in c.itemlist;
    if !flags.noLimit && FreeSlots(dest) == 0 {
      assert dest == c;
      assert item.kind.stackable;
      assert AutoStacks(c, index0, item, flags.ignoreAutoStack) || SlotAsked(c, index0) >= 0;
      assert AutoStacks(c, index0, item, flags.ignoreAutoStack) || flags.ignoreAutoStack;
    }
  }

  /**
   Adds a loose item: stacks of its kind are filled one after the other, and the rest gets a slot. lost is what is
   released because it has no place.
   */
  method InternalAddItem(w: World, toCylinder: Item, index0: int, item: Item, flags: Flags, test: bool)
    returns (r: ReturnValue, ghost to: Item, ghost lost: nat)
    requires w.Valid() && StacksOk(w) && toCylinder in w.items && toCylinder.isContainer
    requires item in w.items && item.parent == null && index0 >= INDEX_WHEREEVER
    modifies w, w.items
    ensures w.Valid() && StacksOk(w) && old(w.items) <= w.items && to == old(AskedIn(toCylinder, index0))
    ensures r == NoError <==> old(Accepts(w, toCylinder, index0, item, flags))
    ensures forall k: Kind, c: Item {:trigger CountIn(w, k, c)} :: c in old(w.items) ==>
              CountIn(w, k, c) == old(CountIn(w, k, c))
                + if r == NoError && !test && k == old(item.kind) && c == to then old(item.count) - lost else 0
    ensures lost > 0 <==> !test && old(LosesRest(w, toCylinder, index0, item, flags))
    ensures lost > 0 ==> lost == old(item.count) - (STACK_MAX - old(toCylinder.itemlist[index0].count))
    ensures !flags.noLimit ==>
              (|to.itemlist| > to.capacity && |to.itemlist| > |old(to.itemlist)| <==>
               !test && old(Overfills(w, toCylinder, index0, item, flags)))
    ensures r == NoError && !test && !old(item.kind).stackable ==>
              to.itemlist == [item] + old(to.itemlist) && item.parent == to
    decreases item.count, 3
  {
    var dest, index, toItem, m;
    r, dest, index, toItem, m := PlanAdd(w, toCylinder, index0, item, flags);
    to, lost := dest, 0;
    if r != NoError || test {
      return;
    }
    OntoOrBeside(w, toCylinder, index0, item, flags, dest, index, toItem);
    lost := AddAt(w, dest, index, toItem, item, m, flags);
  }

  /** The changing half of internalAddItem. */
  method AddAt(w: World, to: Item, index: int, toItem: Item?, item: Item, m: nat, flags: Flags)
    returns (ghost lost: nat)
    requires w.Valid() && StacksOk(w) && to in w.items && to.isContainer && item in w.items && item.parent == null
    requires w.QueryAddResult(to, 0, item, false) == NoError && (item.kind.stackable ==> m == item.count)
    requires if Onto(item, toItem) then
               && toItem in to.itemlist && toItem.count <= STACK_MAX && (flags.noLimit || Fits(w, to, item))
               && (toItem.count == STACK_MAX ==>
                     index < to.capacity && (flags.noLimit || flags.ignoreAutoStack || FreeSlots(to) > 0))
             else index < to.capacity
    modifies w, w.items
    ensures w.Valid() && StacksOk(w) && old(w.items) <= w.items
    ensures forall k: Kind, c: Item {:trigger CountIn(w, k, c)} :: c in old(w.items) ==>
              CountIn(w, k, c) == old(CountIn(w, k, c))
                + if k == old(item.kind) && c == to then old(item.count) - lost else 0
    ensures lost == if old(Onto(item, toItem)) && !flags.noLimit && flags.ignoreAutoStack && old(FreeSlots(to)) == 0
                       && 0 < STACK_MAX - old(toItem.count) < old(item.count)
                    then old(item.count) - (STACK_MAX - old(toItem.count)) else 0
    ensures !flags.noLimit ==>
              (|to.itemlist| > to.capacity && |to.itemlist| > |old(to.itemlist)| <==>
               old(FreeSlots(to)) == 0 && (old(Onto(item, toItem)) ==> old(toItem.count) == STACK_MAX))
    ensures !old(item.kind).stackable ==> to.itemlist == [item] + old(to.itemlist) && item.parent == to
    decreases item.count, 2
  {
    lost := 0;
    if toItem != null && item.kind.stackable && toItem.kind == item.kind {
      lost := AddOnto(w, to, index, toItem, item, m, flags);
    } else {
      PutInto(w, to, index, item);
    }
  }

  /** The querying half of internalAddItem. */
  method PlanAdd(w: World, c: Item, index0: int, item: Item, flags: Flags)
    returns (r: ReturnValue, dest: Item, index: int, toItem: Item?, m: nat)
    requires w.Valid() && StacksOk(w) && c in w.items && c.isContainer && item in w.items && index0 >= INDEX_WHEREEVER
    ensures r == NoError <==> Accepts(w, c, index0, item, flags)
    ensures dest == AskedIn(c, index0) && (r == NoError ==> Directed(w, c, index0, item, flags, dest, index, toItem))
    ensures r == NoError && item.kind.stackable ==> m == item.count
  {
    dest, index, toItem := QueryDestination(w, c, index0, item, flags.ignoreAutoStack);
    r, m := AskRoom(w, c, dest, index, item, flags.noLimit);
  }

  /** Whether the destination takes the item, and whether all of it fits where it was asked. */
  method AskRoom(w: World, c: Item, dest: Item, index: int, item: Item, noLimit: bool) returns (r: ReturnValue, m: nat)
    requires w.Valid() && StacksOk(w) && {c, dest, item} <= w.items
    ensures r == NoError <==>
              w.QueryAddResult(dest, index, item, noLimit) == NoError && (noLimit || Fits(w, c, item))
    ensures r == NoError && item.kind.stackable ==> m == item.count
  {
    m := 0;
    r := w.QueryAdd(dest, index, item, noLimit);
    if r != NoError {
      return;
    }
    var maxQueryCount;
    r, maxQueryCount := QueryMaxCount(w, c, INDEX_WHEREEVER, item, item.count, noLimit);
    m := if item.count < maxQueryCount then item.count else maxQueryCount;
  }

  /**
   Tops up one stack and adds a clone with what is left, which is strictly less, or the item itself if nothing
   fits.
   */
  method AddOnto(w: World, to: Item, index: int, toItem: Item, item: Item, m: nat, flags: Flags)
    returns (ghost lost: nat)
    requires w.Valid() && StacksOk(w) && to in w.items && to.isContainer && item in w.items && item.parent == null
    requires w.QueryAddResult(to, 0, item, false) == NoError && (flags.noLimit || Fits(w, to, item)) && m == item.count
    requires toItem in to.itemlist && item.kind.stackable && toItem.kind == item.kind && toItem.count <= STACK_MAX
    requires toItem.count == STACK_MAX ==> index < to.capacity
    requires !flags.ignoreAutoStack && toItem.count == STACK_MAX ==> flags.noLimit || FreeSlots(to) > 0
    modifies w, w.items
    ensures w.Valid() && StacksOk(w) && old(w.items) <= w.items
    ensures forall k: Kind, c: Item {:trigger CountIn(w, k, c)} :: c in old(w.items) ==>
              CountIn(w, k, c) == old(CountIn(w, k, c))
                + if k == old(item.kind) && c == to then old(item.count) - lost else 0
    ensures lost == if !flags.noLimit && flags.ignoreAutoStack && old(FreeSlots(to)) == 0
                       && 0 < STACK_MAX - old(toItem.count) < old(item.count)
                    then old(item.count) - (STACK_MAX - old(toItem.count)) else 0
    ensures !flags.noLimit ==>
              (|to.itemlist| > to.capacity && |to.itemlist| > |old(to.itemlist)| <==>
               flags.ignoreAutoStack && old(FreeSlots(to)) == 0 && old(toItem.count) == STACK_MAX)
    decreases item.count, 1
  {
    var n := if m < STACK_MAX - toItem.count then m else STACK_MAX - toItem.count;
    TopUp(w, to, toItem, item, n);
    lost := AddWhatIsLeft(w, to, index, item, m - n, flags);
  }

  /** updateThing with so many of the item more, which takes that much of the room there was. */
  method TopUp(w: World, to: Item, toItem: Item, item: Item, n: nat)
    requires w.Valid() && StacksOk(w) && to in w.items && to.isContainer && item in w.items && item.parent == null
    requires toItem in to.itemlist && item.kind.stackable && toItem.kind == item.kind && toItem.count + n <= STACK_MAX
    modifies toItem`kind, toItem`count, w.items`totalWeight
    ensures w.Valid() && StacksOk(w) && toItem != item
    ensures RoomOf(Stacks(to.itemlist), item.kind) == old(RoomIn(to.itemlist, item)) - n
    ensures forall k: Kind, c: Item {:trigger CountIn(w, k, c)} :: c in w.items ==>
              CountIn(w, k, c) == old(CountIn(w, k, c)) + if c == to && k == item.kind then n else 0
  {
    assert item !in to.itemlist;
    ghost var st := Stacks(to.itemlist);
    RoomIsRoomOf(to.itemlist, st, item);
    MergeInto(w, to, toItem, n);
    RoomMerged(to.itemlist, st, toItem, n, item);
    RoomIsRoomOf(to.itemlist, Stacks(to.itemlist), item);
  }

  method AddWhatIsLeft(w: World, to: Item, index: int, item: Item, count: nat, flags: Flags) returns (ghost lost: nat)
    requires w.Valid() && StacksOk(w) && to in w.items && to.isContainer && item in w.items && item.parent == null
    requires w.QueryAddResult(to, 0, item, false) == NoError && item.kind.stackable && count <= item.count
    requires flags.noLimit || count <= FreeSlots(to) * STACK_MAX + RoomOf(Stacks(to.itemlist), item.kind)
    requires count == item.count ==> index < to.capacity
    modifies w, w.items
    ensures w.Valid() && StacksOk(w) && old(w.items) <= w.items
    ensures forall k: Kind, c: Item {:trigger CountIn(w, k, c)} :: c in old(w.items) ==>
              CountIn(w, k, c) == old(CountIn(w, k, c)) + if k == old(item.kind) && c == to then count - lost else 0
    ensures lost == if !flags.noLimit && flags.ignoreAutoStack && old(FreeSlots(to)) == 0 && count < old(item.count)
                    then count else 0
    ensures !flags.noLimit ==>
              (|to.itemlist| > to.capacity && |to.itemlist| > |old(to.itemlist)| <==>
               old(FreeSlots(to)) == 0 && count == old(item.count))
    decreases item.count, 0
  {
    lost := 0;
    if count > 0 {
      if item.count != count {
        lost := AddClone(w, to, item.kind, count, flags);
      } else {
        PutInto(w, to, index, item);
      }
    }
  }

  /** clone, setItemCount and internalAddItem without a slot; a clone that finds no place is released. */
  method AddClone(w: World, to: Item, kind: Kind, count: nat, flags: Flags) returns (ghost lost: nat)
    requires w.Valid() && StacksOk(w) && to in w.items && to.isContainer && to.unlocked
    requires kind.stackable && kind.pickupable && 1 <= count <= STACK_MAX
    requires flags.noLimit || count <= FreeSlots(to) * STACK_MAX + RoomOf(Stacks(to.itemlist), kind)
    modifies w, w.items
    ensures w.Valid() && StacksOk(w) && old(w.items) <= w.items
    ensures forall k: Kind, c: Item {:trigger CountIn(w, k, c)} :: c in old(w.items) ==>
              CountIn(w, k, c) == old(CountIn(w, k, c)) + if k == kind && c == to then count - lost else 0
    ensures lost == if !flags.noLimit && flags.ignoreAutoStack && old(FreeSlots(to)) == 0 then count else 0
    ensures !flags.noLimit ==> |to.itemlist| <= to.capacity || |to.itemlist| <= |old(to.itemlist)|
    decreases count, 4
  {
    var remainderItem := NewStack(w, kind, count);
    assert remainderItem !in to.itemlist;
    RoomIsRoomOf(to.itemlist, Stacks(to.itemlist), remainderItem);
    AddableIsAccepted(w, to, remainderItem, flags);
    var r;
    ghost var dest, none;
    r, dest, none := InternalAddItem(w, to, INDEX_WHEREEVER, remainderItem, flags, false);
    lost := if r != NoError then count else 0;
  }

  /**
   Sixty coins for the slot of a stack of ninety in a full bag: they would fit with the other stack, but fifty
   are gone.
   */
  method RestLost(gold: Kind, bagKind: Kind) returns (r: ReturnValue, ghost lost: nat)
    requires gold.stackable && gold.pickupable && !bagKind.stackable
    ensures r == NoError && lost == 50
  {
    var w, bag := FilledBag(gold, bagKind, gold, 90);
    var item := NewStack(w, gold, 60);
    RoomOfTwo(bag.itemlist, item);
    ghost var to;
    r, to, lost := InternalAddItem(w, bag, 0, item, Flags(false, true), false);
  }

  /**
   Fifty coins for the slot of something else in the same bag: they would fit onto a stack, but are a third
   item for two slots.
   */
  method OneTooMany(gold: Kind, bagKind: Kind) returns (r: ReturnValue, bag: Item)
    requires gold.stackable && gold.pickupable && !bagKind.stackable
    ensures r == NoError && |bag.itemlist| > bag.capacity == 2
  {
    var w;
    w, bag := FilledBag(gold, bagKind, bagKind, 1);
    var item := NewStack(w, gold, 50);
    RoomOfTwo(bag.itemlist, item);
    ghost var to, lost;
    r, to, lost := InternalAddItem(w, bag, 0, item, Flags(false, true), false);
  }

  /** A bag with two slots that holds one thing and fifty coins. */
  method FilledBag(gold: Kind, bagKind: Kind, kind: Kind, count: nat) returns (w: World, bag: Item)
    requires gold.stackable && !bagKind.stackable && 1 <= count <= STACK_MAX
    ensures fresh(w) && fresh(w.items) && w.Valid() && StacksOk(w) && bag in w.items
    ensures bag.isContainer && bag.unlocked && bag.capacity == 2 && |bag.itemlist| == 2
    ensures bag.itemlist[0].kind == kind && bag.itemlist[0].count == count && !bag.itemlist[0].isContainer
    ensures bag.itemlist[1].kind == gold && bag.itemlist[1].count == 50
  {
    w := new World();
    bag := w.CreateItem(bagKind, 1, true, 2, true);
    var coins := NewIn(w, bag, gold, 50);
    var first := NewIn(w, bag, kind, count);
  }

  lemma {:induction false} RoomOfTwo(s: seq<Item>, item: Item)
    requires |s| == 2
    ensures RoomIn(s, item) == (if HasRoom(s[0], item) then STACK_MAX - s[0].count else 0)
                               + if HasRoom(s[1], item) then STACK_MAX - s[1].count else 0
  {
    var rest := s[1..];
    assert rest[0] == s[1] && rest[1..] == [];
    assert RoomIn(rest, item) == (if HasRoom(s[1], item) then STACK_MAX - s[1].count else 0) + RoomIn(rest[1..], item);
  }
}
