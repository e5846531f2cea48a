/**
 Containers and items as linked objects: each item points to its parent, each container lists its
 items and caches their total weight, and every change climbs the parents with a difference.
 */
module ItemTree {

  // weights are unsigned 32-bit numbers
  const WRAP := 0x1_0000_0000
  const INDEX_WHEREEVER := -1

  function Add(a: int, b: int): (r: nat)
    ensures r < WRAP
  {
    (a + b) % WRAP
  }

  lemma {:induction false} AddAssoc(a: int, b: int, c: int)
    ensures Add(Add(a, b), c) == Add(a, b + c) == Add(a + b, c)
  {
  }

  lemma {:induction false} AddInside(own: int, total: int, diff: int)
    ensures Add(own, Add(total, diff)) == Add(Add(own, total), diff)
  {
    AddAssoc(own, total, diff);
    AddAssoc(total, diff, own);
  }

  datatype ReturnValue =
    | NoError | NotPossible | CannotPickup | NotMoveable | ThisIsImpossible | ContainerNotEnoughRoom | NotEnoughRoom

  /** Item type and attributes: items with the same kind are equal to Item::equals. */
  datatype Kind = Kind(id: int, attributes: seq<int>, stackable: bool, weight: nat, pickupable: bool, moveable: bool)

  class Item {
    const isContainer: bool
    const capacity: nat
    const unlocked: bool
    var kind: Kind
    var count: nat
    var parent: Item?
    var itemlist: seq<Item>
    var totalWeight: nat

    constructor (kind: Kind, count: nat, isContainer: bool, capacity: nat, unlocked: bool)
      ensures this.kind == kind && this.count == count && this.isContainer == isContainer
      ensures this.capacity == capacity && this.unlocked == unlocked
      ensures parent == null && itemlist == [] && totalWeight == 0
    {
      this.kind, this.count, this.isContainer, this.capacity, this.unlocked :=
        kind, count, isContainer, capacity, unlocked;
      parent, itemlist, totalWeight := null, [], 0;
    }

    function OwnWeight(): nat
      reads this`kind, this`count
    {
      if kind.stackable then (kind.weight * if count == 0 then 1 else count) % WRAP else kind.weight % WRAP
    }

    function GetWeight(): (w: int)
      reads this`kind, this`count, this`totalWeight
      ensures 0 <= w < WRAP
    {
      if isContainer then Add(OwnWeight(), totalWeight) else OwnWeight()
    }
  }

  ghost predicate NoDuplicates(s: seq<Item>) {
    forall i, j :: 0 <= i < j < |s| ==> s[i] != s[j]
  }

  ghost function Weights(items: set<Item>): (w: map<Item, int>)
    reads items`kind, items`count, items`totalWeight
    ensures w.Keys == items
  {
    map x | x in items :: x.GetWeight()
  }

  ghost function Total(w: map<Item, int>, s: seq<Item>): int
    requires forall x :: x in s ==> x in w
  {
    if s == [] then 0 else w[s[0]] + Total(w, s[1..])
  }

  lemma {:induction false} TotalUpdate(w: map<Item, int>, s: seq<Item>, c: Item, v: int)
    requires c in w && NoDuplicates(s) && forall x :: x in s ==> x in w
    ensures Total(w[c := v], s) == Total(w, s) + if c in s then v - w[c] else 0
    decreases |s|
  {
    if s != [] {
      TotalUpdate(w, s[1..], c, v);
      assert s[0] == c ==> c !in s[1..];
    }
  }

  lemma {:induction false} TotalReplace(w: map<Item, int>, s: seq<Item>, k: nat, y: Item)
    requires k < |s| && y in w && forall x :: x in s ==> x in w
    ensures Total(w, s[k := y]) == Total(w, s) + w[y] - w[s[k]]
    decreases k
  {
    if k == 0 {
      assert s[k := y][1..] == s[1..];
    } else {
      assert s[k := y][1..] == s[1..][k - 1 := y];
      TotalReplace(w, s[1..], k - 1, y);
    }
  }

  lemma {:induction false} TotalRemove(w: map<Item, int>, s: seq<Item>, k: nat)
    requires k < |s| && forall x :: x in s ==> x in w
    ensures Total(w, Without(s, k)) == Total(w, s) - w[s[k]]
    decreases k
  {
    if k == 0 {
      assert Without(s, k) == s[1..];
    } else {
      assert Without(s, k)[0] == s[0] && Without(s, k)[1..] == Without(s[1..], k - 1);
      TotalRemove(w, s[1..], k - 1);
    }
  }

  lemma {:induction false} TotalAppend(w: map<Item, int>, s: seq<Item>, y: Item)
    requires y in w && forall x :: x in s ==> x in w
    ensures Total(w, s + [y]) == Total(w, s) + w[y]
    decreases |s|
  {
    if s != [] {
      assert (s + [y])[0] == s[0] && (s + [y])[1..] == s[1..] + [y];
      TotalAppend(w, s[1..], y);
    } else {
      assert (s + [y])[1..] == [];
    }
  }

  lemma {:induction false} TotalSame(w: map<Item, int>, v: map<Item, int>, s: seq<Item>)
    requires forall x :: x in s ==> x in w && x in v && w[x] == v[x]
    ensures Total(w, s) == Total(v, s)
    decreases |s|
  {
    if s != [] {
      TotalSame(w, v, s[1..]);
    }
  }

  ghost function Sum(w: map<Item, int>, s: seq<Item>): (r: nat)
    requires forall x :: x in s ==> x in w
    ensures r < WRAP
  {
    Total(w, s) % WRAP
  }

  lemma {:induction false} SumUpdate(w: map<Item, int>, s: seq<Item>, c: Item, diff: int)
    requires c in w && NoDuplicates(s) && forall x :: x in s ==> x in w
    ensures Sum(w[c := Add(w[c], diff)], s) == if c in s then Add(Sum(w, s), diff) else Sum(w, s)
  {
    TotalUpdate(w, s, c, Add(w[c], diff));
    if c in s {
      var rest := Total(w, s) - w[c];
      AddAssoc(w[c], diff, rest);
      AddAssoc(Total(w, s), diff, 0);
      assert Add(Add(w[c], diff), rest) == Add(w[c] + rest, diff);
    }
  }

  lemma {:induction false} SumReplace(w: map<Item, int>, s: seq<Item>, k: nat, y: Item)
    requires k < |s| && y in w && forall x :: x in s ==> x in w
    ensures Sum(w, s[k := y]) == Add(Sum(w, s), w[y] - w[s[k]])
  {
    TotalReplace(w, s, k, y);
    AddAssoc(Total(w, s), 0, w[y] - w[s[k]]);
  }

  lemma {:induction false} SumRemove(w: map<Item, int>, s: seq<Item>, k: nat)
    requires k < |s| && forall x :: x in s ==> x in w
    ensures Sum(w, Without(s, k)) == Add(Sum(w, s), -w[s[k]])
  {
    TotalRemove(w, s, k);
    AddAssoc(Total(w, s), 0, -w[s[k]]);
  }

  lemma {:induction false} SumAppend(w: map<Item, int>, s: seq<Item>, y: Item)
    requires y in w && forall x :: x in s ==> x in w
    ensures Sum(w, s + [y]) == Add(Sum(w, s), w[y])
  {
    TotalAppend(w, s, y);
    AddAssoc(Total(w, s), 0, w[y]);
  }

  lemma {:induction false} SumPrepend(w: map<Item, int>, s: seq<Item>, y: Item)
    requires y in w && forall x :: x in s ==> x in w
    ensures Sum(w, [y] + s) == Add(Sum(w, s), w[y])
  {
    assert ([y] + s)[1..] == s;
    AddAssoc(Total(w, s), 0, w[y]);
  }

  ghost function IndexOf(s: seq<Item>, x: Item): (k: nat)
    requires x in s
    ensures k < |s| && s[k] == x && x !in s[..k]
  {
    if s[0] == x then 0 else 1 + IndexOf(s[1..], x)
  }

  lemma {:induction false} FirstIndex(s: seq<Item>, x: Item, k: nat)
    requires k < |s| && s[k] == x && forall j :: 0 <= j < k ==> s[j] != x
    ensures IndexOf(s, x) == k
  {
    var i := IndexOf(s, x);
    forall j | 0 <= j < i ensures s[j] != x {
      assert s[..i][j] == s[j];
    }
  }

  function Without(s: seq<Item>, k: nat): seq<Item>
    requires k < |s|
  {
    s[..k] + s[k + 1..]
  }

  lemma {:induction false} WithoutElements(s: seq<Item>, k: nat)
    requires k < |s| && NoDuplicates(s)
    ensures NoDuplicates(Without(s, k))
    ensures forall x :: x in Without(s, k) <==> x in s && x != s[k]
  {
    forall x | x in s && x != s[k] ensures x in Without(s, k) {
      var j :| 0 <= j < |s| && s[j] == x;
      assert Without(s, k)[if j < k then j else j - 1] == x;
    }
  }

  lemma {:induction false} ReplacedElements(s: seq<Item>, k: nat, y: Item)
    requires k < |s| && NoDuplicates(s) && y !in s
    ensures NoDuplicates(s[k := y])
    ensures forall x :: x in s[k := y] <==> x == y || (x in s && x != s[k])
  {
    forall x | x == y || (x in s && x != s[k]) ensures x in s[k := y] {
      if x == y {
        assert s[k := y][k] == y;
      } else {
        var j :| 0 <= j < |s| && s[j] == x;
        assert s[k := y][j] == x;
      }
    }
  }

  /** The items of one game world. */
  class World {
    ghost var items: set<Item>
    ghost var rank: map<Item, nat>

    ghost predicate Wired()
      reads this`items, items`parent, items`itemlist
    {
      && (forall x {:trigger x.parent} :: x in items && x.parent != null ==>
            x.parent in items && x.parent.isContainer && x in x.parent.itemlist)
      && (forall c, x {:trigger x in c.itemlist} :: c in items && x in c.itemlist ==> x in items && x.parent == c)
      && (forall c {:trigger c.itemlist} :: c in items ==>
          NoDuplicates(c.itemlist) && (!c.isContainer ==> c.itemlist == []))
    }

    /** Parents are strictly above their items: there is no cycle. */
    ghost predicate Ranked()
      reads this`items, this`rank, items`parent
    {
      && items <= rank.Keys
      && forall x {:trigger x.parent} :: x in items && x.parent != null && x.parent in items ==>
        rank[x.parent] < rank[x]
    }

    /** The cached weight of every container but p is right; that of p is short by diff. */
    ghost predicate BalancedBut(p: Item?, diff: int)
      requires Wired()
      reads this`items, items`parent, items`itemlist, items`kind, items`count, items`totalWeight
    {
      forall c {:trigger Sum(Weights(items), c.itemlist)} :: c in items ==>
        Sum(Weights(items), c.itemlist) == if c == p then Add(c.totalWeight, diff) else c.totalWeight
    }

    ghost predicate Valid()
      reads this`items, this`rank, items`parent, items`itemlist, items`kind, items`count, items`totalWeight
    {
      Wired() && Ranked() && BalancedBut(null, 0)
    }

    constructor ()
      ensures Valid() && items == {}
    {
      items, rank := {}, map[];
    }

    /** A new loose item. */
    method CreateItem(kind: Kind, count: nat, isContainer: bool, capacity: nat, unlocked: bool) returns (x: Item)
      requires Valid()
      modifies this`items, this`rank
      ensures Valid() && fresh(x) && items == old(items) + {x}
      ensures x.kind == kind && x.count == count && x.isContainer == isContainer && x.capacity == capacity
      ensures x.unlocked == unlocked && x.parent == null && x.itemlist == []
    {
      x := new Item(kind, count, isContainer, capacity, unlocked);
      ghost var w := Weights(items);
      items, rank := items + {x}, rank[x := 0];
      forall c | c in items
        ensures Sum(Weights(items), c.itemlist) == c.totalWeight
      {
        if c != x {
          assert Sum(w, c.itemlist) == c.totalWeight;
          TotalSame(w, Weights(items), c.itemlist);
          AddAssoc(c.totalWeight, 0, 0);
        }
      }
    }

    /** a is x or holds x at some depth. */
    ghost predicate Holds(a: Item, x: Item)
      requires Wired() && Ranked() && x in items
      reads this, items`parent, items`itemlist
      decreases rank[x]
    {
      a == x || (x.parent != null && Holds(a, x.parent))
    }

    /** One step of the climb: the difference moves from c to its parent. */
    method Adjust(c: Item, diff: int)
      requires Wired() && Ranked() && c in items && c.isContainer && BalancedBut(c, diff)
      modifies c`totalWeight
      ensures Wired() && Ranked() && BalancedBut(c.parent, diff)
    {
      ghost var before := Weights(items);
      c.totalWeight := Add(c.totalWeight, diff);
      AddInside(c.OwnWeight(), old(c.totalWeight), diff);
      assert Weights(items) == before[c := Add(before[c], diff)];
      forall x | x in items
        ensures Sum(Weights(items), x.itemlist) == if x == c.parent then Add(x.totalWeight, diff) else x.totalWeight
      {
        assert Sum(before, x.itemlist) == x.totalWeight;
        SumUpdate(before, x.itemlist, c, diff);
        assert c in x.itemlist <==> x == c.parent;
      }
    }

    method UpdateItemWeight(c: Item, diff: int)
      requires Wired() && Ranked() && c in items && c.isContainer && BalancedBut(c, diff)
      modifies items`totalWeight
      ensures Valid()
      decreases rank[c]
    {
      Adjust(c, diff);
      if c.parent != null {
        UpdateItemWeight(c.parent, diff);
      }
    }

    /** The ranks after item, with all it holds, has been put under c. */
    ghost function RanksUnder(item: Item, c: Item): map<Item, nat>
      requires Wired() && Ranked() && item in items && c in items
      reads this, items
    {
      map x | x in items :: if Holds(item, x) then rank[x] + rank[c] + 1 else rank[x]
    }

    lemma {:induction false} RanksUnderDecrease(item: Item, c: Item)
      requires Wired() && Ranked() && item in items && c in items && item.parent == null && !Holds(item, c)
      ensures var ranks := RanksUnder(item, c);
              ranks[c] < ranks[item] && forall x {:trigger x.parent} :: x in items && x.parent != null ==>
                ranks[x.parent] < ranks[x]
    {
      forall x | x in items && x.parent != null
        ensures Holds(item, x) <==> Holds(item, x.parent)
      {
      }
    }

    /** Links a loose item into a container; the weight of the container is still to be updated. */
    method Link(c: Item, item: Item, front: bool)
      requires Valid() && c in items && c.isContainer && item in items && item.parent == null && !Holds(item, c)
      modifies this`rank, c`itemlist, item`parent
      ensures Wired() && Ranked() && BalancedBut(c, item.GetWeight())
      ensures c.itemlist == if front then [item] + old(c.itemlist) else old(c.itemlist) + [item]
      ensures item.parent == c
    {
      RanksUnderDecrease(item, c);
      assert item !in c.itemlist;
      var list := if front then [item] + c.itemlist else c.itemlist + [item];
      ExtendedList(c, item, front);
      rank := RanksUnder(item, c);
      LinkAs(c, item, list);
    }

    lemma {:induction false} ExtendedList(c: Item, item: Item, front: bool)
      requires Wired() && BalancedBut(null, 0) && c in items && item in items && item !in c.itemlist
      ensures var list := if front then [item] + c.itemlist else c.itemlist + [item];
              NoDuplicates(list) && (forall x :: x in list <==> x == item || x in c.itemlist)
              && Sum(Weights(items), list) == Add(c.totalWeight, item.GetWeight())
    {
      if front {
        SumPrepend(Weights(items), c.itemlist, item);
      } else {
        SumAppend(Weights(items), c.itemlist, item);
      }
    }

    /** The pointers and the sum of Link. */
    method LinkAs(c: Item, item: Item, list: seq<Item>)
      requires Wired() && c in items && c.isContainer && item in items && item.parent == null && BalancedBut(null, 0)
      requires NoDuplicates(list) && forall x :: x in list <==> x == item || x in c.itemlist
      requires Sum(Weights(items), list) == Add(c.totalWeight, item.GetWeight())
      modifies c`itemlist, item`parent
      ensures Wired() && BalancedBut(c, item.GetWeight())
      ensures c.itemlist == list && item.parent == c
    {
      LinkPointers(c, item, list);
      forall x | x in items ensures x != c ==> Sum(Weights(items), x.itemlist) == x.totalWeight {
        assert x != c ==> x.itemlist == old(x.itemlist);
      }
    }

    method LinkPointers(c: Item, item: Item, list: seq<Item>)
      requires Wired() && c in items && c.isContainer && item in items && item.parent == null
      requires NoDuplicates(list) && forall x :: x in list <==> x == item || x in c.itemlist
      modifies c`itemlist, item`parent
      ensures Wired() && c.itemlist == list && item.parent == c
    {
      item.parent := c;
      c.itemlist := list;
    }

    /** Container::addThing(index, thing). */
    method AddThing(c: Item, index: int, item: Item)
      requires Valid() && c in items && c.isContainer && item in items && item.parent == null && !Holds(item, c)
      modifies this`rank, c`itemlist, item`parent, items`totalWeight
      ensures Valid()
      ensures if index >= c.capacity then c.itemlist == old(c.itemlist) && item.parent == null && rank == old(rank)
              else c.itemlist == [item] + old(c.itemlist) && item.parent == c
    {
      if index >= c.capacity {
        return;
      }
      Link(c, item, true);
      UpdateItemWeight(c, item.GetWeight());
    }

    method AddItemBack(c: Item, item: Item)
      requires Valid() && c in items && c.isContainer && item in items && item.parent == null && !Holds(item, c)
      modifies this`rank, c`itemlist, item`parent, items`totalWeight
      ensures Valid()
      ensures c.itemlist == old(c.itemlist) + [item] && item.parent == c
    {
      Link(c, item, false);
      UpdateItemWeight(c, item.GetWeight());
    }

    method InternalAddThing(c: Item, item: Item)
      requires Valid() && c in items && c.isContainer && item in items && item.parent == null && !Holds(item, c)
      modifies this`rank, c`itemlist, item`parent, items`totalWeight
      ensures Valid()
      ensures c.itemlist == [item] + old(c.itemlist) && item.parent == c
    {
      Link(c, item, true);
      UpdateItemWeight(c, item.GetWeight());
    }

    method GetThingIndex(c: Item, item: Item) returns (index: int)
      ensures if item in c.itemlist then 0 <= index < |c.itemlist| && index == IndexOf(c.itemlist, item)
              else index == -1
    {
      for k := 0 to |c.itemlist|
        invariant forall j :: 0 <= j < k ==> c.itemlist[j] != item
      {
        if c.itemlist[k] == item {
          FirstIndex(c.itemlist, item, k);
          return k;
        }
      }
      return -1;
    }

    /** The item's own weight is about to change: its container must follow. */
    method Retype(c: Item, item: Item, kind: Kind, count: nat) returns (diff: int)
      requires Valid() && c in items && item in c.itemlist
      modifies item`kind, item`count
      ensures Wired() && Ranked() && diff == -old(item.GetWeight()) + item.GetWeight() && BalancedBut(c, diff)
      ensures item.kind == kind && item.count == count
    {
      ghost var w := Weights(items);
      var oldWeight := item.GetWeight();
      item.kind, item.count := kind, count;
      diff := -oldWeight + item.GetWeight();
      assert Add(w[item], diff) == item.GetWeight();
      assert Weights(items) == w[item := Add(w[item], diff)];
      forall x | x in items
        ensures Sum(Weights(items), x.itemlist) == if x == c then Add(x.totalWeight, diff) else x.totalWeight
      {
        SumUpdate(w, x.itemlist, item, diff);
      }
    }

    /** Unlinks an item; the weight of the container is still to be updated. */
    method Unlink(c: Item, index: nat)
      requires Valid() && c in items && index < |c.itemlist|
      modifies c`itemlist, {c.itemlist[index]}`parent
      ensures Wired() && Ranked() && BalancedBut(c, -old(c.itemlist[index].GetWeight()))
      ensures c.itemlist == Without(old(c.itemlist), index) && old(c.itemlist)[index].parent == null
    {
      WithoutElements(c.itemlist, index);
      SumRemove(Weights(items), c.itemlist, index);
      UnlinkAs(c, c.itemlist[index], c.itemlist[..index] + c.itemlist[index + 1..]);
    }

    /** The pointers and the sum of Unlink. */
    method UnlinkAs(c: Item, item: Item, list: seq<Item>)
      requires Valid() && c in items && item in c.itemlist
      requires NoDuplicates(list) && forall x :: x in list <==> x in c.itemlist && x != item
      requires Sum(Weights(items), list) == Add(c.totalWeight, -item.GetWeight())
      modifies c`itemlist, item`parent
      ensures Wired() && Ranked() && BalancedBut(c, -old(item.GetWeight()))
      ensures c.itemlist == list && item.parent == null
    {
      UnlinkPointers(c, item, list);
      forall x | x in items ensures x != c ==> Sum(Weights(items), x.itemlist) == x.totalWeight {
        assert x != c ==> x.itemlist == old(x.itemlist);
      }
    }

    method UnlinkPointers(c: Item, item: Item, list: seq<Item>)
      requires Wired() && Ranked() && c in items && item in c.itemlist
      requires NoDuplicates(list) && forall x :: x in list <==> x in c.itemlist && x != item
      modifies c`itemlist, item`parent
      ensures Wired() && Ranked() && c.itemlist == list && item.parent == null
    {
      item.parent := null;
      c.itemlist := list;
    }

    /** Container::updateThing: a new type and count for an item that stays where it is. */
    method UpdateThing(c: Item, item: Item, kind: Kind, count: nat)
      requires Valid() && c in items && c.isContainer
      modifies item`kind, item`count, items`totalWeight
      ensures Valid()
      ensures if item in c.itemlist then item.kind == kind && item.count == count % 0x100
              else item.kind == old(item.kind) && item.count == old(item.count)
    {
      var index := GetThingIndex(c, item);
      if index == -1 {
        return;
      }
      var diff := Retype(c, item, kind, count % 0x100);
      UpdateItemWeight(c, diff);
    }

    /** Container::removeThing: takes some of a stack, or unlinks the whole item. */
    method RemoveThing(c: Item, item: Item, count: nat)
      requires Valid() && c in items && c.isContainer && item.count < 0x100
      modifies c`itemlist, item`parent, item`kind, item`count, items`totalWeight
      ensures Valid() && item.kind == old(item.kind)
      ensures item !in old(c.itemlist) ==>
                c.itemlist == old(c.itemlist) && item.parent == old(item.parent) && item.count == old(item.count)
      ensures item in old(c.itemlist) && item.kind.stackable && count != old(item.count) ==>
                c.itemlist == old(c.itemlist) && item.parent == old(item.parent)
                && item.count == if count <= old(item.count) then old(item.count) - count else 0
      ensures item in old(c.itemlist) && !(item.kind.stackable && count != old(item.count)) ==>
                c.itemlist == Without(old(c.itemlist), IndexOf(old(c.itemlist), item))
                && item.parent == null && item.count == old(item.count)
    {
      var index := GetThingIndex(c, item);
      if index == -1 {
        return;
      }
      if item.kind.stackable && count != item.count {
        var newCount := if item.count - count < 0 then 0 else item.count - count;
        var diff := Retype(c, item, item.kind, newCount);
        UpdateItemWeight(c, diff);
      } else {
        // the weight is taken off before the item is unlinked; nothing looks at the container in between
        var oldWeight := item.GetWeight();
        Unlink(c, index);
        UpdateItemWeight(c, -oldWeight);
      }
    }

    /** Container::replaceThing: a loose item takes the place of another, which becomes loose. */
    method ReplaceThing(c: Item, index: nat, item: Item)
      requires Valid() && c in items && c.isContainer && item in items && item.parent == null && !Holds(item, c)
      modifies this`rank, c`itemlist, item`parent, c.itemlist, items`totalWeight
      ensures Valid()
      ensures if index < |old(c.itemlist)|
              then c.itemlist == old(c.itemlist)[index := item] && item.parent == c
                && old(c.itemlist)[index].parent == null
              else c.itemlist == old(c.itemlist) && item.parent == null
    {
      if index >= |c.itemlist| {
        return;
      }
      var replaced := c.itemlist[index];
      var diff := -replaced.GetWeight() + item.GetWeight();
      Swap(c, index, item, replaced);
      UpdateItemWeight(c, diff);
    }

    method Swap(c: Item, index: nat, item: Item, replaced: Item)
      requires Valid() && c in items && c.isContainer && item in items && item.parent == null && !Holds(item, c)
      requires index < |c.itemlist| && c.itemlist[index] == replaced
      modifies this`rank, c`itemlist, item`parent, replaced`parent
      ensures Wired() && Ranked() && BalancedBut(c, item.GetWeight() - replaced.GetWeight())
      ensures c.itemlist == old(c.itemlist)[index := item] && item.parent == c && replaced.parent == null
    {
      RanksUnderDecrease(item, c);
      assert item !in c.itemlist;
      ReplacedList(c, index, item);
      rank := RanksUnder(item, c);
      SwapAs(c, replaced, item, c.itemlist[index := item]);
    }

    lemma {:induction false} ReplacedList(c: Item, index: nat, item: Item)
      requires Wired() && BalancedBut(null, 0) && c in items && item in items && item !in c.itemlist
               && index < |c.itemlist|
      ensures var list := c.itemlist[index := item];
              NoDuplicates(list) && (forall x :: x in list <==>
                                     x == item || (x in c.itemlist && x != c.itemlist[index]))
              && Sum(Weights(items), list) == Add(c.totalWeight, item.GetWeight() - c.itemlist[index].GetWeight())
    {
      SumReplace(Weights(items), c.itemlist, index, item);
      ReplacedElements(c.itemlist, index, item);
    }

    /** The pointers and the sum of Swap. */
    method SwapAs(c: Item, replaced: Item, item: Item, list: seq<Item>)
      requires Wired() && BalancedBut(null, 0) && c in items && c.isContainer && replaced in c.itemlist
      requires item in items && item.parent == null
      requires NoDuplicates(list) && forall x :: x in list <==> x == item || (x in c.itemlist && x != replaced)
      requires Sum(Weights(items), list) == Add(c.totalWeight, item.GetWeight() - replaced.GetWeight())
      modifies c`itemlist, item`parent, replaced`parent
      ensures Wired() && BalancedBut(c, item.GetWeight() - replaced.GetWeight())
      ensures c.itemlist == list && item.parent == c && replaced.parent == null
    {
      SwapPointers(c, replaced, item, list);
      forall x | x in items
        ensures x != c ==> Sum(Weights(items), x.itemlist) == x.totalWeight
      {
        assert x != c ==> x.itemlist == old(x.itemlist);
      }
    }

    method SwapPointers(c: Item, replaced: Item, item: Item, list: seq<Item>)
      requires Wired() && c in items && c.isContainer && replaced in c.itemlist && item in items && item.parent == null
      requires NoDuplicates(list) && forall x :: x in list <==> x == item || (x in c.itemlist && x != replaced)
      modifies c`itemlist, item`parent, replaced`parent
      ensures Wired() && c.itemlist == list && item.parent == c && replaced.parent == null
    {
      replaced.parent := null;
      item.parent := c;
      c.itemlist := list;
    }

    /** Container::queryAdd for plain containers: neither the container itself nor anything it is in. */
    ghost function QueryAddResult(c: Item, index: int, item: Item, noLimit: bool): ReturnValue
      requires Wired() && Ranked() && c in items
      reads this, items, item
    {
      if !c.unlocked then NotPossible
      else if !item.kind.pickupable then CannotPickup
      else if Holds(item, c) then ThisIsImpossible
      else if !noLimit && index == INDEX_WHEREEVER && |c.itemlist| >= c.capacity then ContainerNotEnoughRoom
      else NoError
    }

    method QueryAdd(c: Item, index: int, item: Item, noLimit: bool) returns (r: ReturnValue)
      requires Wired() && Ranked() && c in items
      ensures r == QueryAddResult(c, index, item, noLimit)
    {
      if !c.unlocked { return NotPossible; }
      if !item.kind.pickupable { return CannotPickup; }
      if item == c { return ThisIsImpossible; }
      var cylinder := c.parent;
      while cylinder != null
        invariant cylinder != null ==> cylinder in items && (Holds(item, c) <==> Holds(item, cylinder))
        invariant cylinder == null ==> !Holds(item, c)
        decreases if cylinder == null then 0 else rank[cylinder] + 1
      {
        if cylinder == item { return ThisIsImpossible; }
        cylinder := cylinder.parent;
      }
      if !noLimit && index == INDEX_WHEREEVER && |c.itemlist| >= c.capacity { return ContainerNotEnoughRoom; }
      return NoError;
    }

    // ----- the cache and the recursive weight

    ghost function Below(x: Item): set<Item>
      requires Ranked() && x in items
      reads this, items
    {
      set y | y in items && rank[y] > rank[x]
    }

    lemma {:induction false} BelowShrinks(c: Item, x: Item)
      requires Wired() && Ranked() && c in items && x in c.itemlist
      ensures x in items && x in Below(c) && x !in Below(x) && Below(x) <= Below(c)
    {
    }

    /** The weight of an item with everything inside it, at all depths, without any cache. */
    ghost function FullWeight(x: Item): int
      requires Wired() && Ranked() && x in items
      reads this, items
      decreases Below(x), 0
    {
      x.OwnWeight() + if x.isContainer then ContentsWeight(x, |x.itemlist|) else 0
    }

    ghost function ContentsWeight(c: Item, n: nat): int
      requires Wired() && Ranked() && c in items && n <= |c.itemlist|
      reads this, items
      decreases Below(c), 0, n
    {
      if n == 0 then 0
      else
        BelowShrinks(c, c.itemlist[n - 1]);
        FullWeight(c.itemlist[n - 1]) + ContentsWeight(c, n - 1)
    }

    /** In a valid world every cached weight is the recursive weight, modulo 2^32. */
    lemma {:induction false} CacheIsFullWeight(x: Item)
      requires Valid() && x in items
      ensures x.GetWeight() == FullWeight(x) % WRAP
      ensures x.isContainer ==> x.totalWeight == ContentsWeight(x, |x.itemlist|) % WRAP
      decreases Below(x), 1
    {
      if x.isContainer {
        CacheIsContentsWeight(x, |x.itemlist|);
        assert x.itemlist[..|x.itemlist|] == x.itemlist;
        AddAssoc(0, ContentsWeight(x, |x.itemlist|), x.OwnWeight());
        assert Add(x.OwnWeight(), x.totalWeight) == Add(x.totalWeight, x.OwnWeight());
      }
    }

    lemma {:induction false} CacheIsContentsWeight(c: Item, n: nat)
      requires Valid() && c in items && n <= |c.itemlist|
      ensures forall x :: x in c.itemlist[..n] ==> x in items
      ensures Sum(Weights(items), c.itemlist[..n]) == ContentsWeight(c, n) % WRAP
      decreases Below(c), 0, n
    {
      if n > 0 {
        var x := c.itemlist[n - 1];
        BelowShrinks(c, x);
        CacheIsFullWeight(x);
        CacheIsContentsWeight(c, n - 1);
        assert c.itemlist[..n] == c.itemlist[..n - 1] + [x];
        SumAppend(Weights(items), c.itemlist[..n - 1], x);
        AddAssoc(0, ContentsWeight(c, n - 1), x.GetWeight());
        AddAssoc(0, FullWeight(x), ContentsWeight(c, n - 1));
      }
    }
  }
}
