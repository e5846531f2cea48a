/**
 Item trees as values, and the breadth-first walk over a container that counting, searching and
 listing share.
 */
module Forest {

  /** A thing and, if it is a container, the things directly inside. */
  datatype Tree<T> = Node(data: T, isContainer: bool, kids: seq<Tree<T>>)

  ghost predicate WellFormed<T>(t: Tree<T>) {
    (!t.isContainer ==> t.kids == []) && forall k :: k in t.kids ==> WellFormed(k)
  }

  function Size<T>(ts: seq<Tree<T>>): nat {
    if ts == [] then 0 else 1 + Size(ts[0].kids) + Size(ts[1..])
  }

  /** The next level: everything directly inside the given things. */
  function Kids<T>(ts: seq<Tree<T>>): seq<Tree<T>> {
    if ts == [] then [] else ts[0].kids + Kids(ts[1..])
  }

  lemma {:induction false} SizeConcat<T>(a: seq<Tree<T>>, b: seq<Tree<T>>)
    ensures Size(a + b) == Size(a) + Size(b)
    decreases |a|
  {
    if a == [] {
      assert a + b == b;
    } else {
      assert (a + b)[1..] == a[1..] + b;
      SizeConcat(a[1..], b);
    }
  }

  lemma {:induction false} KidsConcat<T>(a: seq<Tree<T>>, b: seq<Tree<T>>)
    ensures Kids(a + b) == Kids(a) + Kids(b)
    decreases |a|
  {
    if a == [] {
      assert a + b == b;
    } else {
      assert (a + b)[1..] == a[1..] + b;
      KidsConcat(a[1..], b);
    }
  }

  lemma {:induction false} KidsSize<T>(ts: seq<Tree<T>>)
    ensures Size(Kids(ts)) == Size(ts) - |ts|
    decreases |ts|
  {
    if ts != [] {
      SizeConcat(ts[0].kids, Kids(ts[1..]));
      KidsSize(ts[1..]);
    }
  }

  /** All things level by level. */
  function LevelOrder<T>(ts: seq<Tree<T>>): seq<Tree<T>>
    decreases Size(ts)
  {
    if ts == [] then []
    else
      KidsSize(ts);
      ts + LevelOrder(Kids(ts))
  }

  /** All things with what is inside each right behind it. */
  function Preorder<T>(ts: seq<Tree<T>>): seq<Tree<T>> {
    if ts == [] then [] else [ts[0]] + Preorder(ts[0].kids) + Preorder(ts[1..])
  }

  /** Taking things from the front of a queue and queueing what is inside them at the back. */
  function Queued<T>(queue: seq<Tree<T>>): seq<Tree<T>>
    decreases Size(queue)
  {
    if queue == [] then []
    else
      SizeConcat(queue[1..], queue[0].kids);
      [queue[0]] + Queued(queue[1..] + queue[0].kids)
  }

  /** The front of the queue comes out first, and what is inside it joins the back. */
  lemma {:induction false} QueuedFront<T>(front: seq<Tree<T>>, back: seq<Tree<T>>)
    ensures Queued(front + back) == front + Queued(back + Kids(front))
    decreases |front|
  {
    if front == [] {
      assert front + back == back && back + [] == back;
    } else {
      var queue := front + back;
      assert queue[1..] + queue[0].kids == front[1..] + (back + front[0].kids);
      SizeConcat(queue[1..], queue[0].kids);
      QueuedFront(front[1..], back + front[0].kids);
      assert (back + front[0].kids) + Kids(front[1..]) == back + Kids(front);
    }
  }

  /** The queue yields everything level by level. */
  lemma {:induction false} QueuedIsLevelOrder<T>(ts: seq<Tree<T>>)
    ensures Queued(ts) == LevelOrder(ts)
    decreases Size(ts)
  {
    if ts != [] {
      assert ts + [] == ts && [] + Kids(ts) == Kids(ts);
      QueuedFront(ts, []);
      KidsSize(ts);
      QueuedIsLevelOrder(Kids(ts));
    }
  }

  /** The only listing that is the given things followed by everything directly inside the listed ones. */
  lemma {:induction false} LevelOrderUnique<T>(ts: seq<Tree<T>>, nodes: seq<Tree<T>>)
    requires nodes == ts + Kids(nodes)
    ensures nodes == LevelOrder(ts)
    decreases Size(ts)
  {
    KidsSize(ts);
    if ts == [] {
      assert [] + Kids(nodes) == Kids(nodes);
      KidsSize(nodes);
    } else {
      var inside := Kids(nodes);
      KidsConcat(ts, inside);
      LevelOrderUnique(Kids(ts), inside);
    }
  }

  lemma {:induction false} PreorderConcat<T>(a: seq<Tree<T>>, b: seq<Tree<T>>)
    ensures Preorder(a + b) == Preorder(a) + Preorder(b)
    decreases |a|
  {
    if a == [] {
      assert a + b == b;
    } else {
      assert (a + b)[1..] == a[1..] + b;
      PreorderConcat(a[1..], b);
    }
  }

  /** Level order lists every thing at every depth exactly as often as the recursive listing does. */
  lemma {:induction false} LevelOrderIsComplete<T>(ts: seq<Tree<T>>)
    ensures multiset(LevelOrder(ts)) == multiset(Preorder(ts))
    ensures |LevelOrder(ts)| == Size(ts)
  {
    QueuedIsLevelOrder(ts);
    QueuedIsComplete(ts);
  }

  lemma {:induction false} QueuedIsComplete<T>(queue: seq<Tree<T>>)
    ensures multiset(Queued(queue)) == multiset(Preorder(queue))
    ensures |Queued(queue)| == Size(queue)
    decreases Size(queue)
  {
    if queue != [] {
      var rest := queue[1..] + queue[0].kids;
      SizeConcat(queue[1..], queue[0].kids);
      QueuedIsComplete(rest);
      PreorderConcat(queue[1..], queue[0].kids);
    }
  }

  /** x is one of the given things or inside one of them, at any depth. */
  ghost predicate Contains<T>(ts: seq<Tree<T>>, x: T) {
    exists i :: 0 <= i < |ts| && (ts[i].data == x || Contains(ts[i].kids, x))
  }

  lemma {:induction false} PreorderContains<T>(ts: seq<Tree<T>>, x: T)
    ensures Contains(ts, x) <==> exists t :: t in Preorder(ts) && t.data == x
  {
    if ts != [] {
      PreorderContains(ts[0].kids, x);
      PreorderContains(ts[1..], x);
      ContainsFirst(ts, x);
    }
  }

  /** A queue of containers with something inside, and a place in the first of them. */
  class ContainerIterator<T> {
    var over: seq<Tree<T>>
    var cur: nat

    ghost predicate Valid()
      reads this
    {
      Queueable(over) && (over != [] ==> cur < |over[0].kids|)
    }

    /** What is still to be visited of the containers in the queue. */
    ghost function Pending(): seq<Tree<T>>
      requires Valid()
      reads this
    {
      PendingOf(over, cur)
    }

    constructor (container: Tree<T>)
      requires WellFormed(container)
      ensures Valid() && Pending() == container.kids
    {
      over, cur := if container.kids != [] then [container] else [], 0;
      new;
      QueueKids([], container);
      assert [] + [container] == [container];
    }

    predicate HasNext()
      requires Valid()
      reads this
      ensures HasNext() <==> Pending() != []
    {
      over != []
    }

    function Current(): (t: Tree<T>)
      requires Valid() && HasNext()
      reads this
      ensures t == Pending()[0]
    {
      over[0].kids[cur]
    }

    method Advance()
      requires Valid() && HasNext()
      modifies this
      ensures Valid()
      ensures Pending() == old(Pending()[1..] + Current().kids)
    {
      var item := over[0].kids[cur];
      Visited(over, cur);
      if item.isContainer {
        if item.kids != [] {
          over := over + [item];
        }
      }
      cur := cur + 1;
      if cur == |over[0].kids| {
        over, cur := over[1..], 0;
      }
    }
  }

  /** Every queued container has something inside. */
  ghost predicate Queueable<T>(over: seq<Tree<T>>) {
    forall c :: c in over ==> c.kids != [] && WellFormed(c)
  }

  /** The contents of the queued containers without the cur things already visited. */
  ghost function PendingOf<T>(over: seq<Tree<T>>, cur: nat): seq<Tree<T>>
    requires over != [] ==> cur <= |over[0].kids|
  {
    if over == [] then [] else Kids(over)[cur..]
  }

  lemma {:induction false} Visited<T>(over: seq<Tree<T>>, cur: nat)
    requires Queueable(over) && over != [] && cur < |over[0].kids|
    ensures var item := over[0].kids[cur];
            var more := if item.kids != [] then over + [item] else over;
            WellFormed(item) && Queueable(more) && Queueable(more[1..])
            && PendingOf(over, cur)[0] == item
            && PendingOf(more, cur + 1) == PendingOf(over, cur)[1..] + item.kids
            && (cur + 1 == |over[0].kids| ==> PendingOf(more[1..], 0) == PendingOf(more, cur + 1))
  {
    var item := over[0].kids[cur];
    assert over[0] in over && item in over[0].kids;
    QueueKids(over, item);
    FirstLeft(Kids(over), cur, item.kids);
    if cur + 1 == |over[0].kids| {
      QueueMoves(if item.kids != [] then over + [item] else over);
    }
  }

  lemma {:induction false} FirstLeft<T>(pending: seq<T>, cur: nat, added: seq<T>)
    requires cur < |pending|
    ensures (pending + added)[cur + 1..] == pending[cur..][1..] + added
  {
  }

  lemma {:induction false} QueueMoves<T>(over: seq<Tree<T>>)
    requires over != []
    ensures PendingOf(over[1..], 0) == PendingOf(over, |over[0].kids|)
  {
    assert Kids(over) == over[0].kids + Kids(over[1..]);
  }

  /** Queueing a container adds what is inside it behind everything else. */
  lemma {:induction false} QueueKids<T>(others: seq<Tree<T>>, item: Tree<T>)
    ensures Kids(others + [item]) == Kids(others) + item.kids
    ensures item.kids == [] ==> Kids(others) + item.kids == Kids(others)
  {
    KidsConcat(others, [item]);
    assert [item][1..] == [];
    assert item.kids + [] == item.kids;
  }

  // ----- what the loops over the iterator compute

  /** Container::getItemHoldingCount. */
  method GetItemHoldingCount<T>(container: Tree<T>) returns (counter: nat)
    requires WellFormed(container)
    ensures counter == Size(container.kids)
  {
    counter := 0;
    var it := new ContainerIterator(container);
    while it.HasNext()
      invariant it.Valid() && fresh(it)
      invariant counter + Size(it.Pending()) == Size(container.kids)
      decreases Size(it.Pending())
    {
      ghost var pending := it.Pending();
      SizeConcat(pending[1..], pending[0].kids);
      counter := counter + 1;
      it.Advance();
    }
  }

  /** Container::isHoldingItem. */
  method IsHoldingItem<T(==)>(container: Tree<T>, item: T) returns (r: bool)
    requires WellFormed(container)
    ensures r <==> Contains(container.kids, item)
  {
    var it := new ContainerIterator(container);
    while it.HasNext()
      invariant it.Valid() && fresh(it)
      invariant Contains(it.Pending(), item) <==> Contains(container.kids, item)
      decreases Size(it.Pending())
    {
      ghost var pending := it.Pending();
      SizeConcat(pending[1..], pending[0].kids);
      ContainsConcat(pending[1..], pending[0].kids, item);
      ContainsFirst(pending, item);
      if it.Current().data == item {
        return true;
      }
      it.Advance();
    }
    return false;
  }

  lemma {:induction false} ContainsFirst<T>(ts: seq<Tree<T>>, x: T)
    requires ts != []
    ensures Contains(ts, x) <==> ts[0].data == x || Contains(ts[0].kids, x) || Contains(ts[1..], x)
  {
    if Contains(ts, x) {
      var i :| 0 <= i < |ts| && (ts[i].data == x || Contains(ts[i].kids, x));
      if i > 0 { assert ts[1..][i - 1] == ts[i]; }
    }
    if Contains(ts[1..], x) {
      var i :| 0 <= i < |ts[1..]| && (ts[1..][i].data == x || Contains(ts[1..][i].kids, x));
      assert ts[i + 1] == ts[1..][i];
    }
  }

  lemma {:induction false} ContainsConcat<T>(a: seq<Tree<T>>, b: seq<Tree<T>>, x: T)
    ensures Contains(a + b, x) <==> Contains(a, x) || Contains(b, x)
  {
    if Contains(a, x) {
      var i :| 0 <= i < |a| && (a[i].data == x || Contains(a[i].kids, x));
      assert (a + b)[i] == a[i];
    }
    if Contains(b, x) {
      var i :| 0 <= i < |b| && (b[i].data == x || Contains(b[i].kids, x));
      assert (a + b)[|a| + i] == b[i];
    }
  }

  /** The items a container's description names: everything but containers that are not empty, level by level. */
  method ItemsToName<T>(container: Tree<T>) returns (named: seq<Tree<T>>)
    requires WellFormed(container)
    ensures named == WithoutFullContainers(LevelOrder(container.kids))
  {
    named := [];
    QueuedIsLevelOrder(container.kids);
    var it := new ContainerIterator(container);
    while it.HasNext()
      invariant it.Valid() && fresh(it)
      invariant named + StillToName(it.Pending()) == WithoutFullContainers(LevelOrder(container.kids))
      decreases Size(it.Pending())
    {
      ghost var pending := it.Pending();
      SizeConcat(pending[1..], pending[0].kids);
      StillToNameStep(named, pending);
      var item := it.Current();
      if !(item.isContainer && item.kids != []) {
        named := named + [item];
      }
      it.Advance();
    }
    assert named + [] == named;
  }

  ghost function StillToName<T>(pending: seq<Tree<T>>): seq<Tree<T>> {
    WithoutFullContainers(Queued(pending))
  }

  lemma {:induction false} StillToNameStep<T>(named: seq<Tree<T>>, pending: seq<Tree<T>>)
    requires pending != []
    ensures var item, rest := pending[0], StillToName(pending[1..] + pending[0].kids);
            named + StillToName(pending)
            == if item.isContainer && item.kids != [] then named + rest else (named + [item]) + rest
  {
    var rest := Queued(pending[1..] + pending[0].kids);
    Unfolded(pending[0], rest);
    assert Queued(pending) == [pending[0]] + rest;
  }

  lemma {:induction false} Unfolded<T>(item: Tree<T>, rest: seq<Tree<T>>)
    ensures WithoutFullContainers([item] + rest)
            == if item.isContainer && item.kids != [] then WithoutFullContainers(rest)
              else [item] + WithoutFullContainers(rest)
  {
    assert ([item] + rest)[1..] == rest;
  }

  function WithoutFullContainers<T>(ts: seq<Tree<T>>): seq<Tree<T>> {
    if ts == [] then []
    else (if ts[0].isContainer && ts[0].kids != [] then [] else [ts[0]]) + WithoutFullContainers(ts[1..])
  }
}
