/**
 A player's items as numbered database rows: saving walks the item forest breadth first, loading
 rebuilds it from the highest row number down.
 */
module ItemRows {
  import opened Basics
  import opened Forest
  import opened ItemTree

  /** What one row says about the item itself. */
  datatype Thing = Thing(kind: Kind, count: nat, isContainer: bool, capacity: nat, unlocked: bool)

  datatype Row = Row(pid: int, sid: int, thing: Thing)

  // row numbers start above every slot and depot number
  const FIRST_ID := 101

  ghost predicate Sound(t: Tree<Thing>) {
    && t.isContainer == t.data.isContainer
    && (!t.isContainer ==> t.kids == [])
    && forall k :: k in t.kids ==> Sound(k)
  }

  ghost predicate AllSound(ts: seq<Tree<Thing>>) {
    forall t :: t in ts ==> Sound(t)
  }

  ghost function RootIds(list: seq<(int, Tree<Thing>)>): (ids: seq<int>)
    ensures |ids| == |list|
  {
    seq(|list|, i requires 0 <= i < |list| => list[i].0)
  }

  ghost function Trees(list: seq<(int, Tree<Thing>)>): (ts: seq<Tree<Thing>>)
    ensures |ts| == |list|
  {
    seq(|list|, i requires 0 <= i < |list| => list[i].1)
  }

  ghost function Repeated(id: int, n: nat): (ids: seq<int>)
    ensures |ids| == n
  {
    seq(n, _ => id)
  }

  /** For everything directly inside the given things, numbered from id on: the number of what it is in. */
  ghost function ParentIds(ts: seq<Tree<Thing>>, id: int): (ids: seq<int>)
    ensures |ids| == |Kids(ts)|
  {
    if ts == [] then [] else Repeated(id, |ts[0].kids|) + ParentIds(ts[1..], id + 1)
  }

  /** The parent column of the rows. */
  ghost function Pids(list: seq<(int, Tree<Thing>)>, nodes: seq<Tree<Thing>>): seq<int> {
    RootIds(list) + ParentIds(nodes, FIRST_ID)
  }

  ghost predicate Written(rows: seq<Row>, pids: seq<int>, nodes: seq<Tree<Thing>>) {
    && |rows| == |pids| == |nodes|
    && forall i :: 0 <= i < |rows| ==> rows[i] == Row(pids[i], FIRST_ID + i, nodes[i].data)
  }

  /** The rows describe the nodes: first the roots, then what is inside each node, node by node. */
  ghost predicate Encodes(list: seq<(int, Tree<Thing>)>, rows: seq<Row>, nodes: seq<Tree<Thing>>) {
    && AllSound(nodes) && nodes == Trees(list) + Kids(nodes)
    && Written(rows, Pids(list, nodes), nodes)
    && forall i :: |list| <= i < |rows| ==> FIRST_ID <= rows[i].pid < rows[i].sid
  }

  // ----- saving

  /** The containers among the nodes numbered from id on. */
  ghost function QueueOf(ts: seq<Tree<Thing>>, id: int): seq<(Tree<Thing>, int)> {
    if ts == [] then [] else (if ts[0].isContainer then [(ts[0], id)] else []) + QueueOf(ts[1..], id + 1)
  }

  lemma {:induction false} QueueOfAppend(ts: seq<Tree<Thing>>, id: int, t: Tree<Thing>)
    ensures QueueOf(ts + [t], id) == QueueOf(ts, id) + if t.isContainer then [(t, id + |ts|)] else []
    decreases |ts|
  {
    if ts == [] {
      assert [] + [t] == [t] && [t][1..] == [];
    } else {
      assert (ts + [t])[0] == ts[0] && (ts + [t])[1..] == ts[1..] + [t];
      QueueOfAppend(ts[1..], id + 1, t);
      var first := if ts[0].isContainer then [(ts[0], id)] else [];
      assert QueueOf(ts + [t], id) == first + QueueOf(ts[1..] + [t], id + 1);
      assert QueueOf(ts, id) == first + QueueOf(ts[1..], id + 1);
    }
  }

  lemma {:induction false} ParentIdsAppend(ts: seq<Tree<Thing>>, id: int, t: Tree<Thing>)
    ensures Kids(ts + [t]) == Kids(ts) + t.kids
    ensures ParentIds(ts + [t], id) == ParentIds(ts, id) + Repeated(id + |ts|, |t.kids|)
    decreases |ts|
  {
    if ts == [] {
      assert [] + [t] == [t] && [t][1..] == [];
    } else {
      assert (ts + [t])[0] == ts[0] && (ts + [t])[1..] == ts[1..] + [t];
      ParentIdsAppend(ts[1..], id + 1, t);
      var first := Repeated(id, |ts[0].kids|);
      assert ParentIds(ts + [t], id) == first + ParentIds(ts[1..] + [t], id + 1);
      assert ParentIds(ts, id) == first + ParentIds(ts[1..], id + 1);
      assert Kids(ts + [t]) == ts[0].kids + Kids(ts[1..] + [t]);
    }
  }

  /** Passing over a node that holds nothing changes neither the next level nor its parent column. */
  lemma {:induction false} PassLeaf(nodes: seq<Tree<Thing>>, done: nat)
    requires done < |nodes| && nodes[done].kids == []
    ensures Kids(nodes[..done + 1]) == Kids(nodes[..done])
    ensures ParentIds(nodes[..done + 1], FIRST_ID) == ParentIds(nodes[..done], FIRST_ID)
  {
    assert nodes[..done + 1] == nodes[..done] + [nodes[done]];
    ParentIdsAppend(nodes[..done], FIRST_ID, nodes[done]);
  }

  lemma {:induction false} QueueFrom(nodes: seq<Tree<Thing>>, done: nat)
    requires done < |nodes|
    ensures QueueOf(nodes[done..], FIRST_ID + done)
            == (if nodes[done].isContainer then [(nodes[done], FIRST_ID + done)] else [])
               + QueueOf(nodes[done + 1..], FIRST_ID + done + 1)
    ensures Size(nodes[done + 1..]) <= Size(nodes[done..])
  {
    assert nodes[done..][0] == nodes[done] && nodes[done..][1..] == nodes[done + 1..];
  }

  /** The first queued container is the first node not yet opened that is a container. */
  lemma {:induction false} NextContainer(nodes: seq<Tree<Thing>>, done: nat) returns (k: nat)
    requires done <= |nodes| && AllSound(nodes)
    ensures done <= k <= |nodes|
    ensures Kids(nodes[..k]) == Kids(nodes[..done])
    ensures ParentIds(nodes[..k], FIRST_ID) == ParentIds(nodes[..done], FIRST_ID)
    ensures Size(nodes[k..]) <= Size(nodes[done..])
    ensures k < |nodes| ==> nodes[k].isContainer
    ensures QueueOf(nodes[done..], FIRST_ID + done)
            == if k == |nodes| then [] else [(nodes[k], FIRST_ID + k)] + QueueOf(nodes[k + 1..], FIRST_ID + k + 1)
    decreases |nodes| - done
  {
    k := done;
    if done < |nodes| {
      assert nodes[done] in nodes;
      QueueFrom(nodes, done);
      if !nodes[done].isContainer {
        PassLeaf(nodes, done);
        k := NextContainer(nodes, done + 1);
      }
    }
  }

  /** The first done nodes have been opened, and the queue holds the containers among the others. */
  ghost predicate Saving(list: seq<(int, Tree<Thing>)>, rows: seq<Row>, nodes: seq<Tree<Thing>>, done: nat,
                         queue: seq<(Tree<Thing>, int)>) {
    && done <= |nodes| && AllSound(nodes)
    && nodes == Trees(list) + Kids(nodes[..done])
    && Written(rows, Pids(list, nodes[..done]), nodes)
    && (forall i :: |list| <= i < |rows| ==> FIRST_ID <= rows[i].pid < rows[i].sid)
    && queue == QueueOf(nodes[done..], FIRST_ID + done)
  }

  /** IOLoginData::saveItems: the rows list the items level by level. */
  method SaveItems(list: seq<(int, Tree<Thing>)>) returns (rows: seq<Row>)
    requires AllSound(Trees(list))
    ensures Encodes(list, rows, LevelOrder(Trees(list)))
  {
    var queue, runningId;
    ghost var nodes;
    rows, queue, runningId, nodes := SaveRoots(list);
    ghost var done: nat := 0;
    while queue != []
      invariant Saving(list, rows, nodes, done, queue) && runningId == 100 + |nodes|
      decreases Size(nodes[done..])
    {
      done := SkipLeaves(list, rows, nodes, done, queue);
      rows, queue, runningId, nodes := SaveContents(list, rows, queue, runningId, nodes, done);
      done := done + 1;
    }
    AllOpened(list, rows, nodes, done);
    LevelOrderUnique(Trees(list), nodes);
  }

  lemma {:induction false} SkipLeaves(list: seq<(int, Tree<Thing>)>, rows: seq<Row>, nodes: seq<Tree<Thing>>, done: nat,
                   queue: seq<(Tree<Thing>, int)>)
    returns (k: nat)
    requires Saving(list, rows, nodes, done, queue) && queue != []
    ensures Saving(list, rows, nodes, k, queue) && k < |nodes|
    ensures queue == [(nodes[k], FIRST_ID + k)] + QueueOf(nodes[k + 1..], FIRST_ID + k + 1)
    ensures Size(nodes[k..]) <= Size(nodes[done..])
  {
    k := NextContainer(nodes, done);
    assert nodes[k..][0] == nodes[k] && nodes[k..][1..] == nodes[k + 1..];
  }

  lemma {:induction false} AllOpened(list: seq<(int, Tree<Thing>)>, rows: seq<Row>, nodes: seq<Tree<Thing>>, done: nat)
    requires Saving(list, rows, nodes, done, [])
    ensures Encodes(list, rows, nodes)
  {
    var k := NextContainer(nodes, done);
    assert nodes[..|nodes|] == nodes;
  }

  /** The rows of the items directly in slots, depots or the inbox. */
  method SaveRoots(list: seq<(int, Tree<Thing>)>)
    returns (rows: seq<Row>, queue: seq<(Tree<Thing>, int)>, runningId: int, ghost nodes: seq<Tree<Thing>>)
    requires AllSound(Trees(list))
    ensures Saving(list, rows, nodes, 0, queue) && runningId == 100 + |nodes|
  {
    rows, queue, runningId, nodes := [], [], 100, [];
    for i := 0 to |list|
      invariant runningId == 100 + i && nodes == Trees(list)[..i]
      invariant Written(rows, RootIds(list)[..i], nodes)
      invariant queue == QueueOf(nodes, FIRST_ID)
    {
      var (pid, item) := list[i];
      runningId := runningId + 1;
      rows := rows + [Row(pid, runningId, item.data)];
      if item.isContainer {
        queue := queue + [(item, runningId)];
      }
      QueueOfAppend(nodes, FIRST_ID, item);
      nodes := nodes + [item];
    }
    assert nodes[0..] == nodes == Trees(list) && nodes[..0] == [];
    assert RootIds(list) + [] == RootIds(list)[..|list|];
  }

  /** The rows of everything directly inside the first queued container. */
  method SaveContents(list: seq<(int, Tree<Thing>)>, rows: seq<Row>, queue: seq<(Tree<Thing>, int)>, runningId: int,
                      ghost nodes: seq<Tree<Thing>>, ghost done: nat)
    returns (rows': seq<Row>, queue': seq<(Tree<Thing>, int)>, runningId': int, ghost nodes': seq<Tree<Thing>>)
    requires Saving(list, rows, nodes, done, queue) && runningId == 100 + |nodes| && done < |nodes|
    requires queue == [(nodes[done], FIRST_ID + done)] + QueueOf(nodes[done + 1..], FIRST_ID + done + 1)
    ensures Saving(list, rows', nodes', done + 1, queue') && runningId' == 100 + |nodes'|
    ensures Size(nodes'[done + 1..]) < Size(nodes[done..])
  {
    var (container, parentId) := queue[0];
    assert container == nodes[done] && parentId == FIRST_ID + done;
    assert queue[1..] == QueueOf(nodes[done + 1..], parentId + 1);
    ghost var pids, rest := Pids(list, nodes[..done]), nodes[done + 1..];
    rows', queue', runningId', nodes' :=
      SaveKids(container.kids, parentId, rows, queue[1..], runningId, nodes, pids, rest, |list|);
    StillSaving(list, nodes, done, rows', queue');
  }

  lemma {:induction false} StillSaving(list: seq<(int, Tree<Thing>)>, nodes: seq<Tree<Thing>>, done: nat,
                                       rows': seq<Row>, queue': seq<(Tree<Thing>, int)>)
    requires done < |nodes| && AllSound(nodes) && nodes == Trees(list) + Kids(nodes[..done])
    requires Written(rows', Pids(list, nodes[..done]) + Repeated(FIRST_ID + done, |nodes[done].kids|),
                     nodes + nodes[done].kids)
    requires forall j :: |list| <= j < |rows'| ==> FIRST_ID <= rows'[j].pid < rows'[j].sid
    requires queue' == QueueOf(nodes[done + 1..] + nodes[done].kids, FIRST_ID + done + 1)
    ensures Saving(list, rows', nodes + nodes[done].kids, done + 1, queue')
    ensures Size((nodes + nodes[done].kids)[done + 1..]) < Size(nodes[done..])
  {
    Opened(list, nodes, done);
    Assoc(Trees(list), Kids(nodes[..done]), nodes[done].kids);
  }

  method SaveKids(kids: seq<Tree<Thing>>, parentId: int, rows: seq<Row>, queue: seq<(Tree<Thing>, int)>, runningId: int,
                  ghost nodes: seq<Tree<Thing>>, ghost pids: seq<int>, ghost rest: seq<Tree<Thing>>, ghost n: nat)
    returns (rows': seq<Row>, queue': seq<(Tree<Thing>, int)>, runningId': int, ghost nodes': seq<Tree<Thing>>)
    requires runningId == 100 + |nodes| && Written(rows, pids, nodes)
    requires FIRST_ID <= parentId < FIRST_ID + |nodes| - |rest| && |rest| <= |nodes|
    requires queue == QueueOf(rest, FIRST_ID + |nodes| - |rest|)
    requires n <= |rows| && forall j :: n <= j < |rows| ==> FIRST_ID <= rows[j].pid < rows[j].sid
    ensures nodes' == nodes + kids && runningId' == 100 + |nodes'|
    ensures Written(rows', pids + Repeated(parentId, |kids|), nodes')
    ensures forall j :: n <= j < |rows'| ==> FIRST_ID <= rows'[j].pid < rows'[j].sid
    ensures queue' == QueueOf(rest + kids, FIRST_ID + |nodes| - |rest|)
  {
    rows', queue', runningId', nodes' := rows, queue, runningId, nodes;
    assert rest + kids[..0] == rest;
    for i := 0 to |kids|
      invariant nodes' == nodes + kids[..i] && runningId' == 100 + |nodes'|
      invariant Written(rows', pids + Repeated(parentId, i), nodes')
      invariant forall j :: n <= j < |rows'| ==> FIRST_ID <= rows'[j].pid < rows'[j].sid
      invariant queue' == QueueOf(rest + kids[..i], FIRST_ID + |nodes| - |rest|)
    {
      var item := kids[i];
      runningId' := runningId' + 1;
      QueueOfAppend(rest + kids[..i], FIRST_ID + |nodes| - |rest|, item);
      assert rest + kids[..i + 1] == rest + kids[..i] + [item];
      if item.isContainer {
        queue' := queue' + [(item, runningId')];
      }
      rows' := rows' + [Row(parentId, runningId', item.data)];
      nodes' := nodes' + [item];
    }
    assert kids[..|kids|] == kids;
  }

  /** Opening a node puts what is inside it at the end. */
  lemma {:induction false} Opened(list: seq<(int, Tree<Thing>)>, nodes: seq<Tree<Thing>>, done: nat)
    requires done < |nodes| && AllSound(nodes)
    ensures var container := nodes[done];
            var nodes' := nodes + container.kids;
            AllSound(nodes') && nodes'[done + 1..] == nodes[done + 1..] + container.kids
            && Kids(nodes'[..done + 1]) == Kids(nodes[..done]) + container.kids
            && Pids(list, nodes'[..done + 1]) == Pids(list, nodes[..done]) + Repeated(FIRST_ID + done, |container.kids|)
            && Size(nodes'[done + 1..]) < Size(nodes[done..])
  {
    var container := nodes[done];
    var nodes' := nodes + container.kids;
    assert container in nodes;
    assert nodes'[done + 1..] == nodes[done + 1..] + container.kids;
    assert nodes[done..][0] == container && nodes[done..][1..] == nodes[done + 1..];
    SizeConcat(nodes[done + 1..], container.kids);
    assert nodes'[..done + 1] == nodes[..done] + [container];
    ParentIdsAppend(nodes[..done], FIRST_ID, container);
  }

  // ----- loading

  datatype Store = Inventory | Depot | Inbox

  /** Where a row's item goes: to a slot, a depot chest or the inbox, or inside the item with a row number. */
  datatype Place = Root(key: int) | Inside(sid: int)

  function PlaceOf(store: Store, pid: int): Place {
    match store
    case Inventory => if 1 <= pid <= 10 then Root(pid) else Inside(pid)
    case Depot => if 0 <= pid < 100 then Root(pid) else Inside(pid)
    case Inbox => if 0 <= pid < 100 then Root(0) else Inside(pid)
  }

  /** An item made from a row. */
  datatype Entry = Entry(sid: int, pid: int, item: Item)

  ghost function Under(store: Store, entries: seq<Entry>, place: Place): seq<Item> {
    if entries == [] then []
    else (if PlaceOf(store, entries[0].pid) == place then [entries[0].item] else []) + Under(store, entries[1..], place)
  }

  /** A slot holds one item only, and the first to come, the one with the highest row number, stays. */
  ghost function Kept(store: Store, items: seq<Item>): seq<Item> {
    if store == Inventory && items != [] then [items[|items| - 1]] else items
  }

  function AtKey(roots: map<int, seq<Item>>, key: int): seq<Item> {
    if key in roots then roots[key] else []
  }

  ghost predicate HasSid(rows: seq<Row>, sid: int) {
    exists r :: r in rows && r.sid == sid
  }

  ghost function LastRow(rows: seq<Row>, sid: int): (r: Row)
    requires HasSid(rows, sid)
    ensures r in rows && r.sid == sid
  {
    var last := rows[|rows| - 1];
    if last.sid == sid then last else
      assert forall r :: r in rows && r != last ==> r in rows[..|rows| - 1];
      LastRow(rows[..|rows| - 1], sid)
  }

  ghost predicate HasData(x: Item, thing: Thing)
    reads x`kind, x`count
  {
    && x.kind == thing.kind && x.count == thing.count
    && x.isContainer == thing.isContainer && x.capacity == thing.capacity && x.unlocked == thing.unlocked
  }

  ghost predicate Ascending(entries: seq<Entry>) {
    forall i, j :: 0 <= i < j < |entries| ==> entries[i].sid < entries[j].sid
  }

  ghost predicate HasEntry(entries: seq<Entry>, sid: int) {
    exists i :: 0 <= i < |entries| && entries[i].sid == sid
  }

  /** Every row number has one entry, made from the last row with that number. */
  ghost predicate MadeFrom(rows: seq<Row>, entries: seq<Entry>, items: set<Item>)
    reads items
  {
    && Ascending(entries)
    && (forall e :: e in entries ==>
          e.item in items && HasSid(rows, e.sid)
          && e.pid == LastRow(rows, e.sid).pid && HasData(e.item, LastRow(rows, e.sid).thing))
    && (forall r :: r in rows ==> HasEntry(entries, r.sid))
  }

  /** Every container made from a row holds the items whose rows name it, in the order of their numbers. */
  ghost predicate Nested(store: Store, entries: seq<Entry>)
    reads set e | e in entries :: e.item
  {
    forall e :: e in entries ==>
      e.item.itemlist == if e.item.isContainer then Under(store, entries, Inside(e.sid)) else []
  }

  ghost predicate Rooted(store: Store, entries: seq<Entry>, roots: map<int, seq<Item>>) {
    forall k :: AtKey(roots, k) == Kept(store, Under(store, entries, Root(k)))
  }

  /** What loading makes of any rows. */
  ghost predicate Rebuilt(store: Store, rows: seq<Row>, entries: seq<Entry>, roots: map<int, seq<Item>>,
                          items: set<Item>)
    reads items, set e | e in entries :: e.item
  {
    MadeFrom(rows, entries, items) && Nested(store, entries) && Rooted(store, entries, roots)
  }

  ghost function Made(itemMap: map<int, (Item, int)>): set<Item> {
    set s | s in itemMap :: itemMap[s].0
  }

  /** The map holds a different item for every row number, as the last row with that number says. */
  ghost predicate FromRows(rows: seq<Row>, itemMap: map<int, (Item, int)>)
    reads Made(itemMap)`kind, Made(itemMap)`count
  {
    && (forall s :: s in itemMap <==> HasSid(rows, s))
    && (forall s :: s in itemMap ==>
          itemMap[s].1 == LastRow(rows, s).pid && HasData(itemMap[s].0, LastRow(rows, s).thing))
    && Distinct(itemMap)
  }

  ghost predicate Distinct(itemMap: map<int, (Item, int)>) {
    forall s, t :: s in itemMap && t in itemMap && s != t ==> itemMap[s].0 != itemMap[t].0
  }

  ghost predicate Bare(itemMap: map<int, (Item, int)>)
    reads Made(itemMap)`parent, Made(itemMap)`itemlist
  {
    forall s :: s in itemMap ==> itemMap[s].0.parent == null && itemMap[s].0.itemlist == []
  }

  /** IOLoginData::loadItems: the items by row number, not yet put anywhere. */
  method LoadItems(w: World, rows: seq<Row>) returns (itemMap: map<int, (Item, int)>)
    requires w.Valid()
    modifies w`items, w`rank
    ensures w.Valid() && old(w.items) <= w.items && fresh(w.items - old(w.items))
    ensures FromRows(rows, itemMap) && fresh(Made(itemMap)) && Made(itemMap) <= w.items
    ensures Bare(itemMap)
  {
    itemMap := map[];
    for i := 0 to |rows|
      invariant w.Valid() && old(w.items) <= w.items && fresh(w.items - old(w.items))
      invariant FromRows(rows[..i], itemMap) && fresh(Made(itemMap)) && Made(itemMap) <= w.items
      invariant Bare(itemMap)
    {
      var row := rows[i];
      ghost var before := Made(itemMap);
      assert forall s :: s in itemMap ==> itemMap[s].0 in before;
      var item := w.CreateItem(row.thing.kind, row.thing.count, row.thing.isContainer, row.thing.capacity,
                               row.thing.unlocked);
      OneMoreItem(rows, i, itemMap, item);
      itemMap := itemMap[row.sid := (item, row.pid)];
    }
    assert rows[..|rows|] == rows;
  }

  lemma {:induction false} OneMoreItem(rows: seq<Row>, i: nat, itemMap: map<int, (Item, int)>, item: Item)
    requires i < |rows| && FromRows(rows[..i], itemMap) && item !in Made(itemMap) && HasData(item, rows[i].thing)
    ensures FromRows(rows[..i + 1], itemMap[rows[i].sid := (item, rows[i].pid)])
    ensures Made(itemMap[rows[i].sid := (item, rows[i].pid)]) <= Made(itemMap) + {item}
  {
    OneMoreRow(rows, i);
  }

  lemma {:induction false} OneMoreRow(rows: seq<Row>, i: nat)
    requires i < |rows|
    ensures forall s :: HasSid(rows[..i + 1], s) <==> s == rows[i].sid || HasSid(rows[..i], s)
    ensures forall s :: HasSid(rows[..i + 1], s) ==>
              LastRow(rows[..i + 1], s) == if s == rows[i].sid then rows[i] else LastRow(rows[..i], s)
  {
    var more := rows[..i + 1];
    assert more[..|more| - 1] == rows[..i] && more[|more| - 1] == rows[i];
    assert forall r :: r in more <==> r == rows[i] || r in rows[..i];
    forall s
      ensures HasSid(more, s) <==> s == rows[i].sid || HasSid(rows[..i], s)
      ensures HasSid(more, s) ==> LastRow(more, s) == if s == rows[i].sid then rows[i] else LastRow(rows[..i], s)
    {
      if HasSid(rows[..i], s) {
        var r :| r in rows[..i] && r.sid == s;
        assert r in more;
      }
    }
  }

  lemma {:induction false} Highest(keys: set<int>) returns (top: int)
    requires keys != {}
    ensures top in keys && forall k :: k in keys ==> k <= top
    decreases keys
  {
    if forall k :: k !in keys {
      assert false;
    }
    top :| top in keys;
    var some := top;
    if keys != {some} {
      var rest := Highest(keys - {some});
      top := if rest > some then rest else some;
      assert forall k :: k in keys ==> k == some || k in keys - {some};
    } else {
      assert forall k :: k in keys ==> k == some;
    }
  }

  /** The rows above all those left have been put away, as entries says. */
  ghost predicate Counted(itemMap: map<int, (Item, int)>, left: set<int>, entries: seq<Entry>) {
    && left <= itemMap.Keys && Ascending(entries)
    && (forall e :: e in entries ==> e.sid in itemMap && itemMap[e.sid] == (e.item, e.pid))
    && (forall e, s :: e in entries && s in left ==> s < e.sid)
    && (forall s :: s in itemMap.Keys - left ==> HasEntry(entries, s))
  }

  ghost predicate Filled(store: Store, itemMap: map<int, (Item, int)>, entries: seq<Entry>)
    reads Made(itemMap)`itemlist
  {
    forall s :: s in itemMap ==>
      itemMap[s].0.itemlist == if itemMap[s].0.isContainer then Under(store, entries, Inside(s)) else []
  }

  ghost predicate Loose(itemMap: map<int, (Item, int)>, left: set<int>)
    requires left <= itemMap.Keys
    reads Made(itemMap)`parent
  {
    forall s :: s in left ==> itemMap[s].0.parent == null
  }

  /** The last row with the number s names the number of a container. */
  ghost predicate InContainer(store: Store, rows: seq<Row>, s: int)
    requires HasSid(rows, s)
  {
    var pid := LastRow(rows, s).pid;
    PlaceOf(store, pid).Inside? && HasSid(rows, pid) && LastRow(rows, pid).thing.isContainer
  }

  /** The parent numbers never lead back to where they started: order falls from a row to its container. */
  ghost predicate Ordered(store: Store, rows: seq<Row>, order: int -> nat) {
    forall s :: HasSid(rows, s) && InContainer(store, rows, s) ==> order(LastRow(rows, s).pid) < order(s)
  }

  ghost predicate PutInto(store: Store, itemMap: map<int, (Item, int)>, s: int)
    requires s in itemMap
  {
    var pid := itemMap[s].1;
    PlaceOf(store, pid).Inside? && pid in itemMap && itemMap[pid].0.isContainer
  }

  ghost predicate MapOrdered(store: Store, itemMap: map<int, (Item, int)>, order: int -> nat) {
    forall s :: s in itemMap && PutInto(store, itemMap, s) ==> order(itemMap[s].1) < order(s)
  }

  /** Whatever has been put into a container is in the one its row names. */
  ghost predicate Attached(store: Store, itemMap: map<int, (Item, int)>)
    reads Made(itemMap)`parent
  {
    forall s :: s in itemMap && itemMap[s].0.parent != null ==>
      PutInto(store, itemMap, s) && itemMap[s].0.parent == itemMap[itemMap[s].1].0
  }

  /** An item is only ever inside items of a lower order. */
  lemma {:induction false} HolderIsLower(w: World, store: Store, itemMap: map<int, (Item, int)>, order: int -> nat,
                                         s: int, p: int)
    requires w.Valid() && Made(itemMap) <= w.items && Distinct(itemMap)
    requires MapOrdered(store, itemMap, order) && Attached(store, itemMap)
    requires s in itemMap && p in itemMap && w.Holds(itemMap[s].0, itemMap[p].0)
    ensures order(s) <= order(p)
    decreases w.rank[itemMap[p].0]
  {
    if s != p {
      assert itemMap[p].0.parent != null;
      HolderIsLower(w, store, itemMap, order, s, itemMap[p].1);
    }
  }

  /**
   The rebuild loops of IOLoginData::loadPlayer, from the highest row number down. They link the items
   into a forest whenever the parent numbers of the rows do not lead back to where they started.
   */
  method LoadStore(w: World, store: Store, rows: seq<Row>, ghost order: int -> nat)
    returns (roots: map<int, seq<Item>>, ghost entries: seq<Entry>)
    requires w.Valid() && Ordered(store, rows, order)
    modifies w`items, w`rank, w.items`totalWeight
    ensures w.Valid() && old(w.items) <= w.items && Rebuilt(store, rows, entries, roots, w.items)
    ensures forall e :: e in entries ==> fresh(e.item)
  {
    var itemMap := LoadItems(w, rows);
    forall s | s in itemMap && PutInto(store, itemMap, s) ensures order(itemMap[s].1) < order(s) {
      assert InContainer(store, rows, s);
    }
    roots, entries := PutAllAway(w, store, itemMap, order);
    AllPutAway(store, rows, itemMap, entries, roots, w.items);
  }

  ghost function EntryOf(entries: seq<Entry>, s: int): (e: Entry)
    requires HasEntry(entries, s)
    ensures e in entries && e.sid == s
  {
    var i :| 0 <= i < |entries| && entries[i].sid == s;
    entries[i]
  }

  /** How deep the item with the row number s lies. */
  ghost function DepthOf(rank: map<Item, nat>, entries: seq<Entry>, s: int): nat {
    if HasEntry(entries, s) && EntryOf(entries, s).item in rank then rank[EntryOf(entries, s).item] else 0
  }

  /** Rows can be rebuilt in a valid world only if their parent numbers never lead back to where they started. */
  lemma {:induction false} RebuiltIsOrdered(w: World, store: Store, rows: seq<Row>, entries: seq<Entry>,
                                            roots: map<int, seq<Item>>)
    returns (order: int -> nat)
    requires w.Valid() && Rebuilt(store, rows, entries, roots, w.items)
    ensures Ordered(store, rows, order)
  {
    var rank := w.rank;
    order := (s: int) => DepthOf(rank, entries, s);
    forall s | HasSid(rows, s) && InContainer(store, rows, s)
      ensures order(LastRow(rows, s).pid) < order(s)
    {
      RowIsDeeper(w, store, rows, entries, s);
    }
  }

  lemma {:induction false} RowIsDeeper(w: World, store: Store, rows: seq<Row>, entries: seq<Entry>, s: int)
    requires w.Valid() && MadeFrom(rows, entries, w.items) && Nested(store, entries)
    requires HasSid(rows, s) && InContainer(store, rows, s)
    ensures DepthOf(w.rank, entries, LastRow(rows, s).pid) < DepthOf(w.rank, entries, s)
  {
    var pid := LastRow(rows, s).pid;
    assert HasEntry(entries, LastRow(rows, s).sid) && HasEntry(entries, LastRow(rows, pid).sid);
    HeldIsDeeper(w, store, rows, entries, EntryOf(entries, s), EntryOf(entries, pid));
  }

  lemma {:induction false} HeldIsDeeper(w: World, store: Store, rows: seq<Row>, entries: seq<Entry>, e: Entry, c: Entry)
    requires w.Valid() && MadeFrom(rows, entries, w.items) && Nested(store, entries)
    requires e in entries && c in entries && c.sid == e.pid && PlaceOf(store, e.pid).Inside? && c.item.isContainer
    ensures w.rank[c.item] < w.rank[e.item]
  {
    InUnder(store, entries, e);
    assert e.item in c.item.itemlist;
  }

  lemma {:induction false} InUnder(store: Store, entries: seq<Entry>, e: Entry)
    requires e in entries
    ensures e.item in Under(store, entries, PlaceOf(store, e.pid))
  {
    if e != entries[0] {
      InUnder(store, entries[1..], e);
    }
  }

  method PutAllAway(w: World, store: Store, itemMap: map<int, (Item, int)>, ghost order: int -> nat)
    returns (roots: map<int, seq<Item>>, ghost entries: seq<Entry>)
    requires w.Valid() && Made(itemMap) <= w.items && Distinct(itemMap)
    requires Bare(itemMap) && MapOrdered(store, itemMap, order)
    modifies w`rank, w.items`totalWeight, Made(itemMap)`itemlist, Made(itemMap)`parent
    ensures w.Valid() && Counted(itemMap, {}, entries)
    ensures Filled(store, itemMap, entries) && Rooted(store, entries, roots)
  {
    roots, entries := map[], [];
    var left := itemMap.Keys;
    while left != {}
      invariant w.Valid() && Counted(itemMap, left, entries) && Loose(itemMap, left) && Attached(store, itemMap)
      invariant Filled(store, itemMap, entries) && Rooted(store, entries, roots)
      decreases left
    {
      ghost var top := Highest(left);
      var sid :| sid in left && forall s :: s in left ==> s <= sid;
      roots, entries := PutAway(w, store, itemMap, order, left, sid, entries, roots);
      left := left - {sid};
    }
  }

  lemma {:induction false} AllPutAway(store: Store, rows: seq<Row>, itemMap: map<int, (Item, int)>,
                                      entries: seq<Entry>, roots: map<int, seq<Item>>, items: set<Item>)
    requires FromRows(rows, itemMap) && Counted(itemMap, {}, entries) && Made(itemMap) <= items
    requires Filled(store, itemMap, entries) && Rooted(store, entries, roots)
    ensures Rebuilt(store, rows, entries, roots, items)
    ensures forall e :: e in entries ==> e.item in Made(itemMap)
  {
    forall r | r in rows
      ensures HasEntry(entries, r.sid)
    {
      assert HasSid(rows, r.sid);
      assert r.sid in itemMap.Keys - {};
    }
  }

  lemma {:induction false} Pushed(itemMap: map<int, (Item, int)>, entries: seq<Entry>, e: Entry, left: set<int>)
    requires Counted(itemMap, left, entries)
    requires e.sid in left && itemMap[e.sid] == (e.item, e.pid) && forall s :: s in left ==> s <= e.sid
    ensures Counted(itemMap, left - {e.sid}, [e] + entries)
  {
    var more := [e] + entries;
    forall i, j | 0 <= i < j < |more| ensures more[i].sid < more[j].sid {
      assert more[j] == entries[j - 1] && entries[j - 1] in entries;
    }
    forall s | s in itemMap.Keys - (left - {e.sid}) ensures HasEntry(more, s) {
      if s == e.sid {
        assert more[0].sid == s;
      } else {
        assert s in itemMap.Keys - left && HasEntry(entries, s);
        var i :| 0 <= i < |entries| && entries[i].sid == s;
        assert more[i + 1].sid == s;
      }
    }
  }

  /** Puts one item into its slot, depot chest, inbox or container, or nowhere if that does not exist. */
  method PutAway(w: World, store: Store, itemMap: map<int, (Item, int)>, ghost order: int -> nat, ghost left: set<int>,
                 sid: int, ghost entries: seq<Entry>, roots: map<int, seq<Item>>)
    returns (roots': map<int, seq<Item>>, ghost entries': seq<Entry>)
    requires w.Valid() && Made(itemMap) <= w.items && Distinct(itemMap)
    requires Counted(itemMap, left, entries) && Loose(itemMap, left) && sid in left
             && forall s :: s in left ==> s <= sid
    requires Filled(store, itemMap, entries) && Rooted(store, entries, roots)
    requires MapOrdered(store, itemMap, order) && Attached(store, itemMap)
    modifies w`rank, w.items`totalWeight, Made(itemMap)`itemlist, {itemMap[sid].0}`parent
    ensures w.Valid()
    ensures Counted(itemMap, left - {sid}, entries') && Loose(itemMap, left - {sid}) && Attached(store, itemMap)
    ensures Filled(store, itemMap, entries') && Rooted(store, entries', roots')
  {
    var (item, pid) := itemMap[sid];
    ghost var e := Entry(sid, pid, item);
    roots', entries' := roots, [e] + entries;
    Pushed(itemMap, entries, e, left);
    var place := PlaceOf(store, pid);
    if place.Root? {
      if store != Inventory || AtKey(roots, place.key) == [] {
        roots' := roots[place.key := [item] + AtKey(roots, place.key)];
      }
      RootedPushed(store, entries, e, roots);
      FilledBeside(store, itemMap, entries, e);
    } else {
      ghost var lists := map s | s in itemMap :: itemMap[s].0.itemlist;
      PutInside(w, store, itemMap, order, sid);
      FilledPushed(store, itemMap, entries, e, lists);
      RootedBeside(store, entries, e, roots);
    }
  }

  method PutInside(w: World, store: Store, itemMap: map<int, (Item, int)>, ghost order: int -> nat, sid: int)
    requires w.Valid() && Made(itemMap) <= w.items && Distinct(itemMap)
    requires MapOrdered(store, itemMap, order) && Attached(store, itemMap)
    requires sid in itemMap && itemMap[sid].0.parent == null && PlaceOf(store, itemMap[sid].1).Inside?
    modifies w`rank, w.items`totalWeight, Made(itemMap)`itemlist, {itemMap[sid].0}`parent
    ensures w.Valid() && Attached(store, itemMap)
    ensures forall s :: s in itemMap ==>
              itemMap[s].0.itemlist
              == (if s == itemMap[sid].1 && itemMap[s].0.isContainer then [itemMap[sid].0] else [])
                 + old(itemMap[s].0.itemlist)
  {
    var (item, pid) := itemMap[sid];
    if pid in itemMap {
      var container := itemMap[pid].0;
      if container.isContainer {
        if w.Holds(item, container) {
          HolderIsLower(w, store, itemMap, order, sid, pid);
          assert false;
        }
        w.InternalAddThing(container, item);
      }
    }
  }

  lemma {:induction false} RootedPushed(store: Store, entries: seq<Entry>, e: Entry, roots: map<int, seq<Item>>)
    requires Rooted(store, entries, roots) && PlaceOf(store, e.pid).Root?
    ensures var key := PlaceOf(store, e.pid).key;
            var more := [e] + entries;
            if store != Inventory || AtKey(roots, key) == []
              then Rooted(store, more, roots[key := [e.item] + AtKey(roots, key)])
            else Rooted(store, more, roots)
  {
    var key := PlaceOf(store, e.pid).key;
    var more := [e] + entries;
    var roots' := if store != Inventory || AtKey(roots, key) == [] then roots[key := [e.item] + AtKey(roots, key)]
      else roots;
    forall k
      ensures AtKey(roots', k) == Kept(store, Under(store, more, Root(k)))
    {
      UnderPushed(store, entries, e, Root(k));
      assert AtKey(roots, k) == Kept(store, Under(store, entries, Root(k)));
    }
  }

  lemma {:induction false} RootedBeside(store: Store, entries: seq<Entry>, e: Entry, roots: map<int, seq<Item>>)
    requires Rooted(store, entries, roots) && PlaceOf(store, e.pid).Inside?
    ensures Rooted(store, [e] + entries, roots)
  {
    forall k
      ensures AtKey(roots, k) == Kept(store, Under(store, [e] + entries, Root(k)))
    {
      UnderPushed(store, entries, e, Root(k));
      assert AtKey(roots, k) == Kept(store, Under(store, entries, Root(k)));
    }
  }

  lemma {:induction false} FilledBeside(store: Store, itemMap: map<int, (Item, int)>, entries: seq<Entry>, e: Entry)
    requires Filled(store, itemMap, entries) && PlaceOf(store, e.pid).Root?
    ensures Filled(store, itemMap, [e] + entries)
  {
    forall s | s in itemMap
      ensures Under(store, [e] + entries, Inside(s)) == Under(store, entries, Inside(s))
    {
      UnderPushed(store, entries, e, Inside(s));
    }
  }

  /** The container with the row number e.pid, if there is one, has the new item in front, and no other list changed. */
  lemma {:induction false} FilledPushed(store: Store, itemMap: map<int, (Item, int)>, entries: seq<Entry>, e: Entry,
                                        lists: map<int, seq<Item>>)
    requires PlaceOf(store, e.pid) == Inside(e.pid) && lists.Keys == itemMap.Keys
    requires forall s :: s in itemMap ==>
               lists[s] == if itemMap[s].0.isContainer then Under(store, entries, Inside(s)) else []
    requires forall s :: s in itemMap ==>
               itemMap[s].0.itemlist == (if s == e.pid && itemMap[s].0.isContainer then [e.item] else []) + lists[s]
    ensures Filled(store, itemMap, [e] + entries)
  {
    forall s | s in itemMap
      ensures Under(store, [e] + entries, Inside(s))
              == (if s == e.pid then [e.item] else []) + Under(store, entries, Inside(s))
    {
      UnderPushed(store, entries, e, Inside(s));
    }
  }

  lemma {:induction false} UnderPushed(store: Store, entries: seq<Entry>, e: Entry, place: Place)
    ensures Under(store, [e] + entries, place)
            == (if PlaceOf(store, e.pid) == place then [e.item] else []) + Under(store, entries, place)
  {
    assert ([e] + entries)[1..] == entries;
  }

  // ----- what saving and loading together do

  /** The linked item o, with everything inside it, is the tree t. */
  ghost predicate Represents(items: set<Item>, o: Item, t: Tree<Thing>)
    reads items
    decreases t
  {
    && o in items && HasData(o, t.data) && |o.itemlist| == |t.kids|
    && forall i :: 0 <= i < |t.kids| ==> Represents(items, o.itemlist[i], t.kids[i])
  }

  ghost predicate AllRepresent(items: set<Item>, os: seq<Item>, ts: seq<Tree<Thing>>)
    reads items
  {
    |os| == |ts| && forall i :: 0 <= i < |ts| ==> Represents(items, os[i], ts[i])
  }

  /** The nodes whose parent column is id, in order. */
  ghost function Pick<T>(ids: seq<int>, nodes: seq<T>, id: int): seq<T>
    requires |ids| == |nodes|
    decreases |ids|
  {
    if ids == [] then [] else (if ids[0] == id then [nodes[0]] else []) + Pick(ids[1..], nodes[1..], id)
  }

  /** Every slot, depot and the inbox hold the same item trees in the same order as the saved list. */
  ghost predicate Restored(list: seq<(int, Tree<Thing>)>, roots: map<int, seq<Item>>, items: set<Item>)
    reads items
  {
    forall k :: AllRepresent(items, AtKey(roots, k), Pick(RootIds(list), Trees(list), k))
  }

  /** The numbers the saved list may use: slots once each, depots, or 0 for the inbox. */
  ghost predicate LegalRoots(store: Store, list: seq<(int, Tree<Thing>)>) {
    match store
    case Inventory =>
      (forall i :: 0 <= i < |list| ==> 1 <= list[i].0 <= 10)
        && forall i, j :: 0 <= i < j < |list| ==> list[i].0 != list[j].0
    case Depot => forall i :: 0 <= i < |list| ==> 0 <= list[i].0 < 100
    case Inbox => forall i :: 0 <= i < |list| ==> list[i].0 == 0
  }

  lemma {:induction false} PickConcat<T>(ids: seq<int>, nodes: seq<T>, ids': seq<int>, nodes': seq<T>, id: int)
    requires |ids| == |nodes| && |ids'| == |nodes'|
    ensures Pick(ids + ids', nodes + nodes', id) == Pick(ids, nodes, id) + Pick(ids', nodes', id)
    decreases |ids|
  {
    if ids == [] {
      assert ids + ids' == ids' && nodes + nodes' == nodes';
    } else {
      var first := if ids[0] == id then [nodes[0]] else [];
      assert (ids + ids')[1..] == ids[1..] + ids' && (nodes + nodes')[1..] == nodes[1..] + nodes';
      PickConcat(ids[1..], nodes[1..], ids', nodes', id);
      assert Pick(ids + ids', nodes + nodes', id) == first + Pick(ids[1..] + ids', nodes[1..] + nodes', id);
      assert Pick(ids, nodes, id) == first + Pick(ids[1..], nodes[1..], id);
    }
  }

  lemma {:induction false} PickNone<T>(ids: seq<int>, nodes: seq<T>, id: int)
    requires |ids| == |nodes| && id !in ids
    ensures Pick(ids, nodes, id) == []
    decreases |ids|
  {
    if ids != [] {
      PickNone(ids[1..], nodes[1..], id);
    }
  }

  lemma {:induction false} PickRepeated<T>(id: int, nodes: seq<T>)
    ensures Pick(Repeated(id, |nodes|), nodes, id) == nodes
    decreases |nodes|
  {
    if nodes != [] {
      assert Repeated(id, |nodes|)[1..] == Repeated(id, |nodes[1..]|);
      PickRepeated(id, nodes[1..]);
    }
  }

  lemma {:induction false} ParentIdsRange(ts: seq<Tree<Thing>>, id: int)
    ensures forall p :: p in ParentIds(ts, id) ==> id <= p < id + |ts|
    decreases |ts|
  {
    if ts != [] {
      ParentIdsRange(ts[1..], id + 1);
    }
  }

  /** The rows with the number of a node in the parent column are exactly what is inside that node, in order. */
  lemma {:induction false} PickKids(ts: seq<Tree<Thing>>, id: int, k: nat)
    requires k < |ts|
    ensures Pick(ParentIds(ts, id), Kids(ts), id + k) == ts[k].kids
    decreases |ts|
  {
    PickConcat(Repeated(id, |ts[0].kids|), ts[0].kids, ParentIds(ts[1..], id + 1), Kids(ts[1..]), id + k);
    ParentIdsRange(ts[1..], id + 1);
    if k == 0 {
      PickRepeated(id, ts[0].kids);
      PickNone(ParentIds(ts[1..], id + 1), Kids(ts[1..]), id);
    } else {
      PickNone(Repeated(id, |ts[0].kids|), ts[0].kids, id + k);
      PickKids(ts[1..], id + 1, k - 1);
    }
  }

  /** The entries belong to the rows one by one. */
  ghost predicate Matched(entries: seq<Entry>, rows: seq<Row>, items: set<Item>)
    reads items
  {
    && |entries| == |rows|
    && forall i :: 0 <= i < |rows| ==>
         entries[i].sid == rows[i].sid && entries[i].pid == rows[i].pid
         && entries[i].item in items && HasData(entries[i].item, rows[i].thing)
  }

  lemma {:induction false} Consecutive(entries: seq<Entry>, from: int, n: nat, i: nat)
    requires Ascending(entries) && forall e :: e in entries ==> from <= e.sid < from + n
    requires forall k :: from <= k < from + n ==> HasEntry(entries, k)
    requires i < n
    ensures i < |entries| && entries[i].sid == from + i
    decreases i
  {
    assert HasEntry(entries, from + i);
    var j :| 0 <= j < |entries| && entries[j].sid == from + i;
    if i == 0 {
      assert entries[0] in entries;
      Later(entries, 0, j);
    } else {
      Consecutive(entries, from, n, i - 1);
      Later(entries, i - 1, j);
      assert entries[i - 1].sid < entries[i].sid;
      Later(entries, i, j);
    }
  }

  lemma {:induction false} Later(entries: seq<Entry>, i: nat, j: nat)
    requires Ascending(entries) && i < |entries| && j < |entries|
    ensures i < j <==> entries[i].sid < entries[j].sid
  {
    if i >= j {
      assert i > j ==> entries[j].sid < entries[i].sid;
    }
  }

  lemma {:induction false} SameRows(back: seq<Row>, rows: seq<Row>)
    requires multiset(back) == multiset(rows)
    ensures forall r :: r in back <==> r in rows
  {
    assert forall r :: r in back <==> r in multiset(back);
    assert forall r :: r in rows <==> r in multiset(rows);
  }

  /** Rows that come back in any order lead to the same entries. */
  lemma {:induction false} AnyOrder(rows: seq<Row>, back: seq<Row>, entries: seq<Entry>, items: set<Item>)
    requires forall i :: 0 <= i < |rows| ==> rows[i].sid == FIRST_ID + i
    requires multiset(back) == multiset(rows) && MadeFrom(back, entries, items)
    ensures Matched(entries, rows, items)
  {
    SameRows(back, rows);
    Numbered(rows, back, entries, items);
    forall i | 0 <= i < |rows|
      ensures LastRow(back, entries[i].sid) == rows[i] && entries[i] in entries
    {
      assert HasSid(back, entries[i].sid);
      var r := LastRow(back, entries[i].sid);
      assert r in rows;
    }
  }

  lemma {:induction false} Numbered(rows: seq<Row>, back: seq<Row>, entries: seq<Entry>, items: set<Item>)
    requires forall i :: 0 <= i < |rows| ==> rows[i].sid == FIRST_ID + i
    requires MadeFrom(back, entries, items) && forall r :: r in back <==> r in rows
    ensures |entries| == |rows| && forall i :: 0 <= i < |rows| ==> entries[i].sid == FIRST_ID + i
  {
    forall e | e in entries ensures FIRST_ID <= e.sid < FIRST_ID + |rows| {
      assert HasSid(back, e.sid);
      assert LastRow(back, e.sid) in rows;
    }
    forall k | FIRST_ID <= k < FIRST_ID + |rows| ensures HasEntry(entries, k) {
      assert rows[k - FIRST_ID] in back;
    }
    forall i | 0 <= i < |rows|
      ensures i < |entries| && entries[i].sid == FIRST_ID + i
    {
      Consecutive(entries, FIRST_ID, |rows|, i);
    }
    if |rows| > 0 {
      Consecutive(entries, FIRST_ID, |rows|, |rows| - 1);
    }
    if |entries| > 0 {
      var last := entries[|entries| - 1];
      assert last in entries && HasEntry(entries, last.sid);
      Consecutive(entries, FIRST_ID, |rows|, last.sid - FIRST_ID);
      Later(entries, last.sid - FIRST_ID, |entries| - 1);
    }
  }

  lemma {:induction false} UnderIsPick(store: Store, entries: seq<Entry>, place: Place, pids: seq<int>,
                                       nodes: seq<Tree<Thing>>, id: int, items: set<Item>)
    requires |entries| == |pids| == |nodes|
    requires forall i :: 0 <= i < |pids| ==>
               entries[i].pid == pids[i] && (PlaceOf(store, pids[i]) == place <==> pids[i] == id)
    requires forall i :: 0 <= i < |pids| && pids[i] == id ==> Represents(items, entries[i].item, nodes[i])
    ensures AllRepresent(items, Under(store, entries, place), Pick(pids, nodes, id))
    decreases |pids|
  {
    if pids != [] {
      UnderIsPick(store, entries[1..], place, pids[1..], nodes[1..], id, items);
    }
  }

  lemma {:induction false} LegalBelow(store: Store, list: seq<(int, Tree<Thing>)>)
    requires LegalRoots(store, list)
    ensures forall id :: id in RootIds(list) ==> 0 <= id < FIRST_ID && PlaceOf(store, id) == Root(id)
  {
  }

  /** The rows that name node k are those of what is directly inside it, and they come later. */
  lemma {:induction false} KidsOfNode(store: Store, list: seq<(int, Tree<Thing>)>, rows: seq<Row>,
                                      nodes: seq<Tree<Thing>>, k: nat)
    requires Encodes(list, rows, nodes) && LegalRoots(store, list) && k < |nodes|
    ensures Pick(Pids(list, nodes), nodes, FIRST_ID + k) == nodes[k].kids
    ensures forall i :: 0 <= i < |nodes| && rows[i].pid == FIRST_ID + k ==> i > k
  {
    var id := FIRST_ID + k;
    LegalBelow(store, list);
    PickConcat(RootIds(list), Trees(list), ParentIds(nodes, FIRST_ID), Kids(nodes), id);
    PickNone(RootIds(list), Trees(list), id);
    PickKids(nodes, FIRST_ID, k);
    forall i | 0 <= i < |list| ensures rows[i].pid != id {
      assert rows[i] == Row(Pids(list, nodes)[i], FIRST_ID + i, nodes[i].data);
      assert rows[i].pid == RootIds(list)[i] && RootIds(list)[i] in RootIds(list);
    }
    forall i | |list| <= i < |nodes| && rows[i].pid == id ensures i > k {
      assert rows[i] == Row(Pids(list, nodes)[i], FIRST_ID + i, nodes[i].data);
    }
  }

  lemma {:induction false} EntryOfNode(store: Store, list: seq<(int, Tree<Thing>)>, rows: seq<Row>,
                                       nodes: seq<Tree<Thing>>, entries: seq<Entry>, items: set<Item>, k: nat)
    requires Encodes(list, rows, nodes) && Matched(entries, rows, items) && Nested(store, entries) && k < |nodes|
    ensures entries[k].item in items && HasData(entries[k].item, nodes[k].data)
    ensures entries[k].item.itemlist == if nodes[k].isContainer then Under(store, entries, Inside(FIRST_ID + k)) else []
    ensures !nodes[k].isContainer ==> nodes[k].kids == []
  {
    assert nodes[k] in nodes && entries[k] in entries
           && rows[k] == Row(Pids(list, nodes)[k], FIRST_ID + k, nodes[k].data);
  }

  /** What was saved as one node comes back as that tree. */
  lemma {:induction false} NodeRestored(store: Store, list: seq<(int, Tree<Thing>)>, rows: seq<Row>,
                                        nodes: seq<Tree<Thing>>, entries: seq<Entry>, items: set<Item>, k: nat)
    requires Encodes(list, rows, nodes) && LegalRoots(store, list)
    requires Matched(entries, rows, items) && Nested(store, entries)
    requires k < |nodes|
    ensures Represents(items, entries[k].item, nodes[k])
    decreases |nodes| - k
  {
    var pids, id := Pids(list, nodes), FIRST_ID + k;
    EntryOfNode(store, list, rows, nodes, entries, items, k);
    if nodes[k].isContainer {
      KidsOfNode(store, list, rows, nodes, k);
      forall i | 0 <= i < |pids| && pids[i] == id
        ensures Represents(items, entries[i].item, nodes[i])
      {
        assert rows[i].pid == pids[i];
        NodeRestored(store, list, rows, nodes, entries, items, i);
      }
      UnderIsPick(store, entries, Inside(id), pids, nodes, id, items);
    }
  }

  lemma {:induction false} PickLength<T>(ids: seq<int>, nodes: seq<T>, id: int)
    requires |ids| == |nodes|
    ensures |Pick(ids, nodes, id)| == multiset(ids)[id]
    decreases |ids|
  {
    if ids != [] {
      assert ids == [ids[0]] + ids[1..];
      PickLength(ids[1..], nodes[1..], id);
    }
  }

  lemma {:induction false} AtMostOne(ids: seq<int>, id: int)
    requires forall i, j :: 0 <= i < j < |ids| ==> ids[i] != ids[j]
    ensures multiset(ids)[id] <= 1
    decreases |ids|
  {
    if ids != [] {
      assert ids == [ids[0]] + ids[1..];
      if ids[0] == id {
        assert id !in ids[1..];
      } else {
        AtMostOne(ids[1..], id);
      }
    }
  }

  lemma {:induction false} AtLeastTwo(ids: seq<int>, i: nat, j: nat)
    requires i < j < |ids| && ids[i] == ids[j]
    ensures multiset(ids)[ids[i]] >= 2
  {
    assert ids == ids[..j] + ids[j..];
    assert ids[..j][i] == ids[i] && ids[j..][0] == ids[j];
    assert ids[i] in ids[..j] && ids[i] in ids[j..];
  }

  lemma {:induction false} UnderNone(store: Store, entries: seq<Entry>, place: Place)
    requires forall i :: 0 <= i < |entries| ==> PlaceOf(store, entries[i].pid) != place
    ensures Under(store, entries, place) == []
    decreases |entries|
  {
    if entries != [] {
      UnderNone(store, entries[1..], place);
    }
  }

  /** One slot, depot or the inbox comes back with what was saved for it. */
  lemma {:induction false} RootRestored(store: Store, list: seq<(int, Tree<Thing>)>, rows: seq<Row>,
                                        nodes: seq<Tree<Thing>>, entries: seq<Entry>, items: set<Item>, k: int)
    requires Encodes(list, rows, nodes) && LegalRoots(store, list)
    requires Matched(entries, rows, items) && Nested(store, entries)
    ensures AllRepresent(items, Kept(store, Under(store, entries, Root(k))), Pick(RootIds(list), Trees(list), k))
  {
    PlacesOfPids(store, list, nodes);
    var pids := Pids(list, nodes);
    forall i | 0 <= i < |nodes|
      ensures entries[i].pid == pids[i] && Represents(items, entries[i].item, nodes[i])
    {
      assert rows[i].pid == pids[i];
      NodeRestored(store, list, rows, nodes, entries, items, i);
    }
    if PlaceOf(store, k) == Root(k) {
      UnderIsPick(store, entries, Root(k), pids, nodes, k, items);
      PicksOfRoot(store, list, nodes, k);
    } else {
      LegalBelow(store, list);
      UnderNone(store, entries, Root(k));
      PickNone(RootIds(list), Trees(list), k);
    }
  }

  lemma {:induction false} PlacesOfPids(store: Store, list: seq<(int, Tree<Thing>)>, nodes: seq<Tree<Thing>>)
    requires LegalRoots(store, list)
    ensures forall pid, k :: pid in Pids(list, nodes) && PlaceOf(store, pid) == Root(k) ==> pid == k
  {
    ParentIdsRange(nodes, FIRST_ID);
    LegalBelow(store, list);
  }

  /** Only roots are in a slot, a depot or the inbox, and a slot has one at most. */
  lemma {:induction false} PicksOfRoot(store: Store, list: seq<(int, Tree<Thing>)>, nodes: seq<Tree<Thing>>, k: int)
    requires LegalRoots(store, list) && nodes == Trees(list) + Kids(nodes) && PlaceOf(store, k) == Root(k)
    ensures Pick(Pids(list, nodes), nodes, k) == Pick(RootIds(list), Trees(list), k)
    ensures store == Inventory ==> |Pick(RootIds(list), Trees(list), k)| <= 1
  {
    ParentIdsRange(nodes, FIRST_ID);
    PickConcat(RootIds(list), Trees(list), ParentIds(nodes, FIRST_ID), Kids(nodes), k);
    PickNone(ParentIds(nodes, FIRST_ID), Kids(nodes), k);
    PickLength(RootIds(list), Trees(list), k);
    if store == Inventory {
      AtMostOne(RootIds(list), k);
    }
  }

  function ByNumber(sid: int): nat {
    if sid < 0 then 0 else sid
  }

  /** What was saved meets what loading asks for: an item's container has the lower number. */
  lemma {:induction false} SavedRowsCanBeLoaded(store: Store, list: seq<(int, Tree<Thing>)>, rows: seq<Row>,
                                                nodes: seq<Tree<Thing>>, back: seq<Row>)
    requires Encodes(list, rows, nodes) && LegalRoots(store, list) && multiset(back) == multiset(rows)
    ensures forall r :: r in back && PlaceOf(store, r.pid).Inside? ==> FIRST_ID <= r.pid < r.sid
    ensures Ordered(store, back, ByNumber)
  {
    SameRows(back, rows);
    LegalBelow(store, list);
    forall i | 0 <= i < |list| ensures PlaceOf(store, rows[i].pid).Root? {
      assert rows[i] == Row(Pids(list, nodes)[i], FIRST_ID + i, nodes[i].data);
      assert rows[i].pid == RootIds(list)[i] && RootIds(list)[i] in RootIds(list);
    }
  }

  /** Nothing is ever put under a number that is none of the store's. */
  lemma {:induction false} NotRestoredElsewhere(store: Store, list: seq<(int, Tree<Thing>)>, entries: seq<Entry>,
                                                roots: map<int, seq<Item>>, items: set<Item>, i: nat)
    requires Rooted(store, entries, roots) && i < |list| && PlaceOf(store, list[i].0) != Root(list[i].0)
    ensures !Restored(list, roots, items)
  {
    var id := list[i].0;
    UnderNone(store, entries, Root(id));
    assert AtKey(roots, id) == Kept(store, []);
    PickLength(RootIds(list), Trees(list), id);
    assert RootIds(list)[i] == id && id in multiset(RootIds(list));
    assert |Pick(RootIds(list), Trees(list), id)| > 0;
    assert !AllRepresent(items, AtKey(roots, id), Pick(RootIds(list), Trees(list), id));
  }

  /** A slot keeps one of two items only. */
  lemma {:induction false} NotRestoredTwice(list: seq<(int, Tree<Thing>)>, entries: seq<Entry>,
                                            roots: map<int, seq<Item>>, items: set<Item>, i: nat, j: nat)
    requires Rooted(Inventory, entries, roots) && i < j < |list| && list[i].0 == list[j].0
    ensures !Restored(list, roots, items)
  {
    var id := list[i].0;
    AtLeastTwo(RootIds(list), i, j);
    PickLength(RootIds(list), Trees(list), id);
    assert |Pick(RootIds(list), Trees(list), id)| >= 2 > |AtKey(roots, id)|;
    assert !AllRepresent(items, AtKey(roots, id), Pick(RootIds(list), Trees(list), id));
  }

  lemma {:induction false} NotRestored(store: Store, list: seq<(int, Tree<Thing>)>, entries: seq<Entry>,
                                       roots: map<int, seq<Item>>, items: set<Item>)
    requires Rooted(store, entries, roots) && !LegalRoots(store, list)
    ensures !Restored(list, roots, items)
  {
    if i: nat :| i < |list| && PlaceOf(store, list[i].0) != Root(list[i].0) {
      NotRestoredElsewhere(store, list, entries, roots, items, i);
    } else {
      assert store == Inventory;
      var i, j :| 0 <= i < j < |list| && list[i].0 == list[j].0;
      NotRestoredTwice(list, entries, roots, items, i, j);
    }
  }

  /**
   The round trip: whatever the order in which the saved rows come back, every slot, depot and the
   inbox hold the same trees in the same order as before, for exactly the lists with legal numbers.
   */
  lemma {:induction false} RoundTripIffLegal(store: Store, list: seq<(int, Tree<Thing>)>, rows: seq<Row>,
                                             back: seq<Row>, entries: seq<Entry>, roots: map<int, seq<Item>>,
                                             items: set<Item>)
    requires Encodes(list, rows, LevelOrder(Trees(list)))
    requires multiset(back) == multiset(rows) && Rebuilt(store, back, entries, roots, items)
    ensures Restored(list, roots, items) <==> LegalRoots(store, list)
  {
    if LegalRoots(store, list) {
      var nodes := LevelOrder(Trees(list));
      AnyOrder(rows, back, entries, items);
      forall k ensures AllRepresent(items, AtKey(roots, k), Pick(RootIds(list), Trees(list), k)) {
        RootRestored(store, list, rows, nodes, entries, items, k);
      }
    } else {
      NotRestored(store, list, entries, roots, items);
    }
  }

  /** The rows of a table, in whatever order the database returns them. */
  method Selected(rows: seq<Row>) returns (back: seq<Row>)
    ensures multiset(back) == multiset(rows)
  {
    back := [];
    var left := rows;
    while left != []
      invariant multiset(back) + multiset(left) == multiset(rows)
      decreases |left|
    {
      var k: nat :| k < |left|;
      assert left == left[..k] + [left[k]] + left[k + 1..];
      back, left := back + [left[k]], left[..k] + left[k + 1..];
    }
  }

  /**
   Saving items with legal roots and loading them again, whatever the order of the rows, gives the same trees
   at the same places.
   */
  method SaveAndLoad(w: World, store: Store, list: seq<(int, Tree<Thing>)>) returns (roots: map<int, seq<Item>>)
    requires w.Valid() && AllSound(Trees(list)) && LegalRoots(store, list)
    modifies w`items, w`rank, w.items`totalWeight
    ensures w.Valid() && old(w.items) <= w.items && Restored(list, roots, w.items)
  {
    var rows := SaveItems(list);
    var back := Selected(rows);
    SavedRowsCanBeLoaded(store, list, rows, LevelOrder(Trees(list)), back);
    ghost var entries;
    roots, entries := LoadStore(w, store, back, ByNumber);
    RoundTripIffLegal(store, list, rows, back, entries, roots, w.items);
  }
}
