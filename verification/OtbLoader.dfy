/**
 The OTB loader as it works on memory: nodes lie in vectors that may move when they grow, and the
 stack of the parser holds bare pointers into them. No pointer of the stack ever dangles, because the
 stack is a chain of last children and only the vector of the last node grows.
 */
module OtbLoader {
  import opened Basics
  import opened Otb

  /** A place in a vector of nodes. */
  datatype Pointer = Pointer(vector: nat, index: nat)

  /** A node in memory, with the vector that holds its children. */
  datatype Record = Record(kind: Byte, propsBegin: nat, propsEnd: Option<nat>, children: nat)

  /** The vectors there are; a pointer into any other is dead. */
  type Memory = map<nat, seq<Record>>

  // the place of the root, which is no child
  const ROOT := 0

  predicate Alive(m: Memory, p: Pointer) {
    p.vector in m && p.index < |m[p.vector]|
  }

  function At(m: Memory, p: Pointer): Record
    requires Alive(m, p)
  {
    m[p.vector][p.index]
  }

  function Put(m: Memory, p: Pointer, r: Record): Memory
    requires Alive(m, p)
  {
    m[p.vector := m[p.vector][p.index := r]]
  }

  /** currentNode.propsEnd = it, unless it has children already. */
  function Marked(m: Memory, p: Pointer, it: nat): Memory
    requires Alive(m, p) && At(m, p).children in m
  {
    if m[At(m, p).children] == [] then Put(m, p, At(m, p).(propsEnd := Some(it))) else m
  }

  /** children.emplace_back(): if the vector moves, its old place is given up and all pointers into it are dead. */
  function Grown(m: Memory, p: Pointer, moved: bool, next: nat): Memory
    requires Alive(m, p) && At(m, p).children in m
  {
    var c := At(m, p).children;
    var kids := m[c] + [Record(0, 0, None, next + 1)];
    if moved then (Put(m, p, At(m, p).(children := next)) - {c})[next := kids][next + 1 := []]
    else m[c := kids][next + 1 := []]
  }

  /** A record and what is below it say what the node says. */
  ghost predicate Represents(m: Memory, r: Record, n: Node)
    decreases n
  {
    && r.kind == n.kind && r.propsBegin == n.propsBegin && r.propsEnd == Some(n.propsEnd)
    && r.children in m && |m[r.children]| == |n.children|
    && forall i :: 0 <= i < |n.children| ==> Represents(m, m[r.children][i], n.children[i])
  }

  /** The vectors of closed nodes lead to vectors of closed nodes only. */
  ghost predicate Closed(m: Memory, frozen: set<nat>) {
    forall v :: v in frozen ==> v in m && forall i :: 0 <= i < |m[v]| ==> m[v][i].children in frozen
  }

  lemma {:induction false} RepresentsSame(m: Memory, m': Memory, frozen: set<nat>, r: Record, n: Node)
    requires Closed(m, frozen) && r.children in frozen && Represents(m, r, n)
    requires forall v :: v in frozen ==> v in m' && m'[v] == m[v]
    ensures Represents(m', r, n)
    decreases n
  {
    forall i | 0 <= i < |n.children| ensures Represents(m', m'[r.children][i], n.children[i]) {
      RepresentsSame(m, m', frozen, m[r.children][i], n.children[i]);
    }
  }

  // ----- the stack of open nodes

  /** The place of an open node: behind the closed children of the open node below it. */
  function Spot(frames: seq<Frame>, owned: seq<nat>, k: nat): Pointer
    requires k < |frames| == |owned|
  {
    if k == 0 then Pointer(ROOT, 0) else Pointer(owned[k - 1], |frames[k - 1].children|)
  }

  /** An open node is there with its closed children, and the next open node, if there is one, is its last child. */
  ghost predicate Level(m: Memory, frames: seq<Frame>, owned: seq<nat>, frozen: set<nat>, k: nat)
    requires k < |frames| == |owned|
  {
    var f, p := frames[k], Spot(frames, owned, k);
    && Alive(m, p) && At(m, p) == Record(f.kind, f.propsBegin, f.propsEnd, owned[k])
    && owned[k] in m && |m[owned[k]]| == |f.children| + (if k + 1 < |frames| then 1 else 0)
    && (forall i :: 0 <= i < |f.children| ==>
          m[owned[k]][i].children in frozen && Represents(m, m[owned[k]][i], f.children[i]))
    && (f.children != [] || k + 1 < |frames| ==> f.propsEnd.Some?)
  }

  ghost predicate Chain(m: Memory, frames: seq<Frame>, owned: seq<nat>, frozen: set<nat>) {
    && |owned| == |frames| && Closed(m, frozen)
    && ROOT in m && |m[ROOT]| == 1 && ROOT !in frozen
    && (forall k :: 0 <= k < |owned| ==> owned[k] != ROOT && owned[k] !in frozen)
    && (forall j, k :: 0 <= j < k < |owned| ==> owned[j] != owned[k])
    && forall k :: 0 <= k < |frames| ==> Level(m, frames, owned, frozen, k)
  }

  /** Every open node but the first is the last child of the one below, and all are where the stack points. */
  ghost predicate LastChildren(m: Memory, stack: seq<Pointer>) {
    && (stack != [] ==> stack[0] == Pointer(ROOT, 0))
    && (forall k :: 0 <= k < |stack| ==> Alive(m, stack[k]) && At(m, stack[k]).children in m)
    && forall k :: 0 <= k < |stack| - 1 ==>
         stack[k + 1].vector == At(m, stack[k]).children && stack[k + 1].index + 1 == |m[At(m, stack[k]).children]|
  }

  ghost predicate Spots(stack: seq<Pointer>, frames: seq<Frame>, owned: seq<nat>) {
    |stack| == |frames| == |owned| && forall k :: 0 <= k < |stack| ==> stack[k] == Spot(frames, owned, k)
  }

  lemma {:induction false} ChainIsLastChildren(m: Memory, stack: seq<Pointer>, frames: seq<Frame>, owned: seq<nat>,
                                               frozen: set<nat>)
    requires Chain(m, frames, owned, frozen) && Spots(stack, frames, owned)
    ensures LastChildren(m, stack)
  {
    forall k | 0 <= k < |stack| ensures Alive(m, stack[k]) && At(m, stack[k]).children == owned[k] && owned[k] in m {
      assert Level(m, frames, owned, frozen, k);
    }
    forall k | 0 <= k < |stack| - 1 ensures stack[k + 1].vector == owned[k] && stack[k + 1].index + 1 == |m[owned[k]]| {
      assert Level(m, frames, owned, frozen, k);
      assert stack[k + 1] == Spot(frames, owned, k + 1);
    }
  }

  // ----- opening a node

  /** Memory and owned vectors once a child of the top node is open. */
  function Opened(m: Memory, top: Pointer, it: nat, kind: Byte, moved: bool, next: nat): Memory
    requires Alive(m, top) && At(m, top).children in m && Apart(m, top, next)
  {
    var grown := Grown(Marked(m, top, it), top, moved, next);
    var v := if moved then next else At(m, top).children;
    Put(grown, Pointer(v, |m[At(m, top).children]|), Record(kind, it + 2, None, next + 1))
  }

  /** A node does not lie in its own vector of children, and numbers from next on are unused. */
  predicate Apart(m: Memory, p: Pointer, next: nat)
    requires Alive(m, p)
  {
    At(m, p).children != p.vector && forall v :: v in m ==> v < next
  }

  /** What a change of the top node leaves alone: all vectors but its own and, in the one it lies in, all but itself. */
  ghost predicate OnlyTop(m: Memory, m': Memory, top: Pointer, own: nat)
    requires Alive(m, top)
  {
    && (forall w :: w in m && w != own && w != top.vector ==> w in m' && m'[w] == m[w])
    && top.vector in m' && |m'[top.vector]| == |m[top.vector]|
    && forall i :: 0 <= i < |m[top.vector]| && i != top.index ==> m'[top.vector][i] == m[top.vector][i]
  }

  /** The levels below a change of the top stay as they are. */
  lemma {:induction false} LevelBelow(m: Memory, m': Memory, frames: seq<Frame>, frames': seq<Frame>,
                                      owned: seq<nat>, owned': seq<nat>, frozen: set<nat>, frozen': set<nat>,
                                      n: nat, k: nat)
    requires Chain(m, frames, owned, frozen) && k < n < |frames| && n <= |frames'| == |owned'| && frozen <= frozen'
    requires frames'[..n] == frames[..n] && owned'[..n] == owned[..n] && (k + 1 < |frames'| <==> k + 1 < |frames|)
    requires Level(m, frames, owned, frozen, |frames| - 1)
    requires OnlyTop(m, m', Spot(frames, owned, |frames| - 1), owned[|frames| - 1])
    ensures Level(m', frames', owned', frozen', k)
  {
    assert Level(m, frames, owned, frozen, k);
    assert frames'[k] == frames'[..n][k] == frames[k] && owned'[k] == owned'[..n][k] == owned[k];
    if k > 0 {
      assert frames'[k - 1] == frames'[..n][k - 1] == frames[k - 1]
             && owned'[k - 1] == owned'[..n][k - 1] == owned[k - 1];
    }
    assert Spot(frames', owned', k) == Spot(frames, owned, k);
    KidsBelow(m, m', frames, owned, frozen, k);
  }

  lemma {:induction false} KidsBelow(m: Memory, m': Memory, frames: seq<Frame>, owned: seq<nat>,
                                     frozen: set<nat>, k: nat)
    requires Chain(m, frames, owned, frozen) && k < |frames| - 1
    requires Level(m, frames, owned, frozen, |frames| - 1) && Level(m, frames, owned, frozen, k)
    requires OnlyTop(m, m', Spot(frames, owned, |frames| - 1), owned[|frames| - 1])
    ensures owned[k] in m' && |m'[owned[k]]| == |m[owned[k]]|
    ensures forall i :: 0 <= i < |frames[k].children| ==>
              m'[owned[k]][i].children in frozen && Represents(m', m'[owned[k]][i], frames[k].children[i])
  {
    forall i | 0 <= i < |frames[k].children|
      ensures m'[owned[k]][i].children in frozen && Represents(m', m'[owned[k]][i], frames[k].children[i])
    {
      assert m'[owned[k]][i] == m[owned[k]][i];
      RepresentsSame(m, m', frozen, m[owned[k]][i], frames[k].children[i]);
    }
  }

  lemma {:induction false} LevelTop(m: Memory, m': Memory, frames: seq<Frame>, frames': seq<Frame>,
                                    owned: seq<nat>, owned': seq<nat>, frozen: set<nat>, it: nat)
    requires Chain(m, frames, owned, frozen) && frames != [] && |owned'| == |frames'| == |frames| + 1
    requires var n := |frames| - 1; frames'[n] == frames[n].MarkPropsEnd(it) && Level(m, frames, owned, frozen, n)
    requires var n := |frames| - 1; Spot(frames', owned', n) == Spot(frames, owned, n)
    requires var n, f := |frames| - 1, frames'[|frames| - 1];
             var top := Spot(frames, owned, n);
             && OnlyTop(m, m', top, owned[n])
             && At(m', top) == Record(f.kind, f.propsBegin, f.propsEnd, owned'[n])
             && owned'[n] in m' && m[owned[n]] <= m'[owned'[n]] && |m'[owned'[n]]| == |m[owned[n]]| + 1
    ensures Level(m', frames', owned', frozen, |frames| - 1)
  {
    var n := |frames| - 1;
    var f := frames[n];
    forall i | 0 <= i < |f.children|
      ensures m'[owned'[n]][i].children in frozen && Represents(m', m'[owned'[n]][i], f.children[i])
    {
      RepresentsSame(m, m', frozen, m[owned[n]][i], f.children[i]);
    }
  }

  lemma {:induction false} OpenKeeps(m: Memory, frames: seq<Frame>, owned: seq<nat>, frozen: set<nat>, it: nat,
                                     kind: Byte, moved: bool, next: nat)
    requires Chain(m, frames, owned, frozen) && frames != [] && forall v :: v in m ==> v < next
    ensures var n := |frames| - 1;
            var top := Spot(frames, owned, n);
            var owned' := owned[..n] + [if moved then next else owned[n], next + 1];
            && Alive(m, top) && At(m, top).children == owned[n] && owned[n] in m && Apart(m, top, next)
            && Chain(Opened(m, top, it, kind, moved, next), Push(frames, it, kind), owned', frozen)
  {
    var n := |frames| - 1;
    var top := Spot(frames, owned, n);
    assert Level(m, frames, owned, frozen, n);
    var v := if moved then next else owned[n];
    var owned' := owned[..n] + [v, next + 1];
    var frames' := Push(frames, it, kind);
    var m' := Opened(m, top, it, kind, moved, next);
    OpenedIs(m, top, it, kind, moved, next);
    forall k | 0 <= k < n ensures owned[k] in m {
      assert Level(m, frames, owned, frozen, k);
    }
    forall k | 0 <= k < |frames'| ensures Level(m', frames', owned', frozen, k) {
      if k < n {
        LevelBelow(m, m', frames, frames', owned, owned', frozen, frozen, n, k);
      } else if k == n {
        LevelTop(m, m', frames, frames', owned, owned', frozen, it);
      }
    }
  }

  lemma {:induction false} OpenedSpots(stack: seq<Pointer>, frames: seq<Frame>, owned: seq<nat>, it: nat, kind: Byte,
                                       v: nat, e: nat)
    requires Spots(stack, frames, owned) && frames != []
    ensures var n := |frames| - 1;
            Spots(stack + [Pointer(v, |frames[n].children|)], Push(frames, it, kind), owned[..n] + [v, e])
  {
    var n := |frames| - 1;
    var frames', owned' := Push(frames, it, kind), owned[..n] + [v, e];
    var stack' := stack + [Pointer(v, |frames[n].children|)];
    forall k | 0 <= k < |stack'| ensures stack'[k] == Spot(frames', owned', k) {
      if k > 0 {
        assert |frames'[k - 1].children| == |frames[k - 1].children|;
      }
    }
  }

  lemma {:induction false} OpenedIs(m: Memory, top: Pointer, it: nat, kind: Byte, moved: bool, next: nat)
    requires Alive(m, top) && At(m, top).children in m && Apart(m, top, next)
    ensures var m', r := Opened(m, top, it, kind, moved, next), At(m, top);
            var v := if moved then next else r.children;
            && OnlyTop(m, m', top, r.children)
            && At(m', top) == r.(children := v, propsEnd := if m[r.children] == [] then Some(it) else r.propsEnd)
            && v in m' && m'[v] == m[r.children] + [Record(kind, it + 2, None, next + 1)]
            && next + 1 in m' && m'[next + 1] == []
            && forall w :: w in m' ==> w < next + 2
  {
  }

  lemma {:induction false} OpenStep(m: Memory, stack: seq<Pointer>, frames: seq<Frame>, owned: seq<nat>,
                                    frozen: set<nat>, it: nat, kind: Byte, moved: bool, next: nat, child: Pointer)
    requires Chain(m, frames, owned, frozen) && Spots(stack, frames, owned) && frames != []
             && forall v :: v in m ==> v < next
    requires Level(m, frames, owned, frozen, |frames| - 1)
    requires var c := owned[|frames| - 1]; child == Pointer(if moved then next else c, |m[c]|)
    ensures var top := stack[|stack| - 1];
            var owned' := owned[..|owned| - 1] + [child.vector, next + 1];
            && Apart(m, top, next)
            && var m' := Opened(m, top, it, kind, moved, next);
               && Chain(m', Push(frames, it, kind), owned', frozen)
               && Spots(stack + [child], Push(frames, it, kind), owned')
               && forall v :: v in m' ==> v < next + 2
  {
    var top := stack[|stack| - 1];
    OpenKeeps(m, frames, owned, frozen, it, kind, moved, next);
    OpenedIs(m, top, it, kind, moved, next);
    OpenedSpots(stack, frames, owned, it, kind, child.vector, next + 1);
  }

  // ----- closing a node

  /** The closed node joins the closed children of the node below it. */
  lemma {:induction false} CloseKeeps(m: Memory, frames: seq<Frame>, owned: seq<nat>, frozen: set<nat>, it: nat)
    requires Chain(m, frames, owned, frozen) && frames != []
    ensures var n := |frames| - 1;
            var top := Spot(frames, owned, n);
            && Alive(m, top) && At(m, top).children == owned[n] && owned[n] in m
            && var m' := Marked(m, top, it);
               && m'.Keys == m.Keys && Alive(m', top) && Represents(m', At(m', top), frames[n].Closed(it))
               && Chain(m', Pop(frames, it), owned[..n], frozen + {owned[n]})
  {
    var n := |frames| - 1;
    var top := Spot(frames, owned, n);
    assert Level(m, frames, owned, frozen, n);
    var m' := Marked(m, top, it);
    assert OnlyTop(m, m', top, owned[n]) && owned[n] in m' && m'[owned[n]] == m[owned[n]];
    ClosedNode(m, m', frames, owned, frozen, it);
    var frames', frozen' := Pop(frames, it), frozen + {owned[n]};
    forall k | 0 <= k < n ensures Level(m', frames', owned[..n], frozen', k) {
      if k < n - 1 {
        LevelBelow(m, m', frames, frames', owned, owned[..n], frozen, frozen', n - 1, k);
      } else {
        LevelParent(m, m', frames, frames', owned, frozen, it);
      }
    }
  }

  lemma {:induction false} ClosedNode(m: Memory, m': Memory, frames: seq<Frame>, owned: seq<nat>, frozen: set<nat>,
                                      it: nat)
    requires Chain(m, frames, owned, frozen) && frames != [] && Level(m, frames, owned, frozen, |frames| - 1)
    requires var n := |frames| - 1;
             var top := Spot(frames, owned, n);
             m' == Marked(m, top, it) && OnlyTop(m, m', top, owned[n]) && m'[owned[n]] == m[owned[n]]
    ensures var n := |frames| - 1;
            Represents(m', At(m', Spot(frames, owned, n)), frames[n].Closed(it))
    ensures Closed(m', frozen + {owned[|frames| - 1]})
  {
    var n := |frames| - 1;
    var f := frames[n];
    forall i | 0 <= i < |f.children| ensures Represents(m', m'[owned[n]][i], f.children[i]) {
      RepresentsSame(m, m', frozen, m[owned[n]][i], f.children[i]);
    }
  }

  lemma {:induction false} LevelParent(m: Memory, m': Memory, frames: seq<Frame>, frames': seq<Frame>, owned: seq<nat>,
                                       frozen: set<nat>, it: nat)
    requires Chain(m, frames, owned, frozen) && |frames| >= 2 && frames' == Pop(frames, it)
    requires Level(m, frames, owned, frozen, |frames| - 1)
    requires var n := |frames| - 1;
             var top := Spot(frames, owned, n);
             OnlyTop(m, m', top, owned[n]) && At(m', top).children == owned[n]
               && Represents(m', At(m', top), frames[n].Closed(it))
    ensures Level(m', frames', owned[..|frames| - 1], frozen + {owned[|frames| - 1]}, |frames| - 2)
  {
    var k := |frames| - 2;
    assert Level(m, frames, owned, frozen, k);
    assert Spot(frames', owned[..k + 1], k) == Spot(frames, owned, k);
    KidsBelow(m, m', frames, owned, frozen, k);
  }

  // ----- the loader

  class Loader {
    const file: seq<Byte>
    var vectors: Memory
    // no vector has this number or a greater one
    var next: nat

    constructor (file: seq<Byte>)
      ensures this.file == file && vectors == map[ROOT := [Record(0, 0, None, 1)], 1 := []] && next == 2
    {
      this.file := file;
      vectors, next := map[ROOT := [Record(0, 0, None, 1)], 1 := []], 2;
    }

    /** The root and all below it say what the node says. */
    ghost predicate Holds(n: Node)
      reads this`vectors
    {
      Alive(vectors, Pointer(ROOT, 0)) && Represents(vectors, At(vectors, Pointer(ROOT, 0)), n)
    }

    /** children.emplace_back(); whether the vector moves is left open. */
    method EmplaceBack(p: Pointer) returns (child: Pointer, moved: bool)
      requires Alive(vectors, p) && At(vectors, p).children in vectors && Apart(vectors, p, next)
      modifies this
      ensures vectors == Grown(old(vectors), p, moved, old(next)) && next == old(next) + 2
      ensures var c := old(At(vectors, p)).children;
              child == Pointer(if moved then old(next) else c, |old(vectors)[c]|)
    {
      moved := *;
      var c := At(vectors, p).children;
      var kids := vectors[c] + [Record(0, 0, None, next + 1)];
      child := Pointer(if moved then next else c, |vectors[c]|);
      if moved {
        vectors := Put(vectors, p, At(vectors, p).(children := next)) - {c};
        vectors := vectors[next := kids];
      } else {
        vectors := vectors[c := kids];
      }
      vectors := vectors[next + 1 := []];
      next := next + 2;
    }

    /** currentNode.propsEnd = it where it has no children. */
    method MarkPropsEnd(p: Pointer, it: nat)
      requires Alive(vectors, p) && At(vectors, p).children in vectors
      modifies this`vectors
      ensures vectors == Marked(old(vectors), p, it)
    {
      if vectors[At(vectors, p).children] == [] {
        vectors := Put(vectors, p, At(vectors, p).(propsEnd := Some(it)));
      }
    }

    /** The stack points to the nodes that are open according to the frames. */
    ghost predicate InStep(stack: seq<Pointer>, frames: seq<Frame>, owned: seq<nat>, frozen: set<nat>)
      reads this`vectors, this`next
    {
      Spots(stack, frames, owned) && Chain(vectors, frames, owned, frozen) && forall v :: v in vectors ==> v < next
    }

    /** A byte that opens a node: the new node becomes the last child of the current one. */
    method OpenNode(stack: seq<Pointer>, it: nat, ghost frames: seq<Frame>, ghost owned: seq<nat>,
                    ghost frozen: set<nat>)
      returns (ok: bool, child: Pointer, ghost owned': seq<nat>)
      requires stack != [] && it < |file| && InStep(stack, frames, owned, frozen)
      modifies this
      ensures ok <==> it + 1 < |file|
      ensures ok ==> InStep(stack + [child], Push(frames, it, file[it + 1]), owned', frozen)
    {
      var currentNode := stack[|stack| - 1];
      ghost var before, unused := vectors, next;
      assert Level(before, frames, owned, frozen, |frames| - 1) && currentNode == Spot(frames, owned, |frames| - 1);
      MarkPropsEnd(currentNode, it);
      var moved;
      child, moved := EmplaceBack(currentNode);
      ok, owned' := it + 1 < |file|, [];
      if ok {
        owned' := owned[..|owned| - 1] + [child.vector, unused + 1];
        OpenStep(before, stack, frames, owned, frozen, it, file[it + 1], moved, unused, child);
        vectors := Put(vectors, child, At(vectors, child).(kind := file[it + 1], propsBegin := it + 2));
      }
    }

    /** A byte that closes a node. */
    method CloseNode(stack: seq<Pointer>, it: nat, ghost frames: seq<Frame>, ghost owned: seq<nat>,
                     ghost frozen: set<nat>)
      returns (rest: seq<Pointer>, ghost owned': seq<nat>, ghost frozen': set<nat>)
      requires stack != [] && InStep(stack, frames, owned, frozen)
      modifies this`vectors
      ensures InStep(rest, Pop(frames, it), owned', frozen') && rest == stack[..|stack| - 1]
      ensures |frames| == 1 ==> Holds(frames[0].Closed(it))
    {
      var currentNode := stack[|stack| - 1];
      CloseKeeps(vectors, frames, owned, frozen, it);
      MarkPropsEnd(currentNode, it);
      rest, owned', frozen' := stack[..|stack| - 1], owned[..|stack| - 1], frozen + {owned[|stack| - 1]};
    }

    method OpenRoot(it: nat)
      requires it < |file| && vectors == map[ROOT := [Record(0, 0, None, 1)], 1 := []] && next == 2
      modifies this`vectors
      ensures InStep([Pointer(ROOT, 0)], [Frame(file[it], it + 1, None, [])], [1], {})
    {
      vectors := Put(vectors, Pointer(ROOT, 0), Record(file[it], it + 1, None, 1));
      assert Level(vectors, [Frame(file[it], it + 1, None, [])], [1], {}, 0);
    }

    /** parseTree, on a loader that has not parsed yet: every pointer it uses is alive. */
    method ParseTree() returns (ok: bool)
      requires |file| > MINIMAL_SIZE && vectors == map[ROOT := [Record(0, 0, None, 1)], 1 := []] && next == 2
      modifies this
      ensures ok <==> Parse(file).Ok?
      ensures ok ==> Holds(Parse(file).value)
    {
      var it := IDENTIFIER_SIZE;
      if file[it] != START {
        return false;
      }
      it := it + 1;
      OpenRoot(it);
      var parseStack := [Pointer(ROOT, 0)];
      ghost var frames, owned, frozen, root := [Frame(file[it], it + 1, None, [])], [1], {}, None;
      ChainIsLastChildren(vectors, parseStack, frames, owned, frozen);
      it := it + 1;
      while it < |file|
        invariant 0 <= it <= |file| && InStep(parseStack, frames, owned, frozen) && LastChildren(vectors, parseStack)
        invariant frames == [] ==> root.Some? && Holds(root.value)
        invariant Parse(file) == Run(file, it, frames, root)
      {
        if file[it] == START {
          if parseStack == [] { return false; }
          var began, child;
          ghost var owned';
          began, child, owned' := OpenNode(parseStack, it, frames, owned, frozen);
          if !began { return false; }
          frames, owned := Push(frames, it, file[it + 1]), owned';
          parseStack := parseStack + [child];
          it := it + 1;
        } else if file[it] == END {
          if parseStack == [] { return false; }
          root := PopRoot(frames, it, root);
          ghost var owned', frozen';
          parseStack, owned', frozen' := CloseNode(parseStack, it, frames, owned, frozen);
          frames, owned, frozen := Pop(frames, it), owned', frozen';
        } else if file[it] == ESCAPE {
          it := it + 1;
          if it == |file| { return false; }
        }
        it := it + 1;
        ChainIsLastChildren(vectors, parseStack, frames, owned, frozen);
      }
      ok := parseStack == [];
    }

    /** getProps, of a node that has been closed. None stands for "false": a node with no property bytes. */
    method GetProps(node: Pointer) returns (r: Option<seq<Byte>>)
      requires Alive(vectors, node) && At(vectors, node).propsEnd.Some?
      requires At(vectors, node).propsBegin <= At(vectors, node).propsEnd.value <= |file|
      ensures r == PropsIn(file, At(vectors, node).propsBegin, At(vectors, node).propsEnd.value)
    {
      var begin, end := At(vectors, node).propsBegin, At(vectors, node).propsEnd.value;
      if begin == end {
        return None;
      }
      var props := file[begin..end];
      var buffer: seq<Byte> := [];
      var lastEscaped := false;
      for k := 0 to |props|
        invariant buffer + Unescape(props[k..], lastEscaped) == Unescape(props, false)
      {
        assert props[k..][1..] == props[k + 1..];
        lastEscaped := props[k] == ESCAPE && !lastEscaped;
        if !lastEscaped {
          buffer := buffer + [props[k]];
        }
      }
      assert buffer + [] == buffer;
      r := Some(buffer);
    }
  }

  /** The constructor's checks, and the parse. The all-zero identifier is a wildcard. */
  method Load(file: seq<Byte>, accepted: seq<Byte>) returns (loader: Loader, ok: bool)
    ensures fresh(loader) && loader.file == file
    ensures ok <==> LoadSpec(file, accepted).Ok?
    ensures ok ==> loader.Holds(LoadSpec(file, accepted).value)
  {
    loader := new Loader(file);
    if |file| <= MINIMAL_SIZE {
      return loader, false;
    }
    var identifier := file[..IDENTIFIER_SIZE];
    if identifier != accepted && identifier != [0, 0, 0, 0] {
      return loader, false;
    }
    ok := loader.ParseTree();
  }
}
