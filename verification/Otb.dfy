/**
 The binary tree format of the map and item files. The loader is one loop over the bytes with a
 stack of open nodes. This module states the format as a recursive grammar and proves that the
 loop, here a function on values, accepts exactly that grammar and returns exactly the tree that was
 written; OtbLoader is the loop on memory.
 */
module Otb {

  import opened Basics

  const ESCAPE: Byte := 0xFD
  const START: Byte := 0xFE
  const END: Byte := 0xFF

  const IDENTIFIER_SIZE := 4
  // identifier, START, type, END
  const MINIMAL_SIZE := IDENTIFIER_SIZE + 3

  predicate Special(b: Byte) {
    b == ESCAPE || b == START || b == END
  }

  datatype Result<+T> = Ok(value: T) | InvalidFormat

  /** A parsed node; its properties stay in the file, between two positions. */
  datatype Node = Node(kind: Byte, propsBegin: nat, propsEnd: nat, children: seq<Node>)

  /** A node on the parse stack; propsEnd is unset until the first child opens or the node closes. */
  datatype Frame = Frame(kind: Byte, propsBegin: nat, propsEnd: Option<nat>, children: seq<Node>) {
    function MarkPropsEnd(it: nat): Frame {
      if children == [] then this.(propsEnd := Some(it)) else this
    }

    function Closed(it: nat): Node {
      var f := MarkPropsEnd(it);
      Node(kind, propsBegin, if f.propsEnd.Some? then f.propsEnd.value else it, children)
    }
  }

  // ----- the loader

  function Push(stack: seq<Frame>, it: nat, kind: Byte): seq<Frame>
    requires stack != []
  {
    stack[..|stack| - 1] + [stack[|stack| - 1].MarkPropsEnd(it), Frame(kind, it + 2, None, [])]
  }

  /** The stack after the top node closes; the closed node becomes the last child of the one below. */
  function Pop(stack: seq<Frame>, it: nat): seq<Frame>
    requires stack != []
  {
    var closed := stack[|stack| - 1].Closed(it);
    if |stack| == 1 then []
    else
      var parent := stack[|stack| - 2];
      stack[..|stack| - 2] + [parent.(children := parent.children + [closed])]
  }

  function PopRoot(stack: seq<Frame>, it: nat, root: Option<Node>): Option<Node>
    requires stack != []
  {
    if |stack| == 1 then Some(stack[0].Closed(it)) else root
  }

  /** What the loop of the loader makes of the rest of the file. */
  function Run(file: seq<Byte>, it: nat, stack: seq<Frame>, root: Option<Node>): Result<Node>
    requires stack == [] ==> root.Some?
    decreases |file| - it
  {
    if it >= |file| then if stack == [] then Ok(root.value) else InvalidFormat
    else if file[it] == START then
      if stack == [] || it + 1 == |file| then InvalidFormat
      else Run(file, it + 2, Push(stack, it, file[it + 1]), root)
    else if file[it] == END then
      if stack == [] then InvalidFormat
      else Run(file, it + 1, Pop(stack, it), PopRoot(stack, it, root))
    else if file[it] == ESCAPE then
      if it + 1 == |file| then InvalidFormat else Run(file, it + 2, stack, root)
    else Run(file, it + 1, stack, root)
  }

  function Parse(file: seq<Byte>): Result<Node>
    requires |file| > MINIMAL_SIZE
  {
    if file[IDENTIFIER_SIZE] != START then InvalidFormat
    else Run(file, IDENTIFIER_SIZE + 2, [Frame(file[IDENTIFIER_SIZE + 1], IDENTIFIER_SIZE + 2, None, [])], None)
  }

  /** The constructor's checks and parseTree. The all-zero identifier is a wildcard. */
  function LoadSpec(file: seq<Byte>, accepted: seq<Byte>): Result<Node> {
    if |file| <= MINIMAL_SIZE then InvalidFormat
    else if file[..IDENTIFIER_SIZE] != accepted && file[..IDENTIFIER_SIZE] != [0, 0, 0, 0] then InvalidFormat
    else Parse(file)
  }

  /** Drops the escape bytes; lastEscaped tells whether the previous byte was one. */
  function Unescape(bytes: seq<Byte>, lastEscaped: bool): seq<Byte> {
    if bytes == [] then []
    else
      var escaped := bytes[0] == ESCAPE && !lastEscaped;
      (if escaped then [] else [bytes[0]]) + Unescape(bytes[1..], escaped)
  }

  /** None stands for the loader's "false": a node with no property bytes. */
  function PropsIn(file: seq<Byte>, begin: nat, end: nat): Option<seq<Byte>>
    requires begin <= end <= |file|
  {
    if begin == end then None else Some(Unescape(file[begin..end], false))
  }

  function PropsOf(file: seq<Byte>, node: Node): Option<seq<Byte>>
    requires node.propsBegin <= node.propsEnd <= |file|
  {
    PropsIn(file, node.propsBegin, node.propsEnd)
  }

  // ----- the grammar

  /** A piece of a node's body. Bytes after the first child belong to no property and are skipped. */
  datatype Part = Plain(b: Byte) | Escaped(b: Byte) | Child(tree: Tree)
  datatype Tree = Tree(kind: Byte, body: seq<Part>)

  predicate WellFormedPart(p: Part)
    decreases p
  {
    match p
    case Plain(b) => !Special(b)
    case Escaped(_) => true
    case Child(t) => WellFormed(t.body)
  }

  predicate WellFormed(body: seq<Part>)
    decreases body
  {
    forall p :: p in body ==> WellFormedPart(p)
  }

  function EncodePart(p: Part): (bytes: seq<Byte>)
    decreases p
    ensures |bytes| > 0
  {
    match p
    case Plain(b) => [b]
    case Escaped(b) => [ESCAPE, b]
    case Child(t) => [START, t.kind] + EncodeBody(t.body) + [END]
  }

  function EncodeBody(body: seq<Part>): seq<Byte>
    decreases body
  {
    if body == [] then [] else EncodePart(body[0]) + EncodeBody(body[1..])
  }

  predicate NoChild(body: seq<Part>) {
    forall p :: p in body ==> !p.Child?
  }

  /** A file: four identifier bytes, the root node, and possibly loose bytes behind it. */
  ghost predicate InGrammar(file: seq<Byte>, t: Tree, trailer: seq<Part>) {
    && |file| >= IDENTIFIER_SIZE
    && WellFormed(t.body) && WellFormed(trailer) && NoChild(trailer)
    && file == file[..IDENTIFIER_SIZE] + EncodePart(Child(t)) + EncodeBody(trailer)
  }

  // ----- the node a tree is written as

  function NodeAt(t: Tree, pos: nat): Node
    decreases t
  {
    Node(t.kind, pos + 2, PropsEnd(t.body, pos + 2), ChildrenAt(t.body, pos + 2))
  }

  /** The position of the first child, or of the end. */
  function PropsEnd(body: seq<Part>, pos: nat): nat {
    if body == [] || body[0].Child? then pos else PropsEnd(body[1..], pos + |EncodePart(body[0])|)
  }

  function ChildrenAt(body: seq<Part>, pos: nat): seq<Node>
    decreases body
  {
    if body == [] then []
    else NodesOf(body[0], pos) + ChildrenAt(body[1..], pos + |EncodePart(body[0])|)
  }

  function NodesOf(p: Part, pos: nat): seq<Node>
    decreases p
  {
    if p.Child? then [NodeAt(p.tree, pos)] else []
  }

  /** A frame that has read the given parts. */
  function Absorb(f: Frame, body: seq<Part>, pos: nat): Frame {
    f.(propsEnd := if f.children == [] && !NoChild(body) then Some(PropsEnd(body, pos)) else f.propsEnd,
       children := f.children + ChildrenAt(body, pos))
  }

  // ----- the loop accepts the grammar

  lemma {:induction false} SubSlice(file: seq<Byte>, it: nat, bytes: seq<Byte>, i: nat, j: nat)
    requires it + |bytes| <= |file| && file[it..it + |bytes|] == bytes && i <= j <= |bytes|
    ensures file[it + i..it + j] == bytes[i..j]
    ensures i < |bytes| ==> file[it + i] == bytes[i]
  {
    forall k | i <= k < |bytes| ensures file[it + k] == bytes[k] {
      assert file[it + k] == file[it..it + |bytes|][k];
    }
  }

  /** Where the parts of an encoded body lie. */
  lemma {:induction false} BodyLayout(file: seq<Byte>, it: nat, body: seq<Part>)
    requires body != [] && it + |EncodeBody(body)| <= |file|
    requires file[it..it + |EncodeBody(body)|] == EncodeBody(body)
    ensures var mid := it + |EncodePart(body[0])|;
            |EncodeBody(body)| == |EncodePart(body[0])| + |EncodeBody(body[1..])|
            && file[it..mid] == EncodePart(body[0])
            && file[mid..mid + |EncodeBody(body[1..])|] == EncodeBody(body[1..])
  {
    var first, rest := EncodePart(body[0]), EncodeBody(body[1..]);
    SplitSlice(file, it, first, rest);
  }

  lemma {:induction false} SplitSlice(file: seq<Byte>, it: nat, a: seq<Byte>, b: seq<Byte>)
    requires it + |a| + |b| <= |file| && file[it..it + |a + b|] == a + b
    ensures file[it..it + |a|] == a && file[it + |a|..it + |a| + |b|] == b
  {
    SubSlice(file, it, a + b, 0, |a|);
    SubSlice(file, it, a + b, |a|, |a + b|);
  }

  /** Where the pieces of an encoded node lie. */
  lemma {:induction false} NodeLayout(file: seq<Byte>, it: nat, t: Tree)
    requires it + |EncodePart(Child(t))| <= |file| && file[it..it + |EncodePart(Child(t))|] == EncodePart(Child(t))
    ensures var end := it + 2 + |EncodeBody(t.body)|;
            end + 1 == it + |EncodePart(Child(t))| && file[it] == START && file[it + 1] == t.kind
            && file[it + 2..end] == EncodeBody(t.body) && file[end] == END
  {
    var bytes := EncodePart(Child(t));
    var n := |EncodeBody(t.body)|;
    SubSlice(file, it, bytes, 0, 0);
    SubSlice(file, it, bytes, 1, 1);
    SubSlice(file, it, bytes, 2, 2 + n);
    SubSlice(file, it, bytes, 2 + n, 2 + n);
  }

  /** Reading well-formed parts leaves the rest of the stack alone and adds their nodes to the top frame. */
  lemma {:induction false} RunBody(file: seq<Byte>, it: nat, stack: seq<Frame>, f: Frame, root: Option<Node>,
                                   body: seq<Part>)
    requires WellFormed(body)
    requires it + |EncodeBody(body)| <= |file| && file[it..it + |EncodeBody(body)|] == EncodeBody(body)
    ensures Run(file, it, stack + [f], root)
            == Run(file, it + |EncodeBody(body)|, stack + [Absorb(f, body, it)], root)
    decreases body
  {
    if body == [] {
      assert Absorb(f, body, it) == f;
    } else {
      var p := body[0];
      var n := |EncodePart(p)|;
      BodyLayout(file, it, body);
      RunPart(file, it, stack, f, root, p);
      var g := Absorb(f, [p], it);
      RunBody(file, it + n, stack, g, root, body[1..]);
      AbsorbCons(f, body, it);
      assert (it + n) + |EncodeBody(body[1..])| == it + |EncodeBody(body)|;
      assert Absorb(g, body[1..], it + n) == Absorb(f, body, it);
    }
  }

  lemma {:induction false} AbsorbOne(f: Frame, p: Part, pos: nat)
    ensures Absorb(f, [p], pos)
            == if p.Child? then f.MarkPropsEnd(pos).(children := f.children + [NodeAt(p.tree, pos)]) else f
  {
    assert p in [p];
    assert NoChild([p]) <==> !p.Child?;
    assert ChildrenAt([p], pos) == NodesOf(p, pos) + ChildrenAt([], pos + |EncodePart(p)|);
    assert f.children + [] == f.children;
  }

  lemma {:induction false} AbsorbCons(f: Frame, body: seq<Part>, pos: nat)
    requires body != []
    ensures Absorb(Absorb(f, [body[0]], pos), body[1..], pos + |EncodePart(body[0])|) == Absorb(f, body, pos)
  {
    var p := body[0];
    assert body == [p] + body[1..];
    assert NoChild(body) <==> !p.Child? && NoChild(body[1..]);
    AbsorbOne(f, p, pos);
    var rest := ChildrenAt(body[1..], pos + |EncodePart(p)|);
    assert f.children + (NodesOf(p, pos) + rest) == (f.children + NodesOf(p, pos)) + rest;
    assert f.children + [] == f.children;
  }

  lemma {:induction false} RunPart(file: seq<Byte>, it: nat, stack: seq<Frame>, f: Frame, root: Option<Node>, p: Part)
    requires WellFormedPart(p)
    requires it + |EncodePart(p)| <= |file| && file[it..it + |EncodePart(p)|] == EncodePart(p)
    ensures Run(file, it, stack + [f], root)
            == Run(file, it + |EncodePart(p)|, stack + [Absorb(f, [p], it)], root)
    decreases p
  {
    var bytes := EncodePart(p);
    assert file[it] == bytes[0];
    AbsorbOne(f, p, it);
    match p {
      case Plain(b) =>
      case Escaped(b) =>
        assert file[it + 1] == bytes[1];
      case Child(t) =>
        RunChild(file, it, stack, f, root, t);
    }
  }

  lemma {:induction false} RunChild(file: seq<Byte>, it: nat, stack: seq<Frame>, f: Frame, root: Option<Node>, t: Tree)
    requires WellFormed(t.body)
    requires it + |EncodePart(Child(t))| <= |file| && file[it..it + |EncodePart(Child(t))|] == EncodePart(Child(t))
    ensures Run(file, it, stack + [f], root)
            == Run(file, it + |EncodePart(Child(t))|,
                   stack + [f.MarkPropsEnd(it).(children := f.children + [NodeAt(t, it)])], root)
    decreases t
  {
    NodeLayout(file, it, t);
    var end := it + 2 + |EncodeBody(t.body)|;
    var marked := f.MarkPropsEnd(it);
    var child := Frame(t.kind, it + 2, None, []);
    assert Push(stack + [f], it, t.kind) == (stack + [marked]) + [child];
    RunBody(file, it + 2, stack + [marked], child, root, t.body);
    CloseAbsorbed(t, it);
    PopAbsorbed(stack, marked, Absorb(child, t.body, it + 2), end);
    assert end + 1 == it + |EncodePart(Child(t))|;
    assert Run(file, end, (stack + [marked]) + [Absorb(child, t.body, it + 2)], root)
        == Run(file, end + 1, stack + [marked.(children := marked.children + [NodeAt(t, it)])], root);
  }

  lemma {:induction false} PopAbsorbed(stack: seq<Frame>, parent: Frame, child: Frame, it: nat)
    ensures Pop(stack + [parent] + [child], it)
            == stack + [parent.(children := parent.children + [child.Closed(it)])]
  {
  }

  /** Closing a frame that has read a whole body gives the node of that tree. */
  lemma {:induction false} CloseAbsorbed(t: Tree, pos: nat)
    ensures Absorb(Frame(t.kind, pos + 2, None, []), t.body, pos + 2).Closed(pos + 2 + |EncodeBody(t.body)|)
            == NodeAt(t, pos)
  {
    PropsEndNoChild(t.body, pos + 2);
  }

  lemma {:induction false} PropsEndNoChild(body: seq<Part>, pos: nat)
    ensures NoChild(body) ==> PropsEnd(body, pos) == pos + |EncodeBody(body)|
    ensures NoChild(body) <==> ChildrenAt(body, pos) == []
  {
    if body != [] {
      assert body == [body[0]] + body[1..];
      PropsEndNoChild(body[1..], pos + |EncodePart(body[0])|);
      assert NoChild(body) <==> !body[0].Child? && NoChild(body[1..]);
      assert NodesOf(body[0], pos) == [] <==> !body[0].Child?;
    }
  }

  lemma {:induction false} RunTrailer(file: seq<Byte>, it: nat, root: Option<Node>, trailer: seq<Part>)
    requires root.Some? && WellFormed(trailer) && NoChild(trailer)
    requires it + |EncodeBody(trailer)| <= |file| && file[it..it + |EncodeBody(trailer)|] == EncodeBody(trailer)
    ensures Run(file, it, [], root) == Run(file, it + |EncodeBody(trailer)|, [], root)
    decreases |trailer|
  {
    if trailer != [] {
      BodyLayout(file, it, trailer);
      assert trailer[0] in trailer && trailer == [trailer[0]] + trailer[1..];
      SubSlice(file, it, EncodePart(trailer[0]), 0, 0);
      RunTrailer(file, it + |EncodePart(trailer[0])|, root, trailer[1..]);
    }
  }

  /** Every file of the grammar loads, and gives the tree that was written. */
  lemma {:induction false} ParseAccepts(file: seq<Byte>, t: Tree, trailer: seq<Part>)
    requires |file| > MINIMAL_SIZE && InGrammar(file, t, trailer)
    ensures Parse(file) == Ok(NodeAt(t, IDENTIFIER_SIZE))
  {
    var pos := IDENTIFIER_SIZE;
    var bytes := EncodePart(Child(t));
    assert file[pos..pos + |bytes|] == bytes;
    NodeLayout(file, pos, t);
    var end := pos + 2 + |EncodeBody(t.body)|;
    var f := Frame(t.kind, pos + 2, None, []);
    RunBody(file, pos + 2, [], f, None, t.body);
    CloseAbsorbed(t, pos);
    assert [] + [f] == [f];
    var full := [] + [Absorb(f, t.body, pos + 2)];
    assert Run(file, end, full, None) == Run(file, end + 1, [], Some(NodeAt(t, pos)));
    assert file[end + 1..end + 1 + |EncodeBody(trailer)|] == EncodeBody(trailer);
    RunTrailer(file, end + 1, Some(NodeAt(t, pos)), trailer);
  }

  // ----- the loop accepts nothing else

  /** When the loop succeeds, the top node is closed somewhere: what lies before is a well-formed body. */
  lemma {:induction false} FindBody(file: seq<Byte>, it: nat, stack: seq<Frame>, f: Frame, root: Option<Node>)
    returns (body: seq<Part>)
    requires Run(file, it, stack + [f], root).Ok?
    ensures WellFormed(body)
    ensures var end := it + |EncodeBody(body)|;
            end < |file| && file[it..end] == EncodeBody(body) && file[end] == END
    decreases |file| - it, 1
  {
    if file[it] == START {
      var p := FindChild(file, it, stack, f, root);
      RunPart(file, it, stack, f, root, p);
      var rest := FindBody(file, it + |EncodePart(p)|, stack, Absorb(f, [p], it), root);
      body := ConsBody(file, it, p, rest);
    } else if file[it] == END {
      body := [];
      assert file[it..it] == [] == EncodeBody([]);
    } else {
      var p := if file[it] == ESCAPE then Escaped(file[it + 1]) else Plain(file[it]);
      assert file[it..it + |EncodePart(p)|] == EncodePart(p);
      var rest := FindBody(file, it + |EncodePart(p)|, stack, f, root);
      body := ConsBody(file, it, p, rest);
    }
  }

  /** The same for a node that opens here. */
  lemma {:induction false} FindChild(file: seq<Byte>, it: nat, stack: seq<Frame>, f: Frame, root: Option<Node>)
    returns (p: Part)
    requires it < |file| && file[it] == START && Run(file, it, stack + [f], root).Ok?
    ensures WellFormedPart(p)
    ensures it + |EncodePart(p)| <= |file| && file[it..it + |EncodePart(p)|] == EncodePart(p)
    decreases |file| - it, 0
  {
    var kind := file[it + 1];
    var marked := f.MarkPropsEnd(it);
    var child := Frame(kind, it + 2, None, []);
    assert Push(stack + [f], it, kind) == (stack + [marked]) + [child];
    var inner := FindBody(file, it + 2, stack + [marked], child, root);
    NodeEncoded(file, it, Tree(kind, inner));
    p := Child(Tree(kind, inner));
  }

  lemma {:induction false} NodeEncoded(file: seq<Byte>, it: nat, t: Tree)
    requires var end := it + 2 + |EncodeBody(t.body)|;
             end < |file| && file[it] == START && file[it + 1] == t.kind
             && file[it + 2..end] == EncodeBody(t.body) && file[end] == END
    ensures file[it..it + |EncodePart(Child(t))|] == EncodePart(Child(t))
  {
    var end := it + 2 + |EncodeBody(t.body)|;
    assert file[it..end + 1] == [file[it], file[it + 1]] + file[it + 2..end] + [file[end]];
  }

  lemma {:induction false} ConsBody(file: seq<Byte>, it: nat, p: Part, rest: seq<Part>) returns (body: seq<Part>)
    requires WellFormedPart(p) && WellFormed(rest)
    requires var mid := it + |EncodePart(p)|;
             mid + |EncodeBody(rest)| <= |file| && file[it..mid] == EncodePart(p)
             && file[mid..mid + |EncodeBody(rest)|] == EncodeBody(rest)
    ensures body == [p] + rest && WellFormed(body)
    ensures |EncodeBody(body)| == |EncodePart(p)| + |EncodeBody(rest)|
    ensures file[it..it + |EncodeBody(body)|] == EncodeBody(body)
  {
    body := [p] + rest;
    assert body[1..] == rest;
    var mid := it + |EncodePart(p)|;
    assert file[it..mid + |EncodeBody(rest)|] == file[it..mid] + file[mid..mid + |EncodeBody(rest)|];
  }

  lemma {:induction false} FindTrailer(file: seq<Byte>, it: nat, root: Option<Node>) returns (trailer: seq<Part>)
    requires root.Some? && it <= |file| && Run(file, it, [], root).Ok?
    ensures WellFormed(trailer) && NoChild(trailer) && file[it..] == EncodeBody(trailer)
    decreases |file| - it
  {
    if it == |file| {
      trailer := [];
    } else {
      var p := if file[it] == ESCAPE then Escaped(file[it + 1]) else Plain(file[it]);
      var n := |EncodePart(p)|;
      var rest := FindTrailer(file, it + n, root);
      trailer := ConsBody(file, it, p, rest);
      assert file[it..it + |EncodeBody(trailer)|] == file[it..];
    }
  }

  /** The loader accepts a file exactly when it is in the grammar, and then returns the tree written there. */
  lemma {:induction false} ParseIffGrammar(file: seq<Byte>, n: Node)
    requires |file| > MINIMAL_SIZE
    ensures Parse(file) == Ok(n)
            <==> exists t, trailer :: InGrammar(file, t, trailer) && n == NodeAt(t, IDENTIFIER_SIZE)
  {
    if Parse(file) == Ok(n) {
      var pos := IDENTIFIER_SIZE;
      var kind := file[pos + 1];
      var f := Frame(kind, pos + 2, None, []);
      assert [] + [f] == [f];
      var body := FindBody(file, pos + 2, [], f, None);
      var end := pos + 2 + |EncodeBody(body)|;
      RunBody(file, pos + 2, [], f, None, body);
      assert [] + [Absorb(f, body, pos + 2)] == [Absorb(f, body, pos + 2)];
      var trailer := FindTrailer(file, end + 1, Some(Absorb(f, body, pos + 2).Closed(end)));
      var t := Tree(kind, body);
      assert file == file[..pos] + ([START, kind] + file[pos + 2..end] + [END]) + file[end + 1..];
      assert InGrammar(file, t, trailer);
      ParseAccepts(file, t, trailer);
    }
    forall t, trailer | InGrammar(file, t, trailer)
      ensures Parse(file) == Ok(NodeAt(t, IDENTIFIER_SIZE))
    {
      ParseAccepts(file, t, trailer);
    }
  }

  /** A file that ends with a node still open is rejected. */
  lemma {:induction false} OpenNodeRejected(file: seq<Byte>, kind: Byte, body: seq<Part>)
    requires |file| > MINIMAL_SIZE && WellFormed(body)
    requires file == file[..IDENTIFIER_SIZE] + [START, kind] + EncodeBody(body)
    ensures Parse(file) == InvalidFormat
  {
    var pos := IDENTIFIER_SIZE;
    assert file[pos + 2..pos + 2 + |EncodeBody(body)|] == EncodeBody(body);
    var f := Frame(kind, pos + 2, None, []);
    assert [] + [f] == [f];
    RunBody(file, pos + 2, [], f, None, body);
  }

  /** A file that closes or opens another node after the root is rejected. */
  lemma {:induction false} SecondRootRejected(file: seq<Byte>, t: Tree, trailer: seq<Part>, k: nat)
    requires |file| > MINIMAL_SIZE && IDENTIFIER_SIZE <= k < |file|
    requires InGrammar(file[..k], t, trailer) && (file[k] == START || file[k] == END)
    ensures Parse(file) == InvalidFormat
  {
    var pos := IDENTIFIER_SIZE;
    var front := file[..k];
    var bytes := EncodePart(Child(t));
    assert file[pos..pos + |bytes|] == front[pos..pos + |bytes|] == bytes;
    NodeLayout(file, pos, t);
    var end := pos + 2 + |EncodeBody(t.body)|;
    var f := Frame(t.kind, pos + 2, None, []);
    RunBody(file, pos + 2, [], f, None, t.body);
    assert [] + [f] == [f];
    var full := [] + [Absorb(f, t.body, pos + 2)];
    var root := Some(full[0].Closed(end));
    assert Run(file, end, full, None) == Run(file, end + 1, [], root);
    assert file[end + 1..k] == front[end + 1..] == EncodeBody(trailer);
    RunTrailer(file, end + 1, root, trailer);
    assert Run(file, k, [], root) == InvalidFormat;
  }

  // ----- documents: write, load, read the properties back

  /** A node as its author means it: a type, property bytes, and children. */
  datatype Doc = Doc(kind: Byte, props: seq<Byte>, children: seq<Doc>)

  function WriteProps(props: seq<Byte>): seq<Byte> {
    if props == [] then []
    else (if Special(props[0]) then [ESCAPE, props[0]] else [props[0]]) + WriteProps(props[1..])
  }

  function Write(d: Doc): seq<Byte>
    decreases d
  {
    [START, d.kind] + WriteProps(d.props) + WriteAll(d.children) + [END]
  }

  function WriteAll(docs: seq<Doc>): seq<Byte>
    decreases docs
  {
    if docs == [] then [] else Write(docs[0]) + WriteAll(docs[1..])
  }

  /** The parsed node says what the document said; an empty property list cannot be told from "false". */
  ghost predicate Matches(file: seq<Byte>, n: Node, d: Doc)
    decreases d
  {
    && n.kind == d.kind
    && n.propsBegin <= n.propsEnd <= |file|
    && PropsOf(file, n) == (if d.props == [] then None else Some(d.props))
    && |n.children| == |d.children|
    && forall i :: 0 <= i < |d.children| ==> Matches(file, n.children[i], d.children[i])
  }

  function PropParts(props: seq<Byte>): seq<Part> {
    if props == [] then []
    else [if Special(props[0]) then Escaped(props[0]) else Plain(props[0])] + PropParts(props[1..])
  }

  function ChildParts(docs: seq<Doc>): seq<Part>
    decreases docs
  {
    if docs == [] then [] else [Child(ToTree(docs[0]))] + ChildParts(docs[1..])
  }

  function ToTree(d: Doc): Tree
    decreases d
  {
    Tree(d.kind, PropParts(d.props) + ChildParts(d.children))
  }

  lemma {:induction false} UnescapeWritten(props: seq<Byte>)
    ensures Unescape(WriteProps(props), false) == props
  {
    if props != [] {
      var bytes, rest := WriteProps(props), WriteProps(props[1..]);
      UnescapeWritten(props[1..]);
      if Special(props[0]) {
        assert bytes[1..] == [props[0]] + rest && bytes[1..][1..] == rest;
        assert Unescape(bytes, false) == [] + Unescape(bytes[1..], true);
        assert Unescape(bytes[1..], true) == [props[0]] + Unescape(rest, false);
      } else {
        assert bytes[1..] == rest;
      }
    }
  }

  /** Property bytes in front of another body. */
  lemma {:induction false} PropPartsEncoded(props: seq<Byte>, tail: seq<Part>)
    requires WellFormed(tail)
    ensures WellFormed(PropParts(props) + tail)
    ensures EncodeBody(PropParts(props) + tail) == WriteProps(props) + EncodeBody(tail)
  {
    if props == [] {
      assert PropParts(props) + tail == tail;
    } else {
      var p := if Special(props[0]) then Escaped(props[0]) else Plain(props[0]);
      var body := PropParts(props) + tail;
      PropPartsEncoded(props[1..], tail);
      assert body == [p] + (PropParts(props[1..]) + tail);
      assert body[1..] == PropParts(props[1..]) + tail;
      Assoc(EncodePart(p), WriteProps(props[1..]), EncodeBody(tail));
    }
  }

  /** The properties end where the first child begins, and they are no children themselves. */
  lemma {:induction false} PropPartsPositions(props: seq<Byte>, tail: seq<Part>, pos: nat)
    requires tail == [] || tail[0].Child?
    ensures PropsEnd(PropParts(props) + tail, pos) == pos + |WriteProps(props)|
    ensures ChildrenAt(PropParts(props) + tail, pos) == ChildrenAt(tail, pos + |WriteProps(props)|)
  {
    if props == [] {
      assert PropParts(props) + tail == tail;
    } else {
      var p := if Special(props[0]) then Escaped(props[0]) else Plain(props[0]);
      var body := PropParts(props) + tail;
      var rest := PropParts(props[1..]) + tail;
      assert body == [p] + rest;
      PropPartsPositions(props[1..], tail, pos + |EncodePart(p)|);
      NextPart(body, p, rest, pos);
      assert |WriteProps(props)| == |EncodePart(p)| + |WriteProps(props[1..])|;
    }
  }

  /** A property byte in front moves the rest of the body on. */
  lemma {:induction false} NextPart(body: seq<Part>, p: Part, rest: seq<Part>, pos: nat)
    requires body == [p] + rest && !p.Child?
    ensures PropsEnd(body, pos) == PropsEnd(rest, pos + |EncodePart(p)|)
    ensures ChildrenAt(body, pos) == ChildrenAt(rest, pos + |EncodePart(p)|)
  {
    assert body[0] == p && body[1..] == rest;
    assert NodesOf(p, pos) == [];
  }

  /** A document is written as the encoding of its tree. */
  lemma {:induction false} WrittenIsEncoded(d: Doc)
    ensures WellFormed(ToTree(d).body) && EncodePart(Child(ToTree(d))) == Write(d)
    decreases d, 0
  {
    AllWrittenIsEncoded(d.children);
    PropPartsEncoded(d.props, ChildParts(d.children));
    Assoc([START, d.kind], WriteProps(d.props), WriteAll(d.children));
  }

  lemma {:induction false} AllWrittenIsEncoded(docs: seq<Doc>)
    ensures WellFormed(ChildParts(docs)) && EncodeBody(ChildParts(docs)) == WriteAll(docs)
    ensures docs != [] ==> ChildParts(docs)[0].Child?
    decreases docs, 1
  {
    if docs != [] {
      WrittenIsEncoded(docs[0]);
      AllWrittenIsEncoded(docs[1..]);
      assert ChildParts(docs)[1..] == ChildParts(docs[1..]);
    }
  }

  /** Wherever a document is written, the node of its tree matches it. */
  lemma {:induction false} WrittenMatches(file: seq<Byte>, pos: nat, d: Doc)
    requires pos + |Write(d)| <= |file| && file[pos..pos + |Write(d)|] == Write(d)
    ensures Matches(file, NodeAt(ToTree(d), pos), d)
    decreases d, 0
  {
    var t := ToTree(d);
    var n := NodeAt(t, pos);
    NodeOfDoc(d, pos);
    WrittenIsEncoded(d);
    NodeLayout(file, pos, t);
    AllWrittenIsEncoded(d.children);
    PropPartsEncoded(d.props, ChildParts(d.children));
    SplitSlice(file, pos + 2, WriteProps(d.props), WriteAll(d.children));
    AllWrittenMatch(file, n.propsEnd, d.children);
    PropsReadBack(file, n, d.props);
  }

  lemma {:induction false} NodeOfDoc(d: Doc, pos: nat)
    ensures var n := NodeAt(ToTree(d), pos);
            n.kind == d.kind && n.propsBegin == pos + 2 && n.propsEnd == pos + 2 + |WriteProps(d.props)|
            && n.children == ChildrenAt(ChildParts(d.children), n.propsEnd)
  {
    AllWrittenIsEncoded(d.children);
    PropPartsPositions(d.props, ChildParts(d.children), pos + 2);
  }

  lemma {:induction false} PropsReadBack(file: seq<Byte>, n: Node, props: seq<Byte>)
    requires n.propsBegin <= n.propsEnd <= |file| && file[n.propsBegin..n.propsEnd] == WriteProps(props)
    ensures PropsOf(file, n) == if props == [] then None else Some(props)
  {
    UnescapeWritten(props);
    assert props == [] <==> WriteProps(props) == [];
  }

  lemma {:induction false} AllWrittenMatch(file: seq<Byte>, pos: nat, docs: seq<Doc>)
    requires pos + |WriteAll(docs)| <= |file| && file[pos..pos + |WriteAll(docs)|] == WriteAll(docs)
    ensures |ChildrenAt(ChildParts(docs), pos)| == |docs|
    ensures forall i :: 0 <= i < |docs| ==> Matches(file, ChildrenAt(ChildParts(docs), pos)[i], docs[i])
    decreases docs, 1
  {
    if docs != [] {
      var d := docs[0];
      var mid := pos + |Write(d)|;
      SplitSlice(file, pos, Write(d), WriteAll(docs[1..]));
      WrittenIsEncoded(d);
      WrittenMatches(file, pos, d);
      AllWrittenMatch(file, mid, docs[1..]);
      var parts := ChildParts(docs);
      assert parts[0] == Child(ToTree(d)) && parts[1..] == ChildParts(docs[1..]);
      var rest := ChildrenAt(parts[1..], mid);
      assert ChildrenAt(parts, pos) == NodesOf(parts[0], pos) + rest;
      forall i | 0 <= i < |docs|
        ensures Matches(file, ChildrenAt(parts, pos)[i], docs[i])
      {
        if i > 0 {
          assert Matches(file, rest[i - 1], docs[1..][i - 1]);
        }
      }
    }
  }

  /** A written document loads back, types, properties, children and their order, except that the loader
      refuses a file that holds nothing but an empty root. */
  lemma {:induction false} DocRoundTrip(identifier: seq<Byte>, d: Doc)
    requires |identifier| == IDENTIFIER_SIZE
    ensures var file := identifier + Write(d);
            var r := LoadSpec(file, identifier);
            (r.Ok? <==> d.props != [] || d.children != [])
            && (r.Ok? ==> Matches(file, r.value, d))
  {
    var file := identifier + Write(d);
    assert file[..IDENTIFIER_SIZE] == identifier;
    assert file[IDENTIFIER_SIZE..IDENTIFIER_SIZE + |Write(d)|] == Write(d);
    WrittenMatches(file, IDENTIFIER_SIZE, d);
    WrittenIsEncoded(d);
    assert d.props == [] <==> |WriteProps(d.props)| == 0;
    assert d.children == [] <==> |WriteAll(d.children)| == 0 by {
      if d.children != [] { assert |Write(d.children[0])| > 0; }
    }
    if |file| > MINIMAL_SIZE {
      assert file == file[..IDENTIFIER_SIZE] + EncodePart(Child(ToTree(d))) + EncodeBody([]);
      ParseAccepts(file, ToTree(d), []);
    }
  }
}
