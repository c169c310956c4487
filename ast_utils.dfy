/**
 * Tree utilities: `textContent` (without entity decoding) and `visit`, the
 * preorder walker that lets a visitor keep, replace or remove each node.
 */
module AstUtils {
  import opened Wrappers
  import opened AstTypes

  // ---------------------------------------------------------------------------
  // Preorder and text content

  /** The node followed by the preorder of its children. */
  function Preorder(n: Node): (r: seq<Node>)
    ensures |r| >= 1 && r[0] == n
    decreases n, 1
  {
    match n
    case Text(_) => [n]
    case Element(_, _, children) => [n] + PreorderList(children)
  }

  function PreorderList(nodes: seq<Node>): seq<Node>
    decreases nodes, 0
  {
    if nodes == [] then [] else Preorder(nodes[0]) + PreorderList(nodes[1..])
  }

  /** The nodes of `s` that satisfy `p`, in order. */
  function Filter(p: Node -> bool, s: seq<Node>): (r: seq<Node>)
    ensures |r| <= |s|
    ensures forall k :: 0 <= k < |r| ==> p(r[k])
  {
    if s == [] then [] else (if p(s[0]) then [s[0]] else []) + Filter(p, s[1..])
  }

  /** The concatenated payloads of the text nodes of `s`. */
  function Texts(s: seq<Node>): string {
    if s == [] then [] else (if s[0].Text? then s[0].text else []) + Texts(s[1..])
  }

  /**
   * textContent: a text node is its own content; any other node concatenates
   * the content of its children (positions 2 and up), so a comment yields its payload.
   */
  function TextContent(n: Node): string
    decreases n, 1
  {
    match n
    case Text(s) => s
    case Element(_, _, children) => ChildrenText(children)
  }

  function ChildrenText(nodes: seq<Node>): string
    decreases nodes, 0
  {
    if nodes == [] then [] else TextContent(nodes[0]) + ChildrenText(nodes[1..])
  }

  lemma {:induction false} FilterAppend(p: Node -> bool, a: seq<Node>, b: seq<Node>)
    ensures Filter(p, a + b) == Filter(p, a) + Filter(p, b)
    decreases |a|
  {
    if a != [] {
      assert (a + b)[1..] == a[1..] + b;
      FilterAppend(p, a[1..], b);
    } else {
      assert a + b == b;
    }
  }

  lemma {:induction false} TextsAppend(a: seq<Node>, b: seq<Node>)
    ensures Texts(a + b) == Texts(a) + Texts(b)
    decreases |a|
  {
    if a != [] {
      assert (a + b)[1..] == a[1..] + b;
      TextsAppend(a[1..], b);
    } else {
      assert a + b == b;
    }
  }

  /** The text content of a node is the text of the text nodes met in preorder. */
  lemma {:induction false} TextContentIsPreorderText(n: Node)
    ensures TextContent(n) == Texts(Preorder(n))
    decreases n, 1
  {
    match n
    case Text(_) =>
    case Element(_, _, children) =>
      ChildrenTextIsPreorderText(children);
      assert Preorder(n) == [n] + PreorderList(children);
      TextsAppend([n], PreorderList(children));
  }

  lemma {:induction false} ChildrenTextIsPreorderText(nodes: seq<Node>)
    ensures ChildrenText(nodes) == Texts(PreorderList(nodes))
    decreases nodes, 0
  {
    if nodes != [] {
      TextContentIsPreorderText(nodes[0]);
      ChildrenTextIsPreorderText(nodes[1..]);
      TextsAppend(Preorder(nodes[0]), PreorderList(nodes[1..]));
    }
  }

  /** The content of a comment is its payload; of a text node, the text itself. */
  lemma TextContentLeaves(s: string)
    ensures TextContent(Text(s)) == s
    ensures TextContent(Comment(s)) == s
  {
    assert ChildrenText([Text(s)]) == s + ChildrenText([]);
  }

  /** Children's content concatenates: splitting the children splits the text. */
  lemma {:induction false} ChildrenTextAppend(a: seq<Node>, b: seq<Node>)
    ensures ChildrenText(a + b) == ChildrenText(a) + ChildrenText(b)
    decreases |a|
  {
    if a != [] {
      assert (a + b)[1..] == a[1..] + b;
      ChildrenTextAppend(a[1..], b);
    } else {
      assert a + b == b;
    }
  }

  /**
   * The loop of textContent: `out` accumulates the content of children
   * 0 .. i-1 (array positions 2 .. i+1), left to right.
   */
  method ComputeTextContent(n: Node) returns (out: string)
    ensures out == TextContent(n)
    ensures out == Texts(Preorder(n))
    decreases n
  {
    TextContentIsPreorderText(n);
    if n.Text? {
      return n.text;
    }
    out := "";
    var i := 0;
    while i < |n.children|
      invariant 0 <= i <= |n.children|
      invariant out == ChildrenText(n.children[..i])
    {
      var piece := ComputeTextContent(n.children[i]);
      assert n.children[..i + 1] == n.children[..i] + [n.children[i]];
      ChildrenTextAppend(n.children[..i], [n.children[i]]);
      out := out + piece;
      i := i + 1;
    }
    assert n.children[..i] == n.children;
  }

  // ---------------------------------------------------------------------------
  // visit

  /** What a visitor returns: `undefined`, a replacement node, or `false`. */
  datatype Action = Keep | Replace(node: Node) | Remove

  /** What became of a walked node: spliced out, or kept (possibly replaced) with walked children. */
  datatype Outcome = Removed | Kept(node: Node)

  /** The outcome of walking one node, and the nodes handed to the visitor, in call order. */
  datatype Walked = Walked(outcome: Outcome, trace: seq<Node>)

  /** A sibling list after walking it, and the nodes handed to the visitor, in call order. */
  datatype ListWalked = ListWalked(nodes: seq<Node>, trace: seq<Node>)

  /**
   * walk(node): the checker sees the original node; if it accepts, the visitor
   * decides. A removed node's children are never walked; a replacement is not
   * checked again, but its children are walked. `fuel` bounds the recursion
   * depth: None means the walk does not finish within it.
   */
  function WalkNode(checker: Node -> bool, visitor: Node -> Action, node: Node, fuel: nat): Option<Walked>
    decreases fuel, 0, 0
  {
    if fuel == 0 then None
    else if !checker(node) then Descend(checker, visitor, node, [], fuel - 1)
    else match visitor(node)
      case Remove => Some(Walked(Removed, [node]))
      case Keep => Descend(checker, visitor, node, [node], fuel - 1)
      case Replace(r) => Descend(checker, visitor, r, [node], fuel - 1)
  }

  /** Walks the children of the node that stays in the slot; `trace` is what was visited so far. */
  function Descend(checker: Node -> bool, visitor: Node -> Action, current: Node, trace: seq<Node>, fuel: nat): Option<Walked>
    decreases fuel, 2, 0
  {
    match current
    case Text(_) => Some(Walked(Kept(current), trace))
    case Element(tag, attrs, children) =>
      match WalkList(checker, visitor, children, 0, fuel)
      case None => None
      case Some(w) => Some(Walked(Kept(Element(tag, attrs, w.nodes)), trace + w.trace))
  }

  /** Prepends visitor calls made before the rest of a sibling walk. */
  function After(t: seq<Node>, r: Option<ListWalked>): Option<ListWalked> {
    match r
    case None => None
    case Some(w) => Some(ListWalked(w.nodes, t + w.trace))
  }

  /**
   * The cursor loop over a sibling list from index `i`: a removed node is
   * spliced out and the cursor stays, so the next sibling moves into slot `i`;
   * a kept node is written into its slot and the cursor advances.
   */
  function WalkList(checker: Node -> bool, visitor: Node -> Action, nodes: seq<Node>, i: nat, fuel: nat): Option<ListWalked>
    requires i <= |nodes|
    decreases fuel, 1, |nodes| - i
  {
    if i == |nodes| then Some(ListWalked(nodes, []))
    else match WalkNode(checker, visitor, nodes[i], fuel)
      case None => None
      case Some(w) =>
        match w.outcome
        case Removed => After(w.trace, WalkList(checker, visitor, nodes[..i] + nodes[i + 1..], i, fuel))
        case Kept(n) => After(w.trace, WalkList(checker, visitor, nodes[i := n], i + 1, fuel))
  }

  /** visit(tree): the top-level nodes are walked by the same cursor loop; the maps are untouched. */
  function VisitTree(checker: Node -> bool, visitor: Node -> Action, tree: Tree, fuel: nat): Option<(Tree, seq<Node>)> {
    match WalkList(checker, visitor, tree.nodes, 0, fuel)
    case None => None
    case Some(w) => Some((tree.(nodes := w.nodes), w.trace))
  }

  /** Joins two sibling-walk results, left then right; undefined if either is. */
  function Concat(left: Option<ListWalked>, right: Option<ListWalked>): Option<ListWalked> {
    match left
    case None => None
    case Some(l) =>
      match right
      case None => None
      case Some(r) => Some(ListWalked(l.nodes + r.nodes, l.trace + r.trace))
  }

  /** What a walked node leaves in its slot: nothing, or the node that stays. */
  function Survivor(o: Outcome): seq<Node> {
    if o.Kept? then [o.node] else []
  }

  /**
   * Reference definition of a sibling walk without a cursor: walk every
   * node of the list exactly once, independently, left to right, and keep
   * what survives in order.
   */
  function WalkEach(checker: Node -> bool, visitor: Node -> Action, nodes: seq<Node>, fuel: nat): Option<ListWalked>
    decreases |nodes|
  {
    if nodes == [] then Some(ListWalked([], []))
    else match WalkNode(checker, visitor, nodes[0], fuel)
      case None => None
      case Some(w) => Concat(Some(ListWalked(Survivor(w.outcome), w.trace)), WalkEach(checker, visitor, nodes[1..], fuel))
  }

  // ---------------------------------------------------------------------------
  // The walk as the source runs it: a recursive walk and a cursor loop

  /**
   * walk(node, parent, index): the returned outcome is what the caller writes
   * into (or splices out of) the parent's slot.
   */
  method Walk(checker: Node -> bool, visitor: Node -> Action, node: Node, ghost fuel: nat) returns (w: Walked)
    requires WalkNode(checker, visitor, node, fuel).Some?
    ensures WalkNode(checker, visitor, node, fuel) == Some(w)
    decreases fuel, 0, 0
  {
    var currentNode := node;
    var trace: seq<Node> := [];
    if checker(node) {
      var res := visitor(node);
      trace := [node];
      if res == Remove {
        return Walked(Removed, trace);
      }
      if res.Replace? {
        currentNode := res.node;
      }
    }
    assert WalkNode(checker, visitor, node, fuel) == Descend(checker, visitor, currentNode, trace, fuel - 1);
    if currentNode.Element? && |currentNode.children| > 0 {
      var walked := WalkSiblings(checker, visitor, currentNode.children, fuel - 1);
      currentNode := currentNode.(children := walked.nodes);
      trace := trace + walked.trace;
    } else if currentNode.Element? {
      assert currentNode.children == [];
      assert WalkList(checker, visitor, currentNode.children, 0, fuel - 1) == Some(ListWalked([], []));
      assert trace + [] == trace;
    }
    w := Walked(Kept(currentNode), trace);
  }

  /**
   * The while loop shared by walk (over a node's children) and visit (over the
   * top-level nodes): on a removal the list is spliced and the cursor stays;
   * otherwise the slot takes the kept node and the cursor advances. Every
   * iteration shortens `|nodes| - i`.
   */
  method WalkSiblings(checker: Node -> bool, visitor: Node -> Action, nodes0: seq<Node>, ghost fuel: nat) returns (r: ListWalked)
    requires WalkList(checker, visitor, nodes0, 0, fuel).Some?
    ensures WalkList(checker, visitor, nodes0, 0, fuel) == Some(r)
    decreases fuel, 1, 0
  {
    var nodes := nodes0;
    var trace: seq<Node> := [];
    var i := 0;
    AfterNothing(WalkList(checker, visitor, nodes, i, fuel));
    while i < |nodes|
      invariant i <= |nodes|
      invariant WalkList(checker, visitor, nodes0, 0, fuel) == After(trace, WalkList(checker, visitor, nodes, i, fuel))
      decreases |nodes| - i
    {
      var w := Walk(checker, visitor, nodes[i], fuel);
      ghost var before := trace;
      trace := trace + w.trace;
      if w.outcome.Removed? {
        AfterAfter(before, w.trace, WalkList(checker, visitor, nodes[..i] + nodes[i + 1..], i, fuel));
        nodes := nodes[..i] + nodes[i + 1..];
        continue;
      }
      AfterAfter(before, w.trace, WalkList(checker, visitor, nodes[i := w.outcome.node], i + 1, fuel));
      nodes := nodes[i := w.outcome.node];
      i := i + 1;
    }
    assert trace + [] == trace;
    r := ListWalked(nodes, trace);
  }

  /** visit(tree, checker, visitor): the tree's nodes are rewritten, the maps are left alone. */
  method Visit(tree: Tree, checker: Node -> bool, visitor: Node -> Action, ghost fuel: nat) returns (result: Tree, trace: seq<Node>)
    requires VisitTree(checker, visitor, tree, fuel).Some?
    ensures VisitTree(checker, visitor, tree, fuel) == Some((result, trace))
    ensures result.frontmatter == tree.frontmatter && result.meta == tree.meta
    ensures tree.nodes == [] ==> result == tree && trace == []
  {
    var walked := WalkSiblings(checker, visitor, tree.nodes, fuel);
    result := tree.(nodes := walked.nodes);
    trace := walked.trace;
  }

  lemma AfterAfter(t1: seq<Node>, t2: seq<Node>, r: Option<ListWalked>)
    ensures After(t1, After(t2, r)) == After(t1 + t2, r)
  {
    if r.Some? {
      assert t1 + (t2 + r.value.trace) == (t1 + t2) + r.value.trace;
    }
  }

  lemma AfterNothing(r: Option<ListWalked>)
    ensures After([], r) == r
  {
    if r.Some? {
      assert [] + r.value.trace == r.value.trace;
    }
  }

  // ---------------------------------------------------------------------------
  // Properties of visit

  lemma ConcatAssoc(a: Option<ListWalked>, b: Option<ListWalked>, c: Option<ListWalked>)
    ensures Concat(a, Concat(b, c)) == Concat(Concat(a, b), c)
  {
    if a.Some? && b.Some? && c.Some? {
      assert a.value.nodes + (b.value.nodes + c.value.nodes) == (a.value.nodes + b.value.nodes) + c.value.nodes;
      assert a.value.trace + (b.value.trace + c.value.trace) == (a.value.trace + b.value.trace) + c.value.trace;
    }
  }

  lemma ConcatUnit(r: Option<ListWalked>)
    ensures Concat(Some(ListWalked([], [])), r) == r
    ensures Concat(r, Some(ListWalked([], []))) == r
  {
    if r.Some? {
      assert [] + r.value.nodes == r.value.nodes && r.value.nodes + [] == r.value.nodes;
      assert [] + r.value.trace == r.value.trace && r.value.trace + [] == r.value.trace;
    }
  }

  /**
   * The cursor loop (splice and stay, or write and advance) walks each
   * sibling exactly once, in order: from cursor `i` it leaves the first `i`
   * slots alone and behaves as WalkEach on the rest.
   */
  lemma {:induction false} WalkListFrom(checker: Node -> bool, visitor: Node -> Action, nodes: seq<Node>, i: nat, fuel: nat)
    requires i <= |nodes|
    ensures WalkList(checker, visitor, nodes, i, fuel) == Concat(Some(ListWalked(nodes[..i], [])), WalkEach(checker, visitor, nodes[i..], fuel))
    decreases |nodes| - i
  {
    if i == |nodes| {
      assert nodes[..i] == nodes && nodes[i..] == [];
      assert WalkEach(checker, visitor, nodes[i..], fuel) == Some(ListWalked([], []));
      assert nodes + [] == nodes;
      var none: seq<Node> := [];
      assert none + none == none;
    } else {
      assert nodes[i..][0] == nodes[i];
      match WalkNode(checker, visitor, nodes[i], fuel)
      case None =>
      case Some(w) =>
        if w.outcome.Removed? {
          var next := nodes[..i] + nodes[i + 1..];
          WalkListFrom(checker, visitor, next, i, fuel);
          RemovedStep(checker, visitor, nodes, next, i, fuel, w);
        } else {
          var next := nodes[i := w.outcome.node];
          WalkListFrom(checker, visitor, next, i + 1, fuel);
          KeptStep(checker, visitor, nodes, next, i, fuel, w);
        }
    }
  }

  /** WalkListFrom, one step: the node under the cursor is spliced out. */
  lemma RemovedStep(checker: Node -> bool, visitor: Node -> Action, nodes: seq<Node>, next: seq<Node>, i: nat, fuel: nat, w: Walked)
    requires i < |nodes| && WalkNode(checker, visitor, nodes[i], fuel) == Some(w) && w.outcome.Removed?
    requires next == nodes[..i] + nodes[i + 1..]
    requires WalkList(checker, visitor, next, i, fuel) == Concat(Some(ListWalked(next[..i], [])), WalkEach(checker, visitor, next[i..], fuel))
    ensures WalkList(checker, visitor, nodes, i, fuel) == Concat(Some(ListWalked(nodes[..i], [])), WalkEach(checker, visitor, nodes[i..], fuel))
  {
    var rest := nodes[i..];
    assert rest[0] == nodes[i] && rest[1..] == nodes[i + 1..];
    var tail := WalkEach(checker, visitor, nodes[i + 1..], fuel);
    assert WalkEach(checker, visitor, rest, fuel) == Concat(Some(ListWalked(Survivor(w.outcome), w.trace)), tail);
    assert next[..i] == nodes[..i] && next[i..] == nodes[i + 1..];
    assert WalkList(checker, visitor, nodes, i, fuel) == After(w.trace, WalkList(checker, visitor, next, i, fuel));
    if tail.Some? {
      assert Survivor(w.outcome) == [];
      assert [] + tail.value.nodes == tail.value.nodes;
      assert [] + tail.value.trace == tail.value.trace;
      assert [] + (w.trace + tail.value.trace) == w.trace + tail.value.trace;
    }
  }

  /** WalkListFrom, one step: the node under the cursor stays (perhaps replaced) and the cursor moves on. */
  lemma KeptStep(checker: Node -> bool, visitor: Node -> Action, nodes: seq<Node>, next: seq<Node>, i: nat, fuel: nat, w: Walked)
    requires i < |nodes| && WalkNode(checker, visitor, nodes[i], fuel) == Some(w) && w.outcome.Kept?
    requires next == nodes[i := w.outcome.node]
    requires WalkList(checker, visitor, next, i + 1, fuel) == Concat(Some(ListWalked(next[..i + 1], [])), WalkEach(checker, visitor, next[i + 1..], fuel))
    ensures WalkList(checker, visitor, nodes, i, fuel) == Concat(Some(ListWalked(nodes[..i], [])), WalkEach(checker, visitor, nodes[i..], fuel))
  {
    var n := w.outcome.node;
    var rest := nodes[i..];
    assert rest[0] == nodes[i] && rest[1..] == nodes[i + 1..];
    var tail := WalkEach(checker, visitor, nodes[i + 1..], fuel);
    assert WalkEach(checker, visitor, rest, fuel) == Concat(Some(ListWalked(Survivor(w.outcome), w.trace)), tail);
    assert next[..i + 1] == nodes[..i] + [n] && next[i + 1..] == nodes[i + 1..];
    assert WalkList(checker, visitor, nodes, i, fuel) == After(w.trace, WalkList(checker, visitor, next, i + 1, fuel));
    if tail.Some? {
      assert [] + (w.trace + tail.value.trace) == w.trace + tail.value.trace;
      assert (nodes[..i] + [n]) + tail.value.nodes == nodes[..i] + ([n] + tail.value.nodes);
      assert [] + tail.value.trace == tail.value.trace;
    }
  }

  /** A whole sibling list (the top-level nodes, or an element's children) is walked as WalkEach. */
  lemma WalkListIsEach(checker: Node -> bool, visitor: Node -> Action, nodes: seq<Node>, fuel: nat)
    ensures WalkList(checker, visitor, nodes, 0, fuel) == WalkEach(checker, visitor, nodes, fuel)
  {
    WalkListFrom(checker, visitor, nodes, 0, fuel);
    assert nodes[..0] == [] && nodes[0..] == nodes;
    ConcatUnit(WalkEach(checker, visitor, nodes, fuel));
  }

  /** Walking a list in two parts: the walk of one sibling never affects another. */
  lemma {:induction false} WalkEachAppend(checker: Node -> bool, visitor: Node -> Action, a: seq<Node>, b: seq<Node>, fuel: nat)
    ensures WalkEach(checker, visitor, a + b, fuel) == Concat(WalkEach(checker, visitor, a, fuel), WalkEach(checker, visitor, b, fuel))
    decreases |a|
  {
    if a == [] {
      assert a + b == b;
      ConcatUnit(WalkEach(checker, visitor, b, fuel));
    } else {
      assert (a + b)[0] == a[0] && (a + b)[1..] == a[1..] + b;
      WalkEachAppend(checker, visitor, a[1..], b, fuel);
      match WalkNode(checker, visitor, a[0], fuel)
      case None =>
      case Some(w) =>
        ConcatAssoc(Some(ListWalked(Survivor(w.outcome), w.trace)), WalkEach(checker, visitor, a[1..], fuel), WalkEach(checker, visitor, b, fuel));
    }
  }

  /**
   * Returning `false` splices the node out: it is handed to the visitor once,
   * its children are never walked, the siblings before it are walked as if it
   * were not there, and so are the siblings after it, each exactly once.
   */
  lemma RemovedNodeSplicedOut(checker: Node -> bool, visitor: Node -> Action, a: seq<Node>, x: Node, b: seq<Node>, fuel: nat)
    requires fuel > 0 && checker(x) && visitor(x) == Remove
    ensures WalkList(checker, visitor, a + [x] + b, 0, fuel)
         == Concat(WalkList(checker, visitor, a, 0, fuel), Concat(Some(ListWalked([], [x])), WalkList(checker, visitor, b, 0, fuel)))
  {
    WalkListIsEach(checker, visitor, a + [x] + b, fuel);
    WalkListIsEach(checker, visitor, a, fuel);
    WalkListIsEach(checker, visitor, b, fuel);
    assert a + [x] + b == a + ([x] + b);
    WalkEachAppend(checker, visitor, a, [x] + b, fuel);
    assert ([x] + b)[0] == x && ([x] + b)[1..] == b;
  }

  /**
   * Returning a node overwrites the slot: the replacement takes the place of
   * the original (among unchanged neighbours' walks), it is not handed to the
   * checker or visitor itself, and its children are walked after the original.
   */
  lemma ReplacedNodeFillsSlot(checker: Node -> bool, visitor: Node -> Action, a: seq<Node>, x: Node, y: Node, b: seq<Node>,
                              walkedChildren: ListWalked, fuel: nat)
    requires fuel > 0 && checker(x) && visitor(x) == Replace(y) && y.Element?
    requires WalkList(checker, visitor, y.children, 0, fuel - 1) == Some(walkedChildren)
    ensures WalkList(checker, visitor, a + [x] + b, 0, fuel)
         == Concat(WalkList(checker, visitor, a, 0, fuel),
                   Concat(Some(ListWalked([Element(y.tag, y.attrs, walkedChildren.nodes)], [x] + walkedChildren.trace)),
                          WalkList(checker, visitor, b, 0, fuel)))
  {
    WalkListIsEach(checker, visitor, a + [x] + b, fuel);
    WalkListIsEach(checker, visitor, a, fuel);
    WalkListIsEach(checker, visitor, b, fuel);
    assert a + [x] + b == a + ([x] + b);
    WalkEachAppend(checker, visitor, a, [x] + b, fuel);
    assert ([x] + b)[0] == x && ([x] + b)[1..] == b;
    var slot := Element(y.tag, y.attrs, walkedChildren.nodes);
    assert WalkNode(checker, visitor, x, fuel) == Some(Walked(Kept(slot), [x] + walkedChildren.trace));
    assert WalkEach(checker, visitor, [x] + b, fuel)
        == Concat(Some(ListWalked([slot], [x] + walkedChildren.trace)), WalkEach(checker, visitor, b, fuel));
  }

  /** The nesting depth of a node: the fuel a walk of it needs when nothing is replaced. */
  function Height(n: Node): (h: nat)
    ensures h >= 1
    decreases n, 1
  {
    match n
    case Text(_) => 1
    case Element(_, _, children) => 1 + MaxHeight(children)
  }

  function MaxHeight(nodes: seq<Node>): (h: nat)
    ensures forall k :: 0 <= k < |nodes| ==> Height(nodes[k]) <= h
    decreases nodes, 0
  {
    if nodes == [] then 0
    else
      var rest := MaxHeight(nodes[1..]);
      assert forall k :: 1 <= k < |nodes| ==> nodes[k] == nodes[1..][k - 1];
      if Height(nodes[0]) > rest then Height(nodes[0]) else rest
  }

  /**
   * A visitor that always returns `undefined` changes nothing and is handed
   * exactly the checked nodes, in preorder: parent before children, siblings
   * left to right, text leaves included.
   */
  lemma {:induction false} KeepingWalkIsPreorder(checker: Node -> bool, visitor: Node -> Action, n: Node, fuel: nat)
    requires forall m :: visitor(m) == Keep
    requires fuel >= Height(n)
    ensures WalkNode(checker, visitor, n, fuel) == Some(Walked(Kept(n), Filter(checker, Preorder(n))))
    decreases n, 1
  {
    var head := if checker(n) then [n] else [];
    assert WalkNode(checker, visitor, n, fuel) == Descend(checker, visitor, n, head, fuel - 1);
    assert Filter(checker, [n]) == head by {
      assert [n][1..] == [];
    }
    match n
    case Text(_) =>
      assert head + [] == head;
    case Element(tag, attrs, children) =>
      var below := Filter(checker, PreorderList(children));
      assert WalkList(checker, visitor, children, 0, fuel - 1) == Some(ListWalked(children, below)) by {
        KeepingWalkEachIsPreorder(checker, visitor, children, fuel - 1);
        WalkListIsEach(checker, visitor, children, fuel - 1);
      }
      assert Descend(checker, visitor, n, head, fuel - 1) == Some(Walked(Kept(n), head + below));
      assert Filter(checker, Preorder(n)) == head + below by {
        assert Preorder(n) == [n] + PreorderList(children);
        FilterAppend(checker, [n], PreorderList(children));
      }
  }

  lemma {:induction false} KeepingWalkEachIsPreorder(checker: Node -> bool, visitor: Node -> Action, nodes: seq<Node>, fuel: nat)
    requires forall m :: visitor(m) == Keep
    requires fuel >= MaxHeight(nodes)
    ensures WalkEach(checker, visitor, nodes, fuel) == Some(ListWalked(nodes, Filter(checker, PreorderList(nodes))))
    decreases nodes, 0
  {
    if nodes != [] {
      KeepingWalkIsPreorder(checker, visitor, nodes[0], fuel);
      KeepingWalkEachIsPreorder(checker, visitor, nodes[1..], fuel);
      FilterAppend(checker, Preorder(nodes[0]), PreorderList(nodes[1..]));
      assert [nodes[0]] + nodes[1..] == nodes;
    }
  }

  /** At the top level: `visit` with an always-`undefined` visitor leaves the tree as it was. */
  lemma KeepingVisitIsPreorder(checker: Node -> bool, visitor: Node -> Action, tree: Tree, fuel: nat)
    requires forall m :: visitor(m) == Keep
    requires fuel >= MaxHeight(tree.nodes)
    ensures VisitTree(checker, visitor, tree, fuel) == Some((tree, Filter(checker, PreorderList(tree.nodes))))
  {
    WalkListIsEach(checker, visitor, tree.nodes, fuel);
    KeepingWalkEachIsPreorder(checker, visitor, tree.nodes, fuel);
  }

  /** Every node handed to the visitor was accepted by the checker. */
  predicate AllChecked(checker: Node -> bool, trace: seq<Node>) {
    forall k :: 0 <= k < |trace| ==> checker(trace[k])
  }

  lemma AllCheckedAppend(checker: Node -> bool, a: seq<Node>, b: seq<Node>)
    requires AllChecked(checker, a) && AllChecked(checker, b)
    ensures AllChecked(checker, a + b)
  {
    forall k | 0 <= k < |a + b|
      ensures checker((a + b)[k])
    {
      if k >= |a| {
        assert (a + b)[k] == b[k - |a|];
      }
    }
  }

  lemma {:induction false} NodeCallsChecked(checker: Node -> bool, visitor: Node -> Action, n: Node, fuel: nat)
    ensures WalkNode(checker, visitor, n, fuel).Some? ==> AllChecked(checker, WalkNode(checker, visitor, n, fuel).value.trace)
    decreases fuel, 0, 0
  {
    if fuel > 0 && !(checker(n) && visitor(n) == Remove) {
      var head := if checker(n) then [n] else [];
      var current := if checker(n) && visitor(n).Replace? then visitor(n).node else n;
      assert WalkNode(checker, visitor, n, fuel) == Descend(checker, visitor, current, head, fuel - 1);
      DescendCallsChecked(checker, visitor, current, head, fuel - 1);
    }
  }

  lemma {:induction false} DescendCallsChecked(checker: Node -> bool, visitor: Node -> Action, current: Node, trace: seq<Node>, fuel: nat)
    requires AllChecked(checker, trace)
    ensures Descend(checker, visitor, current, trace, fuel).Some? ==> AllChecked(checker, Descend(checker, visitor, current, trace, fuel).value.trace)
    decreases fuel, 2, 0
  {
    if current.Element? {
      ListCallsChecked(checker, visitor, current.children, 0, fuel);
      var r := WalkList(checker, visitor, current.children, 0, fuel);
      if r.Some? {
        AllCheckedAppend(checker, trace, r.value.trace);
      }
    }
  }

  lemma {:induction false} ListCallsChecked(checker: Node -> bool, visitor: Node -> Action, nodes: seq<Node>, i: nat, fuel: nat)
    requires i <= |nodes|
    ensures WalkList(checker, visitor, nodes, i, fuel).Some? ==> AllChecked(checker, WalkList(checker, visitor, nodes, i, fuel).value.trace)
    decreases fuel, 1, |nodes| - i
  {
    if i < |nodes| {
      NodeCallsChecked(checker, visitor, nodes[i], fuel);
      match WalkNode(checker, visitor, nodes[i], fuel)
      case None =>
      case Some(w) =>
        var next := if w.outcome.Removed? then nodes[..i] + nodes[i + 1..] else nodes[i := w.outcome.node];
        var j := if w.outcome.Removed? then i else i + 1;
        assert WalkList(checker, visitor, nodes, i, fuel) == After(w.trace, WalkList(checker, visitor, next, j, fuel));
        ListCallsChecked(checker, visitor, next, j, fuel);
        var r := WalkList(checker, visitor, next, j, fuel);
        if r.Some? {
          AllCheckedAppend(checker, w.trace, r.value.trace);
        }
    }
  }

  /** `visit` hands the visitor only nodes the checker accepted. */
  lemma VisitorSeesOnlyChecked(checker: Node -> bool, visitor: Node -> Action, tree: Tree, fuel: nat)
    ensures VisitTree(checker, visitor, tree, fuel).Some? ==> AllChecked(checker, VisitTree(checker, visitor, tree, fuel).value.1)
  {
    ListCallsChecked(checker, visitor, tree.nodes, 0, fuel);
  }

  lemma {:induction false} RemovingEachEmpties(checker: Node -> bool, visitor: Node -> Action, nodes: seq<Node>, fuel: nat)
    requires fuel > 0
    requires forall m :: checker(m) && visitor(m) == Remove
    ensures WalkEach(checker, visitor, nodes, fuel) == Some(ListWalked([], nodes))
    decreases |nodes|
  {
    if nodes != [] {
      RemovingEachEmpties(checker, visitor, nodes[1..], fuel);
      assert WalkNode(checker, visitor, nodes[0], fuel) == Some(Walked(Removed, [nodes[0]]));
      var none: seq<Node> := [];
      assert Survivor(Removed) == none && none + none == none;
      assert [nodes[0]] + nodes[1..] == nodes;
    }
  }

  /**
   * A visitor that removes every node empties the top-level list; each
   * top-level node is handed to it exactly once, in order, and no child is.
   */
  lemma RemovingEverythingEmpties(checker: Node -> bool, visitor: Node -> Action, tree: Tree, fuel: nat)
    requires fuel > 0
    requires forall m :: checker(m) && visitor(m) == Remove
    ensures VisitTree(checker, visitor, tree, fuel) == Some((tree.(nodes := []), tree.nodes))
  {
    WalkListIsEach(checker, visitor, tree.nodes, fuel);
    RemovingEachEmpties(checker, visitor, tree.nodes, fuel);
  }

  // ---------------------------------------------------------------------------
  // Termination

  /** Once a walk finishes within some fuel, more fuel gives the same result. */
  lemma {:induction false} NodeFuelMonotone(checker: Node -> bool, visitor: Node -> Action, n: Node, f: nat, g: nat)
    requires f <= g && WalkNode(checker, visitor, n, f).Some?
    ensures WalkNode(checker, visitor, n, g) == WalkNode(checker, visitor, n, f)
    decreases f, 0, 0
  {
    if !(checker(n) && visitor(n) == Remove) {
      var head := if checker(n) then [n] else [];
      var current := if checker(n) && visitor(n).Replace? then visitor(n).node else n;
      assert WalkNode(checker, visitor, n, f) == Descend(checker, visitor, current, head, f - 1);
      assert WalkNode(checker, visitor, n, g) == Descend(checker, visitor, current, head, g - 1);
      DescendFuelMonotone(checker, visitor, current, head, f - 1, g - 1);
    }
  }

  lemma {:induction false} DescendFuelMonotone(checker: Node -> bool, visitor: Node -> Action, current: Node, trace: seq<Node>, f: nat, g: nat)
    requires f <= g && Descend(checker, visitor, current, trace, f).Some?
    ensures Descend(checker, visitor, current, trace, g) == Descend(checker, visitor, current, trace, f)
    decreases f, 2, 0
  {
    if current.Element? {
      ListFuelMonotone(checker, visitor, current.children, 0, f, g);
    }
  }

  lemma {:induction false} ListFuelMonotone(checker: Node -> bool, visitor: Node -> Action, nodes: seq<Node>, i: nat, f: nat, g: nat)
    requires i <= |nodes| && f <= g && WalkList(checker, visitor, nodes, i, f).Some?
    ensures WalkList(checker, visitor, nodes, i, g) == WalkList(checker, visitor, nodes, i, f)
    decreases f, 1, |nodes| - i
  {
    if i < |nodes| {
      var w := WalkNode(checker, visitor, nodes[i], f).value;
      NodeFuelMonotone(checker, visitor, nodes[i], f, g);
      var next := if w.outcome.Removed? then nodes[..i] + nodes[i + 1..] else nodes[i := w.outcome.node];
      var j := if w.outcome.Removed? then i else i + 1;
      assert WalkList(checker, visitor, nodes, i, f) == After(w.trace, WalkList(checker, visitor, next, j, f));
      assert WalkList(checker, visitor, nodes, i, g) == After(w.trace, WalkList(checker, visitor, next, j, g));
      ListFuelMonotone(checker, visitor, next, j, f, g);
    }
  }

  /** The result of `visit` does not depend on the fuel, once there is enough. */
  lemma VisitFuelIrrelevant(checker: Node -> bool, visitor: Node -> Action, tree: Tree, f: nat, g: nat)
    requires f <= g && VisitTree(checker, visitor, tree, f).Some?
    ensures VisitTree(checker, visitor, tree, g) == VisitTree(checker, visitor, tree, f)
  {
    ListFuelMonotone(checker, visitor, tree.nodes, 0, f, g);
  }

  lemma {:induction false} NoReplaceNodeFinishes(checker: Node -> bool, visitor: Node -> Action, n: Node, fuel: nat)
    requires forall m :: !visitor(m).Replace?
    requires fuel >= Height(n)
    ensures WalkNode(checker, visitor, n, fuel).Some?
    decreases n, 1
  {
    if !(checker(n) && visitor(n) == Remove) {
      var head := if checker(n) then [n] else [];
      assert WalkNode(checker, visitor, n, fuel) == Descend(checker, visitor, n, head, fuel - 1);
      if n.Element? {
        NoReplaceEachFinishes(checker, visitor, n.children, fuel - 1);
        WalkListIsEach(checker, visitor, n.children, fuel - 1);
      }
    }
  }

  lemma {:induction false} NoReplaceEachFinishes(checker: Node -> bool, visitor: Node -> Action, nodes: seq<Node>, fuel: nat)
    requires forall m :: !visitor(m).Replace?
    requires fuel >= MaxHeight(nodes)
    ensures WalkEach(checker, visitor, nodes, fuel).Some?
    decreases nodes, 0
  {
    if nodes != [] {
      NoReplaceNodeFinishes(checker, visitor, nodes[0], fuel);
      assert MaxHeight(nodes[1..]) <= MaxHeight(nodes);
      NoReplaceEachFinishes(checker, visitor, nodes[1..], fuel);
    }
  }

  /**
   * Without replacements each step either advances a cursor or shortens a
   * list, and the recursion is bounded by the tree's height: `visit` finishes.
   */
  lemma NoReplaceVisitFinishes(checker: Node -> bool, visitor: Node -> Action, tree: Tree)
    requires forall m :: !visitor(m).Replace?
    ensures VisitTree(checker, visitor, tree, MaxHeight(tree.nodes)).Some?
  {
    NoReplaceEachFinishes(checker, visitor, tree.nodes, MaxHeight(tree.nodes));
    WalkListIsEach(checker, visitor, tree.nodes, MaxHeight(tree.nodes));
  }

  /** A checker that accepts every node. */
  function AcceptAll(m: Node): bool {
    true
  }

  /** A visitor that wraps every text node in a `p` element. */
  function WrapText(m: Node): Action {
    if m.Text? then Replace(Element(Named("p"), map[], [m])) else Keep
  }

  /**
   * Replacements can make `visit` run forever: the wrapper's child is the
   * same text node, which is checked and wrapped again, at every depth.
   */
  lemma {:induction false} WrappingTextNeverFinishes(s: string, fuel: nat)
    ensures WalkNode(AcceptAll, WrapText, Text(s), fuel).None?
    decreases fuel
  {
    if fuel > 0 {
      WrappingTextNeverFinishes(s, fuel - 1);
      var wrapper := Element(Named("p"), map[], [Text(s)]);
      assert WalkNode(AcceptAll, WrapText, Text(s), fuel) == Descend(AcceptAll, WrapText, wrapper, [Text(s)], fuel - 1);
      assert WalkList(AcceptAll, WrapText, [Text(s)], 0, fuel - 1).None?;
    }
  }
}
