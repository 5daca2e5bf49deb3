/**
 * The drag-and-drop tree of src/app/test.tsx: a forest of nodes with a text
 * and optional children, the three helpers of its TreeNode component
 * (findNodeById, removeNodeById, insertNode) and the effect of a drop on the
 * component's `childNodes` state.
 */
module ScratchTree {
  import opened Wrappers

  /** `interface Node` (src/app/test.tsx:4-8); `children` may be absent. */
  datatype Node = Node(id: string, text: string, children: Children)
  datatype Children = Absent | Present(nodes: seq<Node>)

  /** `node.children || []`. */
  function ChildrenOrEmpty(c: Children): seq<Node>
  {
    match c
    case Absent => []
    case Present(nodes) => nodes
  }

  /** The nodes of `n` in depth-first pre-order; absent children add none. */
  function Preorder(n: Node): seq<Node>
    decreases n
  {
    [n] + match n.children
          case Absent => []
          case Present(nodes) => ForestPreorder(nodes)
  }

  function ForestPreorder(nodes: seq<Node>): seq<Node>
    decreases nodes
  {
    if nodes == [] then [] else Preorder(nodes[0]) + ForestPreorder(nodes[1..])
  }

  /** The first node of `ns` with id `id`. */
  function FirstWithId(ns: seq<Node>, id: string): (r: Option<Node>)
    ensures r.Some? ==> r.value.id == id && r.value in ns
    ensures r.None? <==> forall k :: 0 <= k < |ns| ==> ns[k].id != id
  {
    if ns == [] then None
    else if ns[0].id == id then Some(ns[0])
    else FirstWithId(ns[1..], id)
  }

  lemma {:induction false} FirstWithIdAppend(a: seq<Node>, b: seq<Node>, id: string)
    ensures FirstWithId(a + b, id) == if FirstWithId(a, id).Some? then FirstWithId(a, id) else FirstWithId(b, id)
  {
    if a == [] {
      assert a + b == b;
    } else {
      assert (a + b)[1..] == a[1..] + b;
      FirstWithIdAppend(a[1..], b, id);
    }
  }

  lemma {:induction false} ForestPreorderAppend(a: seq<Node>, b: seq<Node>)
    ensures ForestPreorder(a + b) == ForestPreorder(a) + ForestPreorder(b)
  {
    if a == [] {
      assert a + b == b;
    } else {
      assert (a + b)[1..] == a[1..] + b;
      ForestPreorderAppend(a[1..], b);
    }
  }

  /** The pre-order of a forest, cut around its `i`-th tree. */
  lemma {:induction false} ForestPreorderAt(nodes: seq<Node>, i: int)
    requires 0 <= i < |nodes|
    ensures ForestPreorder(nodes) == ForestPreorder(nodes[..i]) + Preorder(nodes[i]) + ForestPreorder(nodes[i + 1..])
  {
    var x, before, after := nodes[i], nodes[..i], nodes[i + 1..];
    calc {
      ForestPreorder(nodes);
      { assert nodes == (before + [x]) + after; }
      ForestPreorder((before + [x]) + after);
      { ForestPreorderAppend(before + [x], after); }
      ForestPreorder(before + [x]) + ForestPreorder(after);
      { ForestPreorderAppend(before, [x]); ForestPreorderSingle(x); }
      ForestPreorder(before) + Preorder(x) + ForestPreorder(after);
    }
  }

  lemma ForestPreorderSingle(x: Node)
    ensures ForestPreorder([x]) == Preorder(x)
  {
    assert [x][1..] == [];
    assert ForestPreorder([x]) == Preorder(x) + [];
  }

  // ---------------------------------------------------------------------
  // findNodeById (src/app/test.tsx:49-62)
  // ---------------------------------------------------------------------

  /**
   * findNodeById: scans the forest with an index loop, returning a node
   * whose id matches, else the first match inside its children (when it has
   * any), else going on; the result is the first match in pre-order.
   */
  method FindNodeById(nodes: seq<Node>, nodeId: string) returns (r: Option<Node>)
    ensures r == FirstWithId(ForestPreorder(nodes), nodeId)
    decreases nodes
  {
    var i := 0;
    while i < |nodes|
      invariant 0 <= i <= |nodes|
      invariant FirstWithId(ForestPreorder(nodes[..i]), nodeId) == None
    {
      var n := nodes[i];
      FindStep(nodes, i, nodeId);
      if n.id == nodeId {
        return Some(n);
      }
      if n.children.Present? {
        var foundNode := FindNodeById(n.children.nodes, nodeId);
        if foundNode.Some? {
          return foundNode;
        }
      }
      i := i + 1;
    }
    assert nodes[..i] == nodes;
    return None;
  }

  /**
   * One step of the scan: with no match before tree `i`, the first match of
   * the forest is that tree's root, else the first match below it, else none
   * up to and including tree `i`.
   */
  lemma FindStep(nodes: seq<Node>, i: int, nodeId: string)
    requires 0 <= i < |nodes| && FirstWithId(ForestPreorder(nodes[..i]), nodeId) == None
    ensures var n := nodes[i];
            var below := FirstWithId(ForestPreorder(ChildrenOrEmpty(n.children)), nodeId);
            && (n.id == nodeId ==> FirstWithId(ForestPreorder(nodes), nodeId) == Some(n))
            && (n.id != nodeId && below.Some? ==> FirstWithId(ForestPreorder(nodes), nodeId) == below)
            && (n.id != nodeId && below.None? ==> FirstWithId(ForestPreorder(nodes[..i + 1]), nodeId) == None)
  {
    var n := nodes[i];
    assert nodes[..i + 1] == nodes[..i] + [n];
    ForestPreorderAppend(nodes[..i], [n]);
    ForestPreorderSingle(n);
    var before := ForestPreorder(nodes[..i]);
    var below := ForestPreorder(ChildrenOrEmpty(n.children));
    assert Preorder(n) == [n] + below;
    ForestPreorderAt(nodes, i);
    FirstWithIdAppend(before + Preorder(n), ForestPreorder(nodes[i + 1..]), nodeId);
    FirstWithIdAppend(before, Preorder(n), nodeId);
    FirstWithIdAppend([n], below, nodeId);
  }

  // ---------------------------------------------------------------------
  // removeNodeById (src/app/test.tsx:64-66)
  // ---------------------------------------------------------------------

  /** `nodes.filter((node) => node.id !== nodeId)`: only the top level is looked at. */
  function RemoveNodeById(nodes: seq<Node>, nodeId: string): (r: seq<Node>)
    ensures forall n :: n in r <==> n in nodes && n.id != nodeId
    ensures |r| <= |nodes|
  {
    if nodes == [] then []
    else if nodes[0].id == nodeId then RemoveNodeById(nodes[1..], nodeId)
    else [nodes[0]] + RemoveNodeById(nodes[1..], nodeId)
  }

  /** The filter works entry by entry, so it keeps the order of what it keeps. */
  lemma {:induction false} RemoveAppend(a: seq<Node>, b: seq<Node>, nodeId: string)
    ensures RemoveNodeById(a + b, nodeId) == RemoveNodeById(a, nodeId) + RemoveNodeById(b, nodeId)
  {
    if a == [] {
      assert a + b == b;
    } else {
      assert (a + b)[1..] == a[1..] + b;
      RemoveAppend(a[1..], b, nodeId);
    }
  }

  /** Removing twice removes no more than removing once. */
  lemma {:induction false} RemoveIdempotent(nodes: seq<Node>, nodeId: string)
    ensures RemoveNodeById(RemoveNodeById(nodes, nodeId), nodeId) == RemoveNodeById(nodes, nodeId)
  {
    RemoveAbsent(RemoveNodeById(nodes, nodeId), nodeId);
  }

  /** With no top-level entry of that id, the list comes back unchanged. */
  lemma {:induction false} RemoveAbsent(nodes: seq<Node>, nodeId: string)
    requires forall k :: 0 <= k < |nodes| ==> nodes[k].id != nodeId
    ensures RemoveNodeById(nodes, nodeId) == nodes
  {
    if nodes != [] {
      RemoveAbsent(nodes[1..], nodeId);
    }
  }

  // ---------------------------------------------------------------------
  // insertNode (src/app/test.tsx:68-88)
  // ---------------------------------------------------------------------

  /** `{ ...node, children: [...(node.children || []), newNode] }`. */
  function WithChild(node: Node, newNode: Node): Node
  {
    Node(node.id, node.text, Present(ChildrenOrEmpty(node.children) + [newNode]))
  }

  /**
   * insertNode: maps every entry of the forest, appending `newNode` to the
   * children of an entry with id `parentId` (not looking further inside it),
   * and otherwise recursing into the entry's children when it has them.
   */
  function InsertNode(nodes: seq<Node>, newNode: Node, parentId: string): (r: seq<Node>)
    ensures |r| == |nodes|
    ensures forall i :: 0 <= i < |nodes| ==> r[i].id == nodes[i].id && r[i].text == nodes[i].text
    decreases nodes
  {
    if nodes == [] then []
    else [InsertInto(nodes[0], newNode, parentId)] + InsertNode(nodes[1..], newNode, parentId)
  }

  /** The callback insertNode maps over the forest. */
  function InsertInto(node: Node, newNode: Node, parentId: string): (r: Node)
    ensures r.id == node.id && r.text == node.text
    decreases node
  {
    if node.id == parentId then WithChild(node, newNode)
    else if node.children.Present? then
      Node(node.id, node.text, Present(InsertNode(node.children.nodes, newNode, parentId)))
    else node
  }

  /**
   * An entry with id `parentId` gets `newNode` as its new last child after
   * its old children (none when it had none), and nothing inside it changes.
   */
  lemma {:induction false} InsertAtMatch(nodes: seq<Node>, newNode: Node, parentId: string, i: int)
    requires 0 <= i < |nodes| && nodes[i].id == parentId
    ensures InsertNode(nodes, newNode, parentId)[i].children
         == Present(ChildrenOrEmpty(nodes[i].children) + [newNode])
    decreases nodes
  {
    if i > 0 {
      InsertAtMatch(nodes[1..], newNode, parentId, i - 1);
    }
  }

  /** When no node of the forest has id `parentId`, insertNode changes nothing. */
  lemma {:induction false} InsertAbsent(nodes: seq<Node>, newNode: Node, parentId: string)
    requires FirstWithId(ForestPreorder(nodes), parentId) == None
    ensures InsertNode(nodes, newNode, parentId) == nodes
    decreases nodes
  {
    if nodes != [] {
      FirstWithIdAppend(Preorder(nodes[0]), ForestPreorder(nodes[1..]), parentId);
      InsertIntoAbsent(nodes[0], newNode, parentId);
      InsertAbsent(nodes[1..], newNode, parentId);
    }
  }

  lemma {:induction false} InsertIntoAbsent(node: Node, newNode: Node, parentId: string)
    requires FirstWithId(Preorder(node), parentId) == None
    ensures InsertInto(node, newNode, parentId) == node
    decreases node
  {
    if node.children.Present? {
      var rest := ForestPreorder(node.children.nodes);
      FirstWithIdAppend([node], rest, parentId);
      InsertAbsent(node.children.nodes, newNode, parentId);
    }
  }

  /**
   * After insertNode, findNodeById finds at `parentId` the node it found
   * before, with `newNode` appended to its children.
   */
  lemma {:induction false} FindAfterInsert(nodes: seq<Node>, newNode: Node, parentId: string)
    requires FirstWithId(ForestPreorder(nodes), parentId).Some?
    ensures FirstWithId(ForestPreorder(InsertNode(nodes, newNode, parentId)), parentId)
         == Some(WithChild(FirstWithId(ForestPreorder(nodes), parentId).value, newNode))
    decreases nodes
  {
    var r := InsertNode(nodes, newNode, parentId);
    assert r[1..] == InsertNode(nodes[1..], newNode, parentId);
    FirstWithIdAppend(Preorder(nodes[0]), ForestPreorder(nodes[1..]), parentId);
    FirstWithIdAppend(Preorder(r[0]), ForestPreorder(r[1..]), parentId);
    if FirstWithId(Preorder(nodes[0]), parentId).Some? {
      FindAfterInsertInto(nodes[0], newNode, parentId);
    } else {
      InsertIntoAbsent(nodes[0], newNode, parentId);
      FindAfterInsert(nodes[1..], newNode, parentId);
    }
  }

  lemma {:induction false} FindAfterInsertInto(node: Node, newNode: Node, parentId: string)
    requires FirstWithId(Preorder(node), parentId).Some?
    ensures FirstWithId(Preorder(InsertInto(node, newNode, parentId)), parentId)
         == Some(WithChild(FirstWithId(Preorder(node), parentId).value, newNode))
    decreases node
  {
    var r := InsertInto(node, newNode, parentId);
    if node.id != parentId {
      assert node.children.Present?;
      var cs := node.children.nodes;
      FirstWithIdAppend([node], ForestPreorder(cs), parentId);
      FirstWithIdAppend([r], ForestPreorder(r.children.nodes), parentId);
      FindAfterInsert(cs, newNode, parentId);
    }
  }

  // ---------------------------------------------------------------------
  // TreeNode and handleDrop (src/app/test.tsx:15-47)
  // ---------------------------------------------------------------------

  /**
   * The net effect of handleDrop on `childNodes`: nothing when the dropped
   * id is not found below; otherwise insertNode applied to the list the
   * handler started from -- the filtered list of line 39 is stored and then
   * overwritten by line 44, which does not start from it.
   */
  function AfterDrop(childNodes: seq<Node>, nodeId: string, droppedNodeId: string): (r: seq<Node>)
    ensures |r| == |childNodes|
    ensures forall i :: 0 <= i < |r| ==> r[i].id == childNodes[i].id && r[i].text == childNodes[i].text
  {
    match FirstWithId(ForestPreorder(childNodes), droppedNodeId)
    case None => childNodes
    case Some(droppedNode) => InsertNode(childNodes, droppedNode, nodeId)
  }

  /**
   * When no node below carries the component's own id -- always so when ids
   * are unique -- a drop leaves `childNodes` as it was.
   */
  lemma DropChangesNothing(childNodes: seq<Node>, nodeId: string, droppedNodeId: string)
    requires FirstWithId(ForestPreorder(childNodes), nodeId) == None
    ensures AfterDrop(childNodes, nodeId, droppedNodeId) == childNodes
  {
    match FirstWithId(ForestPreorder(childNodes), droppedNodeId)
    case None =>
    case Some(droppedNode) => InsertAbsent(childNodes, droppedNode, nodeId);
  }

  /** The TreeNode component: its `node` prop and its `childNodes` state. */
  class TreeNode {
    const node: Node
    var childNodes: seq<Node>

    /** `useState<Node[]>(node.children || [])` (src/app/test.tsx:17). */
    constructor(node: Node)
      ensures this.node == node && childNodes == ChildrenOrEmpty(node.children)
    {
      this.node := node;
      childNodes := ChildrenOrEmpty(node.children);
    }

    /**
     * handleDrop (src/app/test.tsx:32-47), given the id the drag carried.
     * Both state updates start from `snapshot`, the list the handler was
     * created with; the last one is what remains.
     */
    method HandleDrop(droppedNodeId: string)
      modifies this
      ensures childNodes == AfterDrop(old(childNodes), node.id, droppedNodeId)
    {
      var snapshot := childNodes;
      var droppedNode := FindNodeById(snapshot, droppedNodeId);
      if droppedNode.Some? {
        var updatedChildNodes := RemoveNodeById(snapshot, droppedNodeId);
        childNodes := updatedChildNodes;
        var newChildNodes := InsertNode(snapshot, droppedNode.value, node.id);
        childNodes := newChildNodes;
      }
    }
  }
}
