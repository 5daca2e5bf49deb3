/**
 * The editor's home page, src/app/page.tsx: the state `nodeTree` and the
 * operations that change it -- adding a child with a generated id and moving
 * a subtree under another node.  Each operation has a specification function
 * on trees (AfterAdd, AfterChange, AfterMove, AfterMoveAbove) whose
 * properties are proved as lemmas, and a method of class `Home` that performs
 * the source's statements on the field `nodeTree` and is proved to produce
 * exactly that function's result.
 */
module HomePage {
  import opened Wrappers
  import opened NumberText
  import opened MapAlgebra
  import opened NodeTree
  import opened NodeEdit

  // ---------------------------------------------------------------------
  // generateNodeId (src/app/page.tsx:27-36)
  // ---------------------------------------------------------------------

  /** The id tried for child number `n` of the node with id `parentId`. */
  function CandidateId(parentId: string, n: nat): (r: string)
    ensures parentId == RootId ==> Denotes(r, n)
    ensures parentId != RootId ==>
              && |r| > |parentId| + 1 && r[..|parentId| + 1] == parentId + "."
              && Denotes(r[|parentId| + 1..], n)
  {
    NatToStringValue(n);
    if parentId == RootId then NatToString(n)
    else
      var r := parentId + "." + NatToString(n);
      assert r[|parentId| + 1..] == NatToString(n);
      r
  }

  /** Different numbers give different candidates below the same parent. */
  lemma CandidateIdInjective(parentId: string, a: nat, b: nat)
    requires CandidateId(parentId, a) == CandidateId(parentId, b)
    ensures a == b
  {
    if parentId == RootId {
      NatToStringInjective(a, b);
    } else {
      var prefix := parentId + ".";
      assert (prefix + NatToString(a))[|prefix|..] == NatToString(a);
      assert (prefix + NatToString(b))[|prefix|..] == NatToString(b);
      NatToStringInjective(a, b);
    }
  }

  /** The ids of `tree` that are candidates numbered `number` or more. */
  ghost function UsedFrom(tree: Node, parentId: string, number: nat): set<string>
  {
    set s | s in Ids(tree) && exists k: nat :: number <= k && s == CandidateId(parentId, k)
  }

  /** Each failed probe removes one candidate from the ones still to come. */
  lemma UsedFromShrinks(tree: Node, parentId: string, number: nat)
    requires CandidateId(parentId, number) in Ids(tree)
    ensures UsedFrom(tree, parentId, number + 1) < UsedFrom(tree, parentId, number)
  {
    var probe := CandidateId(parentId, number);
    assert probe in UsedFrom(tree, parentId, number);
    if probe in UsedFrom(tree, parentId, number + 1) {
      var k: nat :| number + 1 <= k && probe == CandidateId(parentId, k);
      CandidateIdInjective(parentId, number, k);
    }
  }

  /**
   * generateNodeId: the first candidate, counting up from `number`, that
   * findNodeById does not find anywhere in `tree` (the page's `nodeTree`).
   */
  function GenerateNodeId(tree: Node, parentNode: Node, number: nat): (r: string)
    ensures r !in Ids(tree)
    ensures exists n: nat :: number <= n && r == CandidateId(parentNode.id, n) &&
              forall k: nat :: number <= k < n ==> CandidateId(parentNode.id, k) in Ids(tree)
    decreases UsedFrom(tree, parentNode.id, number)
  {
    var newId := CandidateId(parentNode.id, number);
    if FindNodeById(newId, tree).Some? then
      UsedFromShrinks(tree, parentNode.id, number);
      GenerateNodeId(tree, parentNode, number + 1)
    else
      newId
  }

  /** The number of a generated id is the least unused one from `number` on. */
  lemma GeneratedIsLeast(tree: Node, parentNode: Node, number: nat, m: nat)
    requires GenerateNodeId(tree, parentNode, number) == CandidateId(parentNode.id, m)
    ensures number <= m
    ensures forall k: nat :: number <= k < m ==> CandidateId(parentNode.id, k) in Ids(tree)
  {
    var n: nat :| number <= n && GenerateNodeId(tree, parentNode, number) == CandidateId(parentNode.id, n) &&
              forall k: nat :: number <= k < n ==> CandidateId(parentNode.id, k) in Ids(tree);
    CandidateIdInjective(parentNode.id, n, m);
  }

  /**
   * Repeated additions below the same parent get strictly increasing numbers:
   * once the id numbered `n` has been added below the node with id `id`, the
   * next id generated for that node is numbered above `n`.
   */
  lemma SuffixIncreases(t: Node, id: string, n: nat, m: nat)
    requires FindNodeById(id, t).Some?
    requires GenerateNodeId(t, FindNodeById(id, t).value, 1) == CandidateId(id, n)
    requires FindNodeById(id, AfterAdd(t, id)).Some?
    requires GenerateNodeId(AfterAdd(t, id), FindNodeById(id, AfterAdd(t, id)).value, 1) == CandidateId(id, m)
    ensures n < m
  {
    var t' := AfterAdd(t, id);
    var c := Node(CandidateId(id, n), []);
    assert t' == EditAt(t, id, Push(c));
    GeneratedIsLeast(t, FindNodeById(id, t).value, 1, n);
    GeneratedIsLeast(t', FindNodeById(id, t').value, 1, m);
    MemAfterPush(t, id, c, CandidateId(id, m));
  }

  // ---------------------------------------------------------------------
  // addNewNode (src/app/page.tsx:18-25)
  // ---------------------------------------------------------------------

  /**
   * The tree after addNewNode(id): unchanged when no node has that id,
   * otherwise that node gains a new childless last child whose id
   * generateNodeId picks.
   */
  function AfterAdd(t: Node, id: string): (r: Node)
    ensures r.id == t.id
  {
    match FindNodeById(id, t)
    case None => t
    case Some(parentNode) =>
      EditAt(t, id, Push(Node(GenerateNodeId(t, parentNode, 1), [])))
  }

  /** addNewNode changes the tree exactly when the id names one of its nodes. */
  lemma AddChangesIff(t: Node, id: string)
    ensures AfterAdd(t, id) != t <==> id in Ids(t)
  {
    if id in Ids(t) {
      var newId := GenerateNodeId(t, FindNodeById(id, t).value, 1);
      IdsAfterPush(t, id, Node(newId, []));
      assert multiset(Ids(AfterAdd(t, id)))[newId] == multiset(Ids(t))[newId] + 1;
    }
  }

  /**
   * An accepted addNewNode(id): the new id is fresh, so ids stay unique; the
   * node with that id keeps its children in order and gains the new
   * childless node last; every other node keeps its children.
   */
  lemma AddAccepted(t: Node, id: string)
    requires Unique(t) && id in Ids(t)
    ensures var p := FindNodeById(id, t).value;
            var newId := GenerateNodeId(t, p, 1);
            var t' := AfterAdd(t, id);
            && newId !in Ids(t)
            && multiset(Ids(t')) == multiset(Ids(t)) + multiset{newId}
            && Unique(t')
            && FindNodeById(id, t') == Some(Node(id, p.children + [Node(newId, [])]))
            && Layout(t') == Layout(t)[id := Layout(t)[id] + [newId]][newId := []]
  {
    var p := FindNodeById(id, t).value;
    var newId := GenerateNodeId(t, p, 1);
    var c := Node(newId, []);
    var t' := AfterAdd(t, id);
    assert Ids(c) == [newId];
    IdsAfterPush(t, id, c);
    forall x ensures multiset(Ids(t'))[x] <= 1 {
      assert multiset(Ids(t))[x] <= 1;
    }
    FindAfterEdit(t, id, Push(c));
    LayoutAfterPush(t, id, c);
    assert ChildIds([]) == [];
    assert Layout(c) == map[newId := []];
    UnionSingleton(Layout(t)[id := Layout(t)[id] + [newId]], newId, []);
  }

  // ---------------------------------------------------------------------
  // changeNode (src/app/page.tsx:88-98)
  // ---------------------------------------------------------------------

  /**
   * The tree after changeNode(fromNode, toNode, parentNode): unchanged when
   * the destination is the current parent, the moved node itself or a node
   * inside it; otherwise the moved node is pushed onto the destination's
   * children and then filtered out of the old parent's children.
   */
  function AfterChange(t: Node, fromNode: Node, toNode: Node, parentNode: Node): (r: Node)
    ensures r.id == t.id
  {
    var isTheSameParent := parentNode.id == toNode.id;
    var isTheSameNode := fromNode.id == toNode.id;
    var isChildren := FindNodeById(toNode.id, fromNode).Some?;
    if isTheSameParent || isTheSameNode || isChildren then t
    else EditAt(EditAt(t, toNode.id, Push(fromNode)), parentNode.id, Drop(fromNode.id))
  }

  /** The conditions under which changeNode moves `fromNode` below `toNode`. */
  ghost predicate ChangeAllowed(t: Node, fromNode: Node, toNode: Node, parentNode: Node)
  {
    && Unique(t)
    && fromNode in Subtrees(t) && toNode in Subtrees(t) && parentNode in Subtrees(t)
    && fromNode in parentNode.children
    && parentNode.id != toNode.id && fromNode.id != toNode.id && toNode.id !in Ids(fromNode)
  }

  /** The push-then-filter of changeNode equals filter-then-push here. */
  lemma ChangeAsDropThenPush(t: Node, fromNode: Node, toNode: Node, parentNode: Node)
    requires ChangeAllowed(t, fromNode, toNode, parentNode)
    ensures AfterChange(t, fromNode, toNode, parentNode)
         == EditAt(EditAt(t, parentNode.id, Drop(fromNode.id)), toNode.id, Push(fromNode))
  {
    SubtreeClosed(t, parentNode);
    DistinctSub(Ids(parentNode), Ids(t));
    MemberIsSubtree(parentNode.children, fromNode);
    RootNotBelow(parentNode, fromNode);
    forall s | s in Subtrees(t) && s.id == fromNode.id
      ensures toNode.id !in Ids(s)
    {
      UniqueNodes(t, s, fromNode);
    }
    PushDropCommute(t, toNode.id, fromNode, parentNode.id, fromNode.id);
  }

  /**
   * `t'` is `t` with `fromNode` moved from below `parentNode` to below
   * `toNode`: ids are the same multiset as before, so they stay unique and
   * the tree stays a tree; the moved subtree is found unchanged and is the
   * destination's last child; the old parent loses it from its child list,
   * whose other entries keep their order; the destination's earlier children
   * keep theirs; no other node's children change.
   */
  ghost predicate MovedBelow(t: Node, t': Node, fromNode: Node, toNode: Node, parentNode: Node)
  {
    && multiset(Ids(t')) == multiset(Ids(t))
    && Unique(t')
    && FindNodeById(fromNode.id, t') == Some(fromNode)
    && FindNodeById(toNode.id, t').Some?
    && (var dest := FindNodeById(toNode.id, t').value.children;
        |dest| > 0 && dest[|dest| - 1] == fromNode)
    && Layout(t') == Layout(t)[parentNode.id := WithoutId(ChildIds(parentNode.children), fromNode.id)]
                              [toNode.id := ChildIds(toNode.children) + [fromNode.id]]
  }

  /** An accepted changeNode moves `fromNode` below `toNode` and changes nothing else. */
  lemma ChangeAccepted(t: Node, fromNode: Node, toNode: Node, parentNode: Node)
    requires ChangeAllowed(t, fromNode, toNode, parentNode)
    ensures MovedBelow(t, AfterChange(t, fromNode, toNode, parentNode), fromNode, toNode, parentNode)
  {
    var t2 := EditAt(t, parentNode.id, Drop(fromNode.id));
    var t' := EditAt(t2, toNode.id, Push(fromNode));
    ChangeAsDropThenPush(t, fromNode, toNode, parentNode);
    DetachedIds(t, fromNode, toNode, parentNode);
    IdsAfterPush(t2, toNode.id, fromNode);
    ChangeFinds(t, fromNode, toNode, parentNode);
    ChangeLayout(t, fromNode, toNode, parentNode);
  }

  /** After the filter step, the ids of the tree and of the detached subtree split the old ids. */
  lemma DetachedIds(t: Node, fromNode: Node, toNode: Node, parentNode: Node)
    requires ChangeAllowed(t, fromNode, toNode, parentNode)
    ensures var t2 := EditAt(t, parentNode.id, Drop(fromNode.id));
            && multiset(Ids(t2)) + multiset(Ids(fromNode)) == multiset(Ids(t))
            && Unique(t2) && toNode.id in Ids(t2)
            && forall x :: x in Ids(fromNode) ==> x !in Ids(t2)
  {
    var t2 := EditAt(t, parentNode.id, Drop(fromNode.id));
    var to := toNode.id;
    FindUnique(t, parentNode);
    IdsAfterDrop(t, parentNode.id, fromNode);
    SubtreeIdIn(t, toNode);
    assert multiset(Ids(t))[to] >= 1;
    assert to in Ids(t2) by {
      assert multiset(Ids(t2))[to] + multiset(Ids(fromNode))[to] == multiset(Ids(t))[to];
    }
    assert Unique(t2) by { DistinctSub(Ids(t2), Ids(t)); }
    forall x | x in Ids(fromNode) ensures x !in Ids(t2) {
      assert multiset(Ids(t2))[x] + multiset(Ids(fromNode))[x] == multiset(Ids(t))[x];
    }
  }

  /** After changeNode, the moved subtree is found unchanged as the destination's last child. */
  lemma ChangeFinds(t: Node, fromNode: Node, toNode: Node, parentNode: Node)
    requires ChangeAllowed(t, fromNode, toNode, parentNode)
    ensures var t' := EditAt(EditAt(t, parentNode.id, Drop(fromNode.id)), toNode.id, Push(fromNode));
            && FindNodeById(fromNode.id, t') == Some(fromNode)
            && FindNodeById(toNode.id, t').Some?
            && (var dest := FindNodeById(toNode.id, t').value.children;
                |dest| > 0 && dest[|dest| - 1] == fromNode)
  {
    var t2 := EditAt(t, parentNode.id, Drop(fromNode.id));
    var t' := EditAt(t2, toNode.id, Push(fromNode));
    DetachedIds(t, fromNode, toNode, parentNode);
    IdsAfterPush(t2, toNode.id, fromNode);
    FindAfterEdit(t2, toNode.id, Push(fromNode));
    var d := FindNodeById(toNode.id, t').value;
    ChildIsSubtree(t', d, fromNode);
    FindUnique(t', fromNode);
  }

  /** After changeNode, only the old parent's and the destination's child lists differ. */
  lemma ChangeLayout(t: Node, fromNode: Node, toNode: Node, parentNode: Node)
    requires ChangeAllowed(t, fromNode, toNode, parentNode)
    ensures var t' := EditAt(EditAt(t, parentNode.id, Drop(fromNode.id)), toNode.id, Push(fromNode));
            Layout(t') == Layout(t)[parentNode.id := WithoutId(ChildIds(parentNode.children), fromNode.id)]
                                   [toNode.id := ChildIds(toNode.children) + [fromNode.id]]
  {
    var f, to, p := fromNode.id, toNode.id, parentNode.id;
    var t2 := EditAt(t, p, Drop(f));
    var m, ids := Layout(t), IdSet(fromNode);
    DetachedIds(t, fromNode, toNode, parentNode);
    FindUnique(t, parentNode);
    LayoutFind(t, parentNode);
    LayoutFind(t, toNode);
    LayoutAfterDrop(t, p, fromNode);
    LayoutAfterPush(t2, to, fromNode);
    LayoutOfSubtree(t, fromNode);
    LayoutKeys(fromNode);
    RootNotBelow(parentNode, fromNode) by {
      SubtreeClosed(t, parentNode);
      DistinctSub(Ids(parentNode), Ids(t));
      MemberIsSubtree(parentNode.children, fromNode);
    }
    var w, v := WithoutId(m[p], f), m[to] + [f];
    assert Layout(t2)[to] == m[to];
    RestoreUpdated(m, ids, Layout(fromNode), p, w, to, v);
  }

  // ---------------------------------------------------------------------
  // onChangeNodePosition, onChangeNodePositionAbove (src/app/page.tsx:69-86)
  // ---------------------------------------------------------------------

  /**
   * The tree after onChangeNodePosition(fromNodeId, toNodeId): unchanged
   * unless the moved node, its parent and the destination are all found;
   * then changeNode on those three nodes.
   */
  function AfterMove(t: Node, fromNodeId: string, toNodeId: string): (r: Node)
    ensures r.id == t.id
  {
    var parentNode := FindParentNodeById(fromNodeId, t);
    var fromNode := FindNodeById(fromNodeId, t);
    var toNode := FindNodeById(toNodeId, t);
    if fromNode.None? || toNode.None? || parentNode.None? then t
    else AfterChange(t, fromNode.value, toNode.value, parentNode.value)
  }

  /**
   * The tree after onChangeNodePositionAbove(fromNodeId, toNodeChildId): as
   * AfterMove, with the parent of `toNodeChildId` as the destination.
   */
  function AfterMoveAbove(t: Node, fromNodeId: string, toNodeChildId: string): (r: Node)
    ensures r.id == t.id
  {
    var parentNode := FindParentNodeById(fromNodeId, t);
    var fromNode := FindNodeById(fromNodeId, t);
    var toNode := FindParentNodeById(toNodeChildId, t);
    if fromNode.None? || toNode.None? || parentNode.None? then t
    else AfterChange(t, fromNode.value, toNode.value, parentNode.value)
  }

  /**
   * The moves onChangeNodePosition accepts: the moved node has a parent (it
   * is not the root and exists), the destination exists and is neither that
   * parent, nor the moved node, nor a node inside it.
   */
  ghost predicate MoveAllowed(t: Node, fromNodeId: string, toNodeId: string)
  {
    && FindParentNodeById(fromNodeId, t).Some?
    && FindNodeById(fromNodeId, t).Some?
    && toNodeId in Ids(t)
    && FindParentNodeById(fromNodeId, t).value.id != toNodeId
    && fromNodeId != toNodeId
    && toNodeId !in Ids(FindNodeById(fromNodeId, t).value)
  }

  /**
   * An accepted onChangeNodePosition moves the found node from below its
   * parent to below the found destination and changes nothing else.
   */
  lemma MoveAccepted(t: Node, fromNodeId: string, toNodeId: string)
    requires Unique(t) && MoveAllowed(t, fromNodeId, toNodeId)
    ensures MovedBelow(t, AfterMove(t, fromNodeId, toNodeId), FindNodeById(fromNodeId, t).value,
                       FindNodeById(toNodeId, t).value, FindParentNodeById(fromNodeId, t).value)
  {
    ParentHoldsChild(t, fromNodeId);
    ChangeAccepted(t, FindNodeById(fromNodeId, t).value, FindNodeById(toNodeId, t).value,
                   FindParentNodeById(fromNodeId, t).value);
  }

  /**
   * onChangeNodePosition changes the tree exactly when it accepts the move:
   * unknown ids, moving the root, moving a node under its own parent, onto
   * itself or into its own subtree all leave the tree as it was.
   */
  lemma MoveChangesIff(t: Node, fromNodeId: string, toNodeId: string)
    requires Unique(t)
    ensures AfterMove(t, fromNodeId, toNodeId) != t <==> MoveAllowed(t, fromNodeId, toNodeId)
  {
    if MoveAllowed(t, fromNodeId, toNodeId) {
      var parentNode := FindParentNodeById(fromNodeId, t).value;
      MoveAccepted(t, fromNodeId, toNodeId);
      LayoutFind(t, parentNode);
      var t' := AfterMove(t, fromNodeId, toNodeId);
      assert Layout(t')[parentNode.id] == WithoutId(ChildIds(parentNode.children), fromNodeId);
      assert fromNodeId !in Layout(t')[parentNode.id];
      assert fromNodeId in Layout(t)[parentNode.id];
    } else if FindParentNodeById(fromNodeId, t).Some? {
      assert fromNodeId in Ids(t);
    }
  }

  /**
   * onChangeNodePositionAbove is onChangeNodePosition to the parent of
   * `toNodeChildId`: the moved node becomes that parent's last child, not the
   * sibling just before `toNodeChildId`; with no such parent it changes nothing.
   */
  lemma MoveAboveIsMoveToParent(t: Node, fromNodeId: string, toNodeChildId: string)
    requires Unique(t)
    ensures AfterMoveAbove(t, fromNodeId, toNodeChildId)
         == match FindParentNodeById(toNodeChildId, t)
            case None => t
            case Some(q) => AfterMove(t, fromNodeId, q.id)
  {
    match FindParentNodeById(toNodeChildId, t)
    case None =>
    case Some(q) => FindUnique(t, q);
  }

  // A session from the initial tree: two additions below the root give
  // children "1" and "2", an addition below "1" gives "1.1", and moving "2"
  // onto "1.1" leaves the root with the single child "1".

  const Tree0: Node := Node(RootId, [])
  const Tree1: Node := Node(RootId, [Node("1", [])])
  const Tree2: Node := Node(RootId, [Node("1", []), Node("2", [])])
  const Tree3: Node := Node(RootId, [Node("1", [Node("1.1", [])]), Node("2", [])])
  const Tree4: Node := Node(RootId, [Node("1", [Node("1.1", [Node("2", [])])])])

  lemma SessionFirstAdd()
    ensures AfterAdd(Tree0, RootId) == Tree1
  {
    FirstAddId();
  }

  /** The first addition below the root gets "1". */
  lemma FirstAddId()
    ensures GenerateNodeId(Tree0, Tree0, 1) == "1"
  {
    SmallNumbers();
    assert CandidateId(RootId, 1) == "1";
    assert FindNodeById("1", Tree0).None? by {
      assert Ids(Tree0) == [RootId];
    }
  }

  lemma SessionSecondAdd()
    ensures AfterAdd(Tree1, RootId) == Tree2
  {
    SecondAddId();
    assert FindNodeById(RootId, Tree1) == Some(Tree1);
    assert [Node("1", [])] + [Node("2", [])] == [Node("1", []), Node("2", [])];
  }

  /** "1" is taken, so the second addition below the root gets "2". */
  lemma SecondAddId()
    ensures GenerateNodeId(Tree1, Tree1, 1) == "2"
  {
    SmallNumbers();
    assert CandidateId(RootId, 1) == "1";
    assert FindNodeById("1", Tree1).Some?;
    SecondAddIdFrom2();
  }

  lemma SecondAddIdFrom2()
    ensures GenerateNodeId(Tree1, Tree1, 2) == "2"
  {
    SmallNumbers();
    assert CandidateId(RootId, 2) == "2";
    assert FindNodeById("2", Tree1).None? by {
      assert Ids(Tree1) == [RootId, "1"];
    }
  }

  lemma SessionThirdAdd()
    ensures AfterAdd(Tree2, "1") == Tree3
  {
    ThirdAddId();
    ThirdAddFind();
    assert Tree2.children[1..] == [Node("2", [])];
    assert EditAt(Node("1", []), "1", Push(Node("1.1", []))) == Node("1", [Node("1.1", [])]) by {
      assert [] + [Node("1.1", [])] == [Node("1.1", [])];
    }
    assert EditFirst(Tree2.children, "1", Push(Node("1.1", []))) == Tree3.children;
  }

  lemma ThirdAddFind()
    ensures FindNodeById("1", Tree2) == Some(Node("1", []))
  {
  }

  /** The first addition below "1" gets "1.1". */
  lemma ThirdAddId()
    ensures GenerateNodeId(Tree2, Node("1", []), 1) == "1.1"
  {
    SmallNumbers();
    assert Ids(Tree2) == [RootId, "1", "2"];
    assert CandidateId("1", 1) == "1.1";
  }

  lemma SessionMove()
    ensures AfterMove(Tree3, "2", "1.1") == Tree4
  {
    SessionMoveFinds();
    SessionMoveEdits();
  }

  /** In the third tree "2" is a child of the root and "1.1" a leaf outside "2". */
  lemma SessionMoveFinds()
    ensures FindParentNodeById("2", Tree3) == Some(Tree3)
    ensures FindNodeById("1.1", Tree3) == Some(Node("1.1", []))
    ensures FindNodeById("2", Tree3) == Some(Node("2", []))
    ensures FindNodeById("1.1", Node("2", [])).None?
  {
    assert Ids(Tree3) == [RootId, "1", "1.1", "2"];
  }

  /** Pushing "2" onto "1.1" and then filtering it out of the root. */
  lemma SessionMoveEdits()
    ensures EditAt(EditAt(Tree3, "1.1", Push(Node("2", []))), RootId, Drop("2")) == Tree4
  {
    var n2, n11 := Node("2", []), Node("1.1", []);
    var n1' := Node("1", [Node("1.1", [n2])]);
    assert EditAt(n11, "1.1", Push(n2)) == Node("1.1", [n2]) by {
      assert [] + [n2] == [n2];
    }
    assert EditFirst([n11], "1.1", Push(n2)) == [Node("1.1", [n2])];
    assert EditAt(Tree3.children[0], "1.1", Push(n2)) == n1';
    assert Tree3.children[1..] == [n2];
    var t3' := Node(RootId, [n1', n2]);
    assert EditAt(Tree3, "1.1", Push(n2)) == t3';
    assert Without([n2], "2") == [];
    assert Without(t3'.children, "2") == [n1'] by {
      assert t3'.children[1..] == [n2];
    }
  }

  // ---------------------------------------------------------------------
  // The component's state (src/app/page.tsx:14-98)
  // ---------------------------------------------------------------------

  /**
   * The home component: `nodeTree` is its tree state, changed in place by
   * the handlers.  Its invariant is the tree invariant of the editor: the
   * root is "START" and no id is used twice.
   */
  class Home {
    var nodeTree: Node

    ghost predicate Valid()
      reads this
    {
      nodeTree.id == RootId && Unique(nodeTree)
    }

    /** The initial state: a lone root (src/app/page.tsx:9-15). */
    constructor()
      ensures Valid() && nodeTree == Node(RootId, [])
    {
      nodeTree := Node(RootId, []);
      assert Ids(Node(RootId, [])) == [RootId];
    }

    /** addNewNode (src/app/page.tsx:18-25). */
    method AddNewNode(id: string)
      requires Valid()
      modifies this
      ensures Valid()
      ensures nodeTree == AfterAdd(old(nodeTree), id)
    {
      var parentNode := FindNodeById(id, nodeTree);
      if parentNode.None? {
        return;
      }
      var newId := GenerateNodeId(nodeTree, parentNode.value, 1);
      var newItem := Node(newId, []);
      AddAccepted(nodeTree, id);
      nodeTree := EditAt(nodeTree, id, Push(newItem));
    }

    /**
     * onChangeNodePosition (src/app/page.tsx:69-75): finds the moved node,
     * its parent and the destination, and hands them to changeNode.
     */
    method OnChangeNodePosition(fromNodeId: string, toNodeId: string)
      requires Valid()
      modifies this
      ensures Valid()
      ensures nodeTree == AfterMove(old(nodeTree), fromNodeId, toNodeId)
    {
      var parentNode := FindParentNodeById(fromNodeId, nodeTree);
      var fromNode := FindNodeById(fromNodeId, nodeTree);
      var toNode := FindNodeById(toNodeId, nodeTree);
      if fromNode.None? || toNode.None? || parentNode.None? {
        return;
      }
      ParentHoldsChild(nodeTree, fromNodeId);
      ChangeNode(fromNode.value, toNode.value, parentNode.value);
    }

    /**
     * onChangeNodePositionAbove (src/app/page.tsx:77-86): as
     * OnChangeNodePosition, with the parent of `toNodeChildId` as destination.
     */
    method OnChangeNodePositionAbove(fromNodeId: string, toNodeChildId: string)
      requires Valid()
      modifies this
      ensures Valid()
      ensures nodeTree == AfterMoveAbove(old(nodeTree), fromNodeId, toNodeChildId)
    {
      var parentNode := FindParentNodeById(fromNodeId, nodeTree);
      var fromNode := FindNodeById(fromNodeId, nodeTree);
      var toNode := FindParentNodeById(toNodeChildId, nodeTree);
      if fromNode.None? || toNode.None? || parentNode.None? {
        return;
      }
      ParentHoldsChild(nodeTree, fromNodeId);
      ChangeNode(fromNode.value, toNode.value, parentNode.value);
    }

    /**
     * changeNode (src/app/page.tsx:88-98): its three arguments are nodes of
     * the tree, `fromNode` a child of `parentNode`.  It pushes `fromNode` onto
     * the destination's children and then filters it out of the parent's.
     */
    method ChangeNode(fromNode: Node, toNode: Node, parentNode: Node)
      requires Valid()
      requires fromNode in Subtrees(nodeTree) && toNode in Subtrees(nodeTree)
      requires parentNode in Subtrees(nodeTree) && fromNode in parentNode.children
      modifies this
      ensures Valid()
      ensures nodeTree == AfterChange(old(nodeTree), fromNode, toNode, parentNode)
    {
      var isTheSameParent := parentNode.id == toNode.id;
      var isTheSameNode := fromNode.id == toNode.id;
      var isChildren := FindNodeById(toNode.id, fromNode).Some?;
      if isTheSameParent || isTheSameNode || isChildren {
        return;
      }
      ChangeAccepted(nodeTree, fromNode, toNode, parentNode);
      nodeTree := EditAt(nodeTree, toNode.id, Push(fromNode));
      nodeTree := EditAt(nodeTree, parentNode.id, Drop(fromNode.id));
    }
  }
}
