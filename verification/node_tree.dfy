/**
 * The node tree of the editor's home page (src/app/page.tsx): every node has
 * an id and an ordered sequence of children it owns exclusively.  This module
 * holds the tree itself, the views of it used to state properties (pre-order
 * listing, ids, child-id layout) and the two read-only finders of the page.
 */
module NodeTree {
  import opened Wrappers

  datatype Node = Node(id: string, children: seq<Node>)

  /** The id of the node the editor starts from (src/app/page.tsx:9-12). */
  const RootId: string := "START"

  /** Every node of `t`, `t` first, in depth-first pre-order. */
  function Subtrees(t: Node): seq<Node>
    decreases t
  {
    [t] + SubtreesOf(t.children)
  }

  /** Every node of the forest `cs`, in depth-first pre-order. */
  function SubtreesOf(cs: seq<Node>): seq<Node>
    decreases cs
  {
    if cs == [] then [] else Subtrees(cs[0]) + SubtreesOf(cs[1..])
  }

  /** The ids of every node of `t`, in depth-first pre-order. */
  function Ids(t: Node): seq<string>
    decreases t
  {
    [t.id] + IdsOf(t.children)
  }

  /** The ids of every node of the forest `cs`, in depth-first pre-order. */
  function IdsOf(cs: seq<Node>): seq<string>
    decreases cs
  {
    if cs == [] then [] else Ids(cs[0]) + IdsOf(cs[1..])
  }

  /** The ids of the nodes of `cs` themselves (not of their descendants), in order. */
  function ChildIds(cs: seq<Node>): seq<string>
  {
    seq(|cs|, i requires 0 <= i < |cs| => cs[i].id)
  }

  /** No string occurs twice in `s`. */
  ghost predicate Distinct(s: seq<string>)
  {
    forall x :: multiset(s)[x] <= 1
  }

  /** The tree invariant of the editor: no id is used by two nodes. */
  ghost predicate Unique(t: Node)
  {
    Distinct(Ids(t))
  }

  /**
   * The shape of `t` as a map from each id to the ids of that node's
   * children, in order.  For a tree with unique ids, the root id and this
   * map together determine the tree.
   */
  function Layout(t: Node): (m: map<string, seq<string>>)
    ensures forall x :: x in Ids(t) ==> x in m
    decreases t
  {
    LayoutOf(t.children)[t.id := ChildIds(t.children)]
  }

  /** The union of the layouts of the trees of `cs`. */
  function LayoutOf(cs: seq<Node>): (m: map<string, seq<string>>)
    ensures forall x :: x in IdsOf(cs) ==> x in m
    decreases cs
  {
    if cs == [] then map[] else Layout(cs[0]) + LayoutOf(cs[1..])
  }

  /** The layout has an entry for the ids of the tree and no other. */
  lemma {:induction false} LayoutKeys(t: Node)
    ensures forall x :: x in Layout(t) ==> x in Ids(t)
    decreases t
  {
    LayoutOfKeys(t.children);
  }

  lemma {:induction false} LayoutOfKeys(cs: seq<Node>)
    ensures forall x :: x in LayoutOf(cs) ==> x in IdsOf(cs)
    decreases cs
  {
    if cs != [] {
      LayoutKeys(cs[0]);
      LayoutOfKeys(cs[1..]);
    }
  }

  // ---------------------------------------------------------------------
  // The finders of src/app/page.tsx
  // ---------------------------------------------------------------------

  /**
   * findNodeById (src/app/page.tsx:38-49): the node itself when its id
   * matches, otherwise the first child subtree, in order, that yields a match.
   */
  function FindNodeById(id: string, node: Node): (r: Option<Node>)
    ensures r.Some? <==> id in Ids(node)
    ensures r.Some? ==> r.value.id == id && r.value in Subtrees(node)
    decreases node
  {
    if node.id == id then Some(node) else FindIn(id, node.children)
  }

  /** The `for (const child of node.children)` loop of findNodeById. */
  function FindIn(id: string, cs: seq<Node>): (r: Option<Node>)
    ensures r.Some? <==> id in IdsOf(cs)
    ensures r.Some? ==> r.value.id == id && r.value in SubtreesOf(cs)
    decreases cs
  {
    if cs == [] then None
    else
      match FindNodeById(id, cs[0])
      case Some(found) => Some(found)
      case None => FindIn(id, cs[1..])
  }

  /**
   * findParentNodeById (src/app/page.tsx:51-67): the node itself when one of
   * its direct children has id `childId` (the source calls this argument
   * `parentId`), otherwise the first child subtree, in order, that yields one.
   */
  function FindParentNodeById(childId: string, currentNode: Node): (r: Option<Node>)
    ensures r.Some? ==> r.value in Subtrees(currentNode) && childId in ChildIds(r.value.children)
    ensures r.Some? <==> childId in IdsOf(currentNode.children)
    decreases currentNode
  {
    IdsOfSplit(currentNode.children, childId);
    if childId in ChildIds(currentNode.children) then Some(currentNode)
    else FindParentIn(childId, currentNode.children)
  }

  /** The `for (const child of currentNode.children)` loop of findParentNodeById. */
  function FindParentIn(childId: string, cs: seq<Node>): (r: Option<Node>)
    ensures r.Some? ==> r.value in SubtreesOf(cs) && childId in ChildIds(r.value.children)
    ensures r.Some? <==> exists i :: 0 <= i < |cs| && childId in IdsOf(cs[i].children)
    decreases cs
  {
    if cs == [] then None
    else
      match FindParentNodeById(childId, cs[0])
      case Some(found) => Some(found)
      case None =>
        var r := FindParentIn(childId, cs[1..]);
        assert forall i :: 1 <= i < |cs| ==> cs[i] == cs[1..][i - 1];
        r
  }

  // ---------------------------------------------------------------------
  // Reference definitions: first match in a pre-order listing
  // ---------------------------------------------------------------------

  /** The first node of `ns` whose id is `id`. */
  function FirstWithId(ns: seq<Node>, id: string): (r: Option<Node>)
  {
    if ns == [] then None
    else if ns[0].id == id then Some(ns[0])
    else FirstWithId(ns[1..], id)
  }

  /** The first node of `ns` that has a direct child whose id is `childId`. */
  function FirstParentOf(ns: seq<Node>, childId: string): (r: Option<Node>)
  {
    if ns == [] then None
    else if childId in ChildIds(ns[0].children) then Some(ns[0])
    else FirstParentOf(ns[1..], childId)
  }

  lemma {:induction false} FirstWithIdAppend(a: seq<Node>, b: seq<Node>, id: string)
    ensures FirstWithId(a + b, id) == if FirstWithId(a, id).Some? then FirstWithId(a, id) else FirstWithId(b, id)
  {
    if a == [] {
      assert a + b == b;
    } else {
      assert (a + b)[1..] == a[1..] + b;
      FirstWithIdAppend(a[1..], b, id);
    }
  }

  lemma {:induction false} FirstParentOfAppend(a: seq<Node>, b: seq<Node>, childId: string)
    ensures FirstParentOf(a + b, childId)
         == if FirstParentOf(a, childId).Some? then FirstParentOf(a, childId) else FirstParentOf(b, childId)
  {
    if a == [] {
      assert a + b == b;
    } else {
      assert (a + b)[1..] == a[1..] + b;
      FirstParentOfAppend(a[1..], b, childId);
    }
  }

  /** findNodeById returns the first node with the id in depth-first pre-order. */
  lemma {:induction false} FindIsFirstInPreorder(id: string, t: Node)
    ensures FindNodeById(id, t) == FirstWithId(Subtrees(t), id)
    decreases t
  {
    assert ([t] + SubtreesOf(t.children))[1..] == SubtreesOf(t.children);
    if t.id != id {
      FindInIsFirstInPreorder(id, t.children);
    }
  }

  lemma {:induction false} FindInIsFirstInPreorder(id: string, cs: seq<Node>)
    ensures FindIn(id, cs) == FirstWithId(SubtreesOf(cs), id)
    decreases cs
  {
    if cs != [] {
      FindIsFirstInPreorder(id, cs[0]);
      FindInIsFirstInPreorder(id, cs[1..]);
      FirstWithIdAppend(Subtrees(cs[0]), SubtreesOf(cs[1..]), id);
    }
  }

  /** findParentNodeById returns the first node, in depth-first pre-order, with such a child. */
  lemma {:induction false} FindParentIsFirstInPreorder(childId: string, t: Node)
    ensures FindParentNodeById(childId, t) == FirstParentOf(Subtrees(t), childId)
    decreases t
  {
    assert ([t] + SubtreesOf(t.children))[1..] == SubtreesOf(t.children);
    if childId !in ChildIds(t.children) {
      FindParentInIsFirstInPreorder(childId, t.children);
    }
  }

  lemma {:induction false} FindParentInIsFirstInPreorder(childId: string, cs: seq<Node>)
    ensures FindParentIn(childId, cs) == FirstParentOf(SubtreesOf(cs), childId)
    decreases cs
  {
    if cs != [] {
      FindParentIsFirstInPreorder(childId, cs[0]);
      FindParentInIsFirstInPreorder(childId, cs[1..]);
      FirstParentOfAppend(Subtrees(cs[0]), SubtreesOf(cs[1..]), childId);
    }
  }

  // ---------------------------------------------------------------------
  // Structural facts about ids and subtrees
  // ---------------------------------------------------------------------

  /** An id below the forest `cs` is either a child's id or lies below some child. */
  lemma {:induction false} IdsOfSplit(cs: seq<Node>, x: string)
    ensures x in IdsOf(cs) <==> x in ChildIds(cs) || exists i :: 0 <= i < |cs| && x in IdsOf(cs[i].children)
    decreases cs
  {
    if cs != [] {
      IdsOfSplit(cs[1..], x);
      assert forall i :: 1 <= i < |cs| ==> cs[i] == cs[1..][i - 1];
      assert ChildIds(cs) == [cs[0].id] + ChildIds(cs[1..]);
    }
  }

  /** The pre-order listings of ids and of nodes agree position by position. */
  lemma {:induction false} SubtreeIds(t: Node)
    ensures |Ids(t)| == |Subtrees(t)|
    ensures forall i :: 0 <= i < |Ids(t)| ==> Ids(t)[i] == Subtrees(t)[i].id
    decreases t
  {
    SubtreeIdsOf(t.children);
  }

  lemma {:induction false} SubtreeIdsOf(cs: seq<Node>)
    ensures |IdsOf(cs)| == |SubtreesOf(cs)|
    ensures forall i :: 0 <= i < |IdsOf(cs)| ==> IdsOf(cs)[i] == SubtreesOf(cs)[i].id
    decreases cs
  {
    if cs != [] {
      SubtreeIds(cs[0]);
      SubtreeIdsOf(cs[1..]);
    }
  }

  lemma SubtreeIdIn(t: Node, s: Node)
    requires s in Subtrees(t)
    ensures s.id in Ids(t)
  {
    SubtreeIds(t);
    var i :| 0 <= i < |Subtrees(t)| && Subtrees(t)[i] == s;
    assert Ids(t)[i] == s.id;
  }

  lemma SubtreeIdInOf(cs: seq<Node>, s: Node)
    requires s in SubtreesOf(cs)
    ensures s.id in IdsOf(cs)
  {
    SubtreeIdsOf(cs);
    var i :| 0 <= i < |SubtreesOf(cs)| && SubtreesOf(cs)[i] == s;
    assert IdsOf(cs)[i] == s.id;
  }

  /** A subtree of a subtree is a subtree, and its ids are among the tree's. */
  lemma {:induction false} SubtreeClosed(t: Node, s: Node)
    requires s in Subtrees(t)
    ensures forall u :: u in Subtrees(s) ==> u in Subtrees(t)
    ensures multiset(Ids(s)) <= multiset(Ids(t))
    decreases t
  {
    if s != t {
      SubtreeClosedOf(t.children, s);
    }
  }

  lemma {:induction false} SubtreeClosedOf(cs: seq<Node>, s: Node)
    requires s in SubtreesOf(cs)
    ensures forall u :: u in Subtrees(s) ==> u in SubtreesOf(cs)
    ensures multiset(Ids(s)) <= multiset(IdsOf(cs))
    decreases cs
  {
    if s in Subtrees(cs[0]) {
      SubtreeClosed(cs[0], s);
    } else {
      SubtreeClosedOf(cs[1..], s);
    }
  }

  /** Each member of a forest is one of its subtrees. */
  lemma {:induction false} MemberIsSubtree(cs: seq<Node>, c: Node)
    requires c in cs
    ensures c in SubtreesOf(cs)
    decreases cs
  {
    if c != cs[0] {
      MemberIsSubtree(cs[1..], c);
    }
  }

  /** A child of a node of `t` is a node of `t`, and its ids are among the tree's. */
  lemma ChildIsSubtree(t: Node, s: Node, c: Node)
    requires s in Subtrees(t) && c in s.children
    ensures c in Subtrees(t)
    ensures multiset(Ids(c)) <= multiset(Ids(t))
  {
    MemberIsSubtree(s.children, c);
    SubtreeClosed(t, s);
    SubtreeClosed(t, c);
  }

  /** Both halves of a duplicate-free sequence are duplicate-free and share nothing. */
  lemma DistinctSplit(a: seq<string>, b: seq<string>)
    requires Distinct(a + b)
    ensures Distinct(a) && Distinct(b)
    ensures forall x :: x in a ==> x !in b
  {
    forall x ensures multiset(a)[x] + multiset(b)[x] <= 1 {
      assert multiset(a + b)[x] == multiset(a)[x] + multiset(b)[x];
    }
    forall x | x in a ensures x !in b {
      assert multiset(a)[x] >= 1;
    }
  }

  /** Every element of a sub-multiset is an element of the larger sequence. */
  lemma MultisetWithin(a: seq<string>, b: seq<string>)
    requires multiset(a) <= multiset(b)
    ensures forall x :: x in a ==> x in b
  {
    forall x | x in a ensures x in b {
      assert multiset(a)[x] <= multiset(b)[x];
    }
  }

  /** Fewer occurrences keep a sequence duplicate-free. */
  lemma DistinctSub(a: seq<string>, b: seq<string>)
    requires multiset(a) <= multiset(b) && Distinct(b)
    ensures Distinct(a)
  {
    forall x ensures multiset(a)[x] <= 1 {
      assert multiset(a)[x] <= multiset(b)[x];
    }
  }

  lemma DistinctAt(s: seq<string>, i: int, j: int)
    requires Distinct(s) && 0 <= i < j < |s|
    ensures s[i] != s[j]
  {
    var x := s[i];
    assert s == s[..i] + [x] + s[i + 1..j] + [s[j]] + s[j + 1..];
    assert multiset(s)[x] == multiset(s[..i])[x] + 1 + multiset(s[i + 1..j])[x]
                             + multiset([s[j]])[x] + multiset(s[j + 1..])[x];
  }

  /** Under the id invariant, two nodes of the tree with the same id are the same node. */
  lemma UniqueNodes(t: Node, u: Node, v: Node)
    requires Unique(t) && u in Subtrees(t) && v in Subtrees(t) && u.id == v.id
    ensures u == v
  {
    SubtreeIds(t);
    var i :| 0 <= i < |Subtrees(t)| && Subtrees(t)[i] == u;
    var j :| 0 <= j < |Subtrees(t)| && Subtrees(t)[j] == v;
    assert Ids(t)[i] == Ids(t)[j];
    if i < j {
      DistinctAt(Ids(t), i, j);
    } else if j < i {
      DistinctAt(Ids(t), j, i);
    }
  }

  /** Under the id invariant, findNodeById finds every node of the tree by its id. */
  lemma FindUnique(t: Node, s: Node)
    requires Unique(t) && s in Subtrees(t)
    ensures FindNodeById(s.id, t) == Some(s)
  {
    SubtreeIdIn(t, s);
    UniqueNodes(t, s, FindNodeById(s.id, t).value);
  }

  /** The root of a tree with unique ids is nobody's child. */
  lemma RootHasNoParent(t: Node)
    requires Unique(t)
    ensures FindParentNodeById(t.id, t) == None
  {
    assert multiset(Ids(t))[t.id] == 1 + multiset(IdsOf(t.children))[t.id];
  }

  /**
   * Under the id invariant, the node findParentNodeById returns has, among its
   * direct children, the very node findNodeById returns.
   */
  lemma ParentHoldsChild(t: Node, childId: string)
    requires Unique(t) && FindParentNodeById(childId, t).Some?
    ensures FindNodeById(childId, t).Some?
    ensures FindNodeById(childId, t).value in FindParentNodeById(childId, t).value.children
  {
    var p := FindParentNodeById(childId, t).value;
    var k :| 0 <= k < |p.children| && ChildIds(p.children)[k] == childId;
    var c := p.children[k];
    ChildIsSubtree(t, p, c);
    FindUnique(t, c);
  }

  /** Under the id invariant, the layout entry of a node lists that node's children. */
  lemma {:induction false} LayoutFind(t: Node, s: Node)
    requires Unique(t) && s in Subtrees(t)
    ensures s.id in Layout(t) && Layout(t)[s.id] == ChildIds(s.children)
    decreases t
  {
    if s != t {
      SubtreeIdInOf(t.children, s);
      DistinctSplit([t.id], IdsOf(t.children));
      LayoutFindOf(t.children, s);
    }
  }

  lemma {:induction false} LayoutFindOf(cs: seq<Node>, s: Node)
    requires Distinct(IdsOf(cs)) && s in SubtreesOf(cs)
    ensures s.id in LayoutOf(cs) && LayoutOf(cs)[s.id] == ChildIds(s.children)
    decreases cs
  {
    DistinctSplit(Ids(cs[0]), IdsOf(cs[1..]));
    if s in Subtrees(cs[0]) {
      SubtreeIdIn(cs[0], s);
      LayoutOfKeys(cs[1..]);
      LayoutFind(cs[0], s);
    } else {
      LayoutFindOf(cs[1..], s);
    }
  }

  /** Under the id invariant, the layout of a subtree is part of the layout of the tree. */
  lemma {:induction false} LayoutOfSubtree(t: Node, s: Node)
    requires Unique(t) && s in Subtrees(t)
    ensures forall k :: k in Layout(s) ==> k in Layout(t) && Layout(t)[k] == Layout(s)[k]
  {
    LayoutKeys(s);
    forall k | k in Layout(s)
      ensures k in Layout(t) && Layout(t)[k] == Layout(s)[k]
    {
      SubtreeIds(s);
      var i :| 0 <= i < |Ids(s)| && Ids(s)[i] == k;
      var u := Subtrees(s)[i];
      SubtreeClosed(t, s);
      SubtreeClosed(t, u);
      DistinctSub(Ids(s), Ids(t));
      LayoutFind(s, u);
      LayoutFind(t, u);
    }
  }

  /**
   * Under the id invariant the layout and the root id determine the tree, so
   * a statement about the layout after a change says what the tree is.
   */
  lemma LayoutDetermines(t1: Node, t2: Node)
    requires Unique(t1) && Unique(t2) && t1.id == t2.id && Layout(t1) == Layout(t2)
    ensures t1 == t2
  {
    SameIdSameNode(t1, t2, t1, t2);
  }

  /** Nodes with the same id in two trees of the same layout are equal. */
  lemma {:induction false} SameIdSameNode(t1: Node, t2: Node, s1: Node, s2: Node)
    requires Unique(t1) && Unique(t2) && Layout(t1) == Layout(t2)
    requires s1 in Subtrees(t1) && s2 in Subtrees(t2) && s1.id == s2.id
    ensures s1 == s2
    decreases s1
  {
    LayoutFind(t1, s1);
    LayoutFind(t2, s2);
    var c1, c2 := s1.children, s2.children;
    assert |ChildIds(c1)| == |ChildIds(c2)|;
    forall i | 0 <= i < |c1|
      ensures c1[i] == c2[i]
    {
      assert ChildIds(c1)[i] == ChildIds(c2)[i];
      ChildIsSubtree(t1, s1, c1[i]);
      ChildIsSubtree(t2, s2, c2[i]);
      SameIdSameNode(t1, t2, c1[i], c2[i]);
    }
  }
}
