/**
 * The two in-place mutations the home page performs on a node it has found:
 * `children.push(x)` and `children = children.filter(n => n.id !== d)`
 * (src/app/page.tsx:23, 93-96).  On the owned tree they become an edit of
 * the children of the first node, in depth-first pre-order, that carries a
 * given id -- the node findNodeById returns for that id.
 */
module NodeEdit {
  import opened Wrappers
  import opened NodeTree
  import opened MapAlgebra

  /** A change to one node's list of children. */
  datatype Edit = Push(child: Node) | Drop(childId: string)

  /** `cs.filter((n) => n.id !== d)`. */
  function Without(cs: seq<Node>, d: string): (r: seq<Node>)
    ensures |r| <= |cs|
  {
    if cs == [] then []
    else if cs[0].id == d then Without(cs[1..], d)
    else [cs[0]] + Without(cs[1..], d)
  }

  /** The filter keeps exactly the children whose id differs from `d`. */
  lemma {:induction false} WithoutMembers(cs: seq<Node>, d: string)
    ensures forall c :: c in Without(cs, d) <==> c in cs && c.id != d
    decreases cs
  {
    if cs != [] {
      WithoutMembers(cs[1..], d);
      assert forall c :: c in cs <==> c == cs[0] || c in cs[1..];
    }
  }

  /** `ids.filter((x) => x !== d)`, the same filter seen on child ids. */
  function WithoutId(ids: seq<string>, d: string): (r: seq<string>)
    ensures forall x :: x in r <==> x in ids && x != d
  {
    if ids == [] then []
    else if ids[0] == d then WithoutId(ids[1..], d)
    else [ids[0]] + WithoutId(ids[1..], d)
  }

  /** The new children list after the edit. */
  function Apply(e: Edit, cs: seq<Node>): (r: seq<Node>)
    ensures e.Push? ==> |r| == |cs| + 1 && r[..|cs|] == cs && r[|cs|] == e.child
    ensures e.Drop? ==> |r| <= |cs|
  {
    match e
    case Push(c) => cs + [c]
    case Drop(d) => Without(cs, d)
  }

  /**
   * `t` with the children of its first node (depth-first pre-order) whose id
   * is `id` replaced by `Apply(e, ...)`; `t` itself when no node has that id.
   */
  function EditAt(t: Node, id: string, e: Edit): (r: Node)
    ensures r.id == t.id
    decreases t
  {
    if t.id == id then Node(t.id, Apply(e, t.children))
    else Node(t.id, EditFirst(t.children, id, e))
  }

  /** Edits inside the first tree of `cs` that holds `id`. */
  function EditFirst(cs: seq<Node>, id: string, e: Edit): (r: seq<Node>)
    ensures |r| == |cs| && forall i :: 0 <= i < |cs| ==> r[i].id == cs[i].id
    decreases cs
  {
    if cs == [] then []
    else if id in Ids(cs[0]) then [EditAt(cs[0], id, e)] + cs[1..]
    else [cs[0]] + EditFirst(cs[1..], id, e)
  }

  // ---------------------------------------------------------------------
  // Where the edit lands
  // ---------------------------------------------------------------------

  /** An edit at an id the tree does not hold changes nothing. */
  lemma {:induction false} EditAbsent(t: Node, id: string, e: Edit)
    requires id !in Ids(t)
    ensures EditAt(t, id, e) == t
    decreases t
  {
    EditFirstAbsent(t.children, id, e);
  }

  lemma {:induction false} EditFirstAbsent(cs: seq<Node>, id: string, e: Edit)
    requires id !in IdsOf(cs)
    ensures EditFirst(cs, id, e) == cs
    decreases cs
  {
    if cs != [] {
      EditFirstAbsent(cs[1..], id, e);
    }
  }

  /**
   * After the edit, findNodeById finds at `id` the node it found before, with
   * its children edited: the edit lands on the node the source mutates.
   */
  lemma {:induction false} FindAfterEdit(t: Node, id: string, e: Edit)
    requires id in Ids(t)
    ensures FindNodeById(id, EditAt(t, id, e)) == Some(Node(id, Apply(e, FindNodeById(id, t).value.children)))
    decreases t
  {
    if t.id != id {
      FindInAfterEdit(t.children, id, e);
    }
  }

  lemma {:induction false} FindInAfterEdit(cs: seq<Node>, id: string, e: Edit)
    requires id in IdsOf(cs)
    ensures FindIn(id, EditFirst(cs, id, e)) == Some(Node(id, Apply(e, FindIn(id, cs).value.children)))
    decreases cs
  {
    var r := EditFirst(cs, id, e);
    if id in Ids(cs[0]) {
      FindAfterEdit(cs[0], id, e);
      assert r[0] == EditAt(cs[0], id, e);
    } else {
      FindInAfterEdit(cs[1..], id, e);
      assert r[0] == cs[0] && r[1..] == EditFirst(cs[1..], id, e);
    }
  }

  // ---------------------------------------------------------------------
  // Ids before and after an edit
  // ---------------------------------------------------------------------

  lemma {:induction false} IdsOfAppend(a: seq<Node>, b: seq<Node>)
    ensures IdsOf(a + b) == IdsOf(a) + IdsOf(b)
  {
    if a == [] {
      assert a + b == b;
    } else {
      assert (a + b)[1..] == a[1..] + b;
      IdsOfAppend(a[1..], b);
    }
  }

  /** Pushing `c` below a node of `t` adds exactly the ids of `c`. */
  lemma {:induction false} IdsAfterPush(t: Node, id: string, c: Node)
    requires id in Ids(t)
    ensures multiset(Ids(EditAt(t, id, Push(c)))) == multiset(Ids(t)) + multiset(Ids(c))
    decreases t
  {
    if t.id == id {
      IdsAfterPushHere(t, c);
    } else {
      IdsOfAfterPush(t.children, id, c);
      assert Ids(EditAt(t, id, Push(c))) == [t.id] + IdsOf(EditFirst(t.children, id, Push(c)));
    }
  }

  lemma IdsAfterPushHere(t: Node, c: Node)
    ensures Ids(EditAt(t, t.id, Push(c))) == Ids(t) + Ids(c)
  {
    var cs := t.children;
    calc {
      Ids(EditAt(t, t.id, Push(c)));
      [t.id] + IdsOf(cs + [c]);
      { IdsOfAppend(cs, [c]); assert IdsOf([c]) == Ids(c) by { assert [c][1..] == []; } }
      [t.id] + (IdsOf(cs) + Ids(c));
      ([t.id] + IdsOf(cs)) + Ids(c);
    }
  }

  lemma {:induction false} IdsOfAfterPush(cs: seq<Node>, id: string, c: Node)
    requires id in IdsOf(cs)
    ensures multiset(IdsOf(EditFirst(cs, id, Push(c)))) == multiset(IdsOf(cs)) + multiset(Ids(c))
    decreases cs
  {
    var r := EditFirst(cs, id, Push(c));
    assert r[1..] == if id in Ids(cs[0]) then cs[1..] else EditFirst(cs[1..], id, Push(c));
    if id in Ids(cs[0]) {
      IdsAfterPush(cs[0], id, c);
    } else {
      IdsOfAfterPush(cs[1..], id, c);
    }
  }

  /** Filtering out the only child with id `c.id` removes exactly the ids of `c`. */
  lemma {:induction false} IdsOfWithout(cs: seq<Node>, c: Node)
    requires c in cs && Distinct(ChildIds(cs))
    ensures multiset(IdsOf(Without(cs, c.id))) + multiset(Ids(c)) == multiset(IdsOf(cs))
    decreases cs
  {
    if cs[0].id == c.id {
      HeadWithChildId(cs, c);
      assert IdsOf(cs) == Ids(c) + IdsOf(cs[1..]);
    } else {
      assert ChildIds(cs) == [cs[0].id] + ChildIds(cs[1..]);
      DistinctSplit([cs[0].id], ChildIds(cs[1..]));
      IdsOfWithout(cs[1..], c);
      IdsOfWithoutStep(cs, c);
    }
  }

  /** Under distinct child ids, the first child is the only child with its id. */
  lemma HeadWithChildId(cs: seq<Node>, c: Node)
    requires Distinct(ChildIds(cs)) && c in cs && cs[0].id == c.id
    ensures cs[0] == c && Without(cs, c.id) == cs[1..]
  {
    var rest := cs[1..];
    assert ChildIds(cs) == [cs[0].id] + ChildIds(rest);
    DistinctSplit([cs[0].id], ChildIds(rest));
    var k :| 0 <= k < |cs| && cs[k] == c;
    if k != 0 {
      DistinctAt(ChildIds(cs), 0, k);
    }
    WithoutAbsent(rest, c.id);
  }

  /** A kept first child contributes its ids on both sides. */
  lemma IdsOfWithoutStep(cs: seq<Node>, c: Node)
    requires cs != [] && cs[0].id != c.id
    requires multiset(IdsOf(Without(cs[1..], c.id))) + multiset(Ids(c)) == multiset(IdsOf(cs[1..]))
    ensures multiset(IdsOf(Without(cs, c.id))) + multiset(Ids(c)) == multiset(IdsOf(cs))
  {
    var w := Without(cs[1..], c.id);
    assert ([cs[0]] + w)[1..] == w;
    assert IdsOf(Without(cs, c.id)) == Ids(cs[0]) + IdsOf(w);
  }

  lemma {:induction false} WithoutAbsent(cs: seq<Node>, d: string)
    requires d !in ChildIds(cs)
    ensures Without(cs, d) == cs
    decreases cs
  {
    if cs != [] {
      assert ChildIds(cs) == [cs[0].id] + ChildIds(cs[1..]);
      WithoutAbsent(cs[1..], d);
    }
  }

  /** The child ids of a node of a tree with unique ids are distinct. */
  lemma ChildIdsDistinct(t: Node, p: Node)
    requires Unique(t) && p in Subtrees(t)
    ensures Distinct(ChildIds(p.children))
  {
    SubtreeClosed(t, p);
    DistinctSub(Ids(p), Ids(t));
    DistinctSplit([p.id], IdsOf(p.children));
    ChildIdsWithin(p.children);
    DistinctSub(ChildIds(p.children), IdsOf(p.children));
  }

  lemma {:induction false} ChildIdsWithin(cs: seq<Node>)
    ensures multiset(ChildIds(cs)) <= multiset(IdsOf(cs))
    decreases cs
  {
    if cs != [] {
      assert ChildIds(cs) == [cs[0].id] + ChildIds(cs[1..]);
      ChildIdsWithin(cs[1..]);
    }
  }

  /**
   * Under the id invariant, filtering the found node's children by the id of
   * one of them removes exactly that child's ids from the tree.
   */
  lemma {:induction false} IdsAfterDrop(t: Node, id: string, c: Node)
    requires Unique(t) && FindNodeById(id, t).Some? && c in FindNodeById(id, t).value.children
    ensures multiset(Ids(EditAt(t, id, Drop(c.id)))) + multiset(Ids(c)) == multiset(Ids(t))
    decreases t
  {
    var p := FindNodeById(id, t).value;
    ChildIdsDistinct(t, p);
    if t.id == id {
      IdsOfWithout(t.children, c);
    } else {
      DistinctSplit([t.id], IdsOf(t.children));
      IdsOfAfterDrop(t.children, id, c);
    }
  }

  lemma {:induction false} IdsOfAfterDrop(cs: seq<Node>, id: string, c: Node)
    requires Distinct(IdsOf(cs)) && FindIn(id, cs).Some? && c in FindIn(id, cs).value.children
    ensures multiset(IdsOf(EditFirst(cs, id, Drop(c.id)))) + multiset(Ids(c)) == multiset(IdsOf(cs))
    decreases cs
  {
    var r := EditFirst(cs, id, Drop(c.id));
    DistinctSplit(Ids(cs[0]), IdsOf(cs[1..]));
    if id in Ids(cs[0]) {
      assert r[1..] == cs[1..];
      IdsAfterDrop(cs[0], id, c);
    } else {
      assert r[1..] == EditFirst(cs[1..], id, Drop(c.id));
      IdsOfAfterDrop(cs[1..], id, c);
    }
  }

  // ---------------------------------------------------------------------
  // The layout before and after an edit
  // ---------------------------------------------------------------------

  /** The ids of the nodes of `t`, as a set. */
  function IdSet(t: Node): set<string>
  {
    set x | x in Ids(t)
  }

  /** A child of any node of `t` lies strictly below the root of `t`. */
  lemma BelowRoot(t: Node, p: Node, c: Node)
    requires p in Subtrees(t) && c in p.children
    ensures c in SubtreesOf(t.children)
  {
    MemberIsSubtree(p.children, c);
    if p != t {
      assert c in Subtrees(p);
      SubtreeClosedOf(t.children, p);
    }
  }

  /** Under the id invariant, the root's id occurs nowhere below the root. */
  lemma RootNotBelow(t: Node, c: Node)
    requires Unique(t) && c in SubtreesOf(t.children)
    ensures t.id !in IdSet(c)
  {
    SubtreeClosedOf(t.children, c);
    DistinctSplit([t.id], IdsOf(t.children));
    assert t.id in [t.id];
    assert multiset(Ids(c))[t.id] == 0;
  }

  lemma {:induction false} LayoutOfAppend(a: seq<Node>, b: seq<Node>)
    ensures LayoutOf(a + b) == LayoutOf(a) + LayoutOf(b)
  {
    if a == [] {
      assert a + b == b;
      UnionEmpty(LayoutOf(b));
    } else {
      assert (a + b)[1..] == a[1..] + b;
      LayoutOfAppend(a[1..], b);
      UnionAssoc(Layout(a[0]), LayoutOf(a[1..]), LayoutOf(b));
    }
  }

  /**
   * Under the id invariant, pushing a tree `c` of fresh ids below the node
   * with id `id` adds `c.id` as that node's last child id and adds the layout
   * of `c`; no other node's child list changes.
   */
  lemma {:induction false} LayoutAfterPush(t: Node, id: string, c: Node)
    requires Unique(t) && id in Ids(t)
    requires forall x :: x in Ids(c) ==> x !in Ids(t)
    ensures Layout(EditAt(t, id, Push(c))) == Layout(t)[id := Layout(t)[id] + [c.id]] + Layout(c)
    decreases t
  {
    var cs, lc := t.children, Layout(c);
    var m := LayoutOf(cs);
    LayoutKeys(c);
    assert t.id !in lc;
    if t.id == id {
      LayoutAfterPushHere(t, c);
    } else {
      DistinctSplit([t.id], IdsOf(cs));
      var v := m[id := m[id] + [c.id]];
      calc {
        Layout(EditAt(t, id, Push(c)));
        { assert ChildIds(EditFirst(cs, id, Push(c))) == ChildIds(cs); }
        LayoutOf(EditFirst(cs, id, Push(c)))[t.id := ChildIds(cs)];
        { LayoutOfAfterPush(cs, id, c); }
        (v + lc)[t.id := ChildIds(cs)];
        { UpdateUnionLeft(v, lc, t.id, ChildIds(cs)); }
        v[t.id := ChildIds(cs)] + lc;
        { UpdateSwap(m, id, m[id] + [c.id], t.id, ChildIds(cs)); }
        m[t.id := ChildIds(cs)][id := m[id] + [c.id]] + lc;
      }
    }
  }

  /** The case of LayoutAfterPush where the root itself receives `c`. */
  lemma LayoutAfterPushHere(t: Node, c: Node)
    requires t.id !in Layout(c)
    ensures Layout(EditAt(t, t.id, Push(c))) == Layout(t)[t.id := Layout(t)[t.id] + [c.id]] + Layout(c)
  {
    var cs, lc := t.children, Layout(c);
    var m, w := LayoutOf(cs), ChildIds(cs) + [c.id];
    calc {
      Layout(EditAt(t, t.id, Push(c)));
      Layout(Node(t.id, cs + [c]));
      LayoutOf(cs + [c])[t.id := ChildIds(cs + [c])];
      { LayoutOfPushLast(cs, c); ChildIdsPushLast(cs, c); }
      (m + lc)[t.id := w];
      { UpdateUnionLeft(m, lc, t.id, w); }
      m[t.id := w] + lc;
      { UpdateTwice(m, t.id, ChildIds(cs), w); }
      m[t.id := ChildIds(cs)][t.id := w] + lc;
    }
  }

  lemma LayoutOfPushLast(cs: seq<Node>, c: Node)
    ensures LayoutOf(cs + [c]) == LayoutOf(cs) + Layout(c)
  {
    LayoutOfAppend(cs, [c]);
    assert [c][1..] == [];
    UnionEmpty(Layout(c));
  }

  lemma ChildIdsPushLast(cs: seq<Node>, c: Node)
    ensures ChildIds(cs + [c]) == ChildIds(cs) + [c.id]
  {
  }

  lemma {:induction false} LayoutOfAfterPush(cs: seq<Node>, id: string, c: Node)
    requires Distinct(IdsOf(cs)) && id in IdsOf(cs)
    requires forall x :: x in Ids(c) ==> x !in IdsOf(cs)
    ensures LayoutOf(EditFirst(cs, id, Push(c))) == LayoutOf(cs)[id := LayoutOf(cs)[id] + [c.id]] + Layout(c)
    decreases cs
  {
    var r := EditFirst(cs, id, Push(c));
    var a, b, lc := Layout(cs[0]), LayoutOf(cs[1..]), Layout(c);
    DistinctSplit(Ids(cs[0]), IdsOf(cs[1..]));
    LayoutKeys(c);
    LayoutOfKeys(cs[1..]);
    assert forall x :: x in lc ==> x !in b;
    if id in Ids(cs[0]) {
      assert r[1..] == cs[1..];
      var v := a[id := a[id] + [c.id]];
      calc {
        LayoutOf(r);
        { LayoutAfterPush(cs[0], id, c); }
        (v + lc) + b;
        { UnionAssoc(v, lc, b); UnionSwap(lc, b); UnionAssoc(v, b, lc); }
        (v + b) + lc;
        { UpdateUnionLeft(a, b, id, a[id] + [c.id]); }
        (a + b)[id := a[id] + [c.id]] + lc;
      }
    } else {
      assert r[1..] == EditFirst(cs[1..], id, Push(c));
      var v := b[id := b[id] + [c.id]];
      calc {
        LayoutOf(r);
        { LayoutOfAfterPush(cs[1..], id, c); }
        a + (v + lc);
        { UnionAssoc(a, v, lc); }
        (a + v) + lc;
        { UpdateUnionRight(a, b, id, b[id] + [c.id]); }
        (a + b)[id := b[id] + [c.id]] + lc;
      }
    }
  }

  lemma {:induction false} ChildIdsWithout(cs: seq<Node>, d: string)
    ensures ChildIds(Without(cs, d)) == WithoutId(ChildIds(cs), d)
    decreases cs
  {
    if cs != [] {
      var ids := ChildIds(cs);
      var w := Without(cs[1..], d);
      assert ids[0] == cs[0].id && ids[1..] == ChildIds(cs[1..]);
      ChildIdsWithout(cs[1..], d);
      if cs[0].id == d {
        calc {
          ChildIds(Without(cs, d));
          ChildIds(w);
          WithoutId(ids[1..], d);
          WithoutId(ids, d);
        }
      } else {
        calc {
          ChildIds(Without(cs, d));
          ChildIds([cs[0]] + w);
          { assert ChildIds([cs[0]] + w) == [cs[0].id] + ChildIds(w); }
          [cs[0].id] + ChildIds(w);
          [ids[0]] + WithoutId(ids[1..], d);
          WithoutId(ids, d);
        }
      }
    }
  }

  /** Under the id invariant, filtering out child `c` removes the layout of `c`. */
  lemma {:induction false} LayoutOfWithout(cs: seq<Node>, c: Node)
    requires Distinct(IdsOf(cs)) && c in cs
    ensures LayoutOf(Without(cs, c.id)) == LayoutOf(cs) - IdSet(c)
    decreases cs
  {
    var rest, ids := cs[1..], IdSet(c);
    var a, b := Layout(cs[0]), LayoutOf(rest);
    DistinctSplit(Ids(cs[0]), IdsOf(rest));
    if cs[0].id == c.id {
      HeadWithId(cs, c);
      LayoutKeys(c);
      LayoutOfKeys(rest);
      SubtractLeftOperand(a, b, ids);
    } else {
      assert c in rest;
      MemberIdsWithin(rest, c);
      LayoutKeys(cs[0]);
      SubtractRightOperand(a, b, ids);
      LayoutOfWithout(rest, c);
    }
  }

  /** Under the id invariant, the first child is the only child with its id. */
  lemma HeadWithId(cs: seq<Node>, c: Node)
    requires Distinct(IdsOf(cs)) && c in cs && cs[0].id == c.id
    ensures cs[0] == c && Without(cs, c.id) == cs[1..]
  {
    ChildIdsWithin(cs);
    DistinctSub(ChildIds(cs), IdsOf(cs));
    HeadWithChildId(cs, c);
  }

  /** The ids of a member of a forest are ids of the forest. */
  lemma MemberIdsWithin(cs: seq<Node>, c: Node)
    requires c in cs
    ensures forall x :: x in Ids(c) ==> x in IdsOf(cs)
  {
    MemberIsSubtree(cs, c);
    SubtreeClosedOf(cs, c);
    MultisetWithin(Ids(c), IdsOf(cs));
  }

  /**
   * Under the id invariant, filtering child `c` out of the node with id `id`
   * removes `c.id` from that node's child ids (the others keep their order)
   * and removes the layout of `c`; no other node's child list changes.
   */
  lemma {:induction false} LayoutAfterDrop(t: Node, id: string, c: Node)
    requires Unique(t) && FindNodeById(id, t).Some? && c in FindNodeById(id, t).value.children
    ensures Layout(EditAt(t, id, Drop(c.id))) == (Layout(t) - IdSet(c))[id := WithoutId(Layout(t)[id], c.id)]
    decreases t
  {
    var cs, ids := t.children, IdSet(c);
    var m := LayoutOf(cs);
    BelowRoot(t, FindNodeById(id, t).value, c);
    RootNotBelow(t, c);
    UpdateSubtract(m, t.id, ChildIds(cs), ids);
    if t.id == id {
      var w := WithoutId(ChildIds(cs), c.id);
      calc {
        Layout(EditAt(t, id, Drop(c.id)));
        { DistinctSplit([t.id], IdsOf(cs)); LayoutOfWithout(cs, c); ChildIdsWithout(cs, c.id); }
        (m - ids)[id := w];
        { UpdateTwice(m - ids, id, ChildIds(cs), w); }
        (m[id := ChildIds(cs)] - ids)[id := w];
      }
    } else {
      var w := WithoutId(m[id], c.id);
      calc {
        Layout(EditAt(t, id, Drop(c.id)));
        { assert ChildIds(EditFirst(cs, id, Drop(c.id))) == ChildIds(cs); }
        LayoutOf(EditFirst(cs, id, Drop(c.id)))[t.id := ChildIds(cs)];
        { DistinctSplit([t.id], IdsOf(cs)); LayoutOfAfterDrop(cs, id, c); }
        (m - ids)[id := w][t.id := ChildIds(cs)];
        { UpdateSwap(m - ids, id, w, t.id, ChildIds(cs)); }
        (m[t.id := ChildIds(cs)] - ids)[id := w];
      }
    }
  }

  lemma {:induction false} LayoutOfAfterDrop(cs: seq<Node>, id: string, c: Node)
    requires Distinct(IdsOf(cs)) && FindIn(id, cs).Some? && c in FindIn(id, cs).value.children
    ensures LayoutOf(EditFirst(cs, id, Drop(c.id))) == (LayoutOf(cs) - IdSet(c))[id := WithoutId(LayoutOf(cs)[id], c.id)]
    decreases cs
  {
    var r, ids := EditFirst(cs, id, Drop(c.id)), IdSet(c);
    var p := FindIn(id, cs).value;
    var a, b := Layout(cs[0]), LayoutOf(cs[1..]);
    DistinctSplit(Ids(cs[0]), IdsOf(cs[1..]));
    if id in Ids(cs[0]) {
      assert r[1..] == cs[1..];
      ChildIsSubtree(cs[0], p, c);
      MultisetWithin(Ids(c), Ids(cs[0]));
      LayoutOfKeys(cs[1..]);
      KeysMissed(ids, Ids(cs[0]), IdsOf(cs[1..]), b);
      SubtractLeftOnly(a, b, ids);
      var w := WithoutId(a[id], c.id);
      calc {
        LayoutOf(r);
        { LayoutAfterDrop(cs[0], id, c); }
        (a - ids)[id := w] + b;
        { UpdateUnionLeft(a - ids, b, id, w); }
        ((a - ids) + b)[id := w];
      }
    } else {
      assert r[1..] == EditFirst(cs[1..], id, Drop(c.id));
      ChildOfFoundWithin(cs[1..], id, c);
      LayoutKeys(cs[0]);
      KeysMissed(ids, IdsOf(cs[1..]), Ids(cs[0]), a);
      SubtractRightOperand(a, b, ids);
      var w := WithoutId(b[id], c.id);
      calc {
        LayoutOf(r);
        { LayoutOfAfterDrop(cs[1..], id, c); }
        a + (b - ids)[id := w];
        { UpdateUnionRight(a, b - ids, id, w); }
        (a + (b - ids))[id := w];
      }
    }
  }

  /** Keys of `m` lie in `ys`, which shares nothing with `xs`, which holds `ids`. */
  lemma KeysMissed(ids: set<string>, xs: seq<string>, ys: seq<string>, m: map<string, seq<string>>)
    requires forall x :: x in ids ==> x in xs
    requires forall x :: x in xs ==> x !in ys
    requires forall x :: x in m ==> x in ys
    ensures forall x :: x in ids ==> x !in m
  {
  }

  /** The ids of a child of the node found in a forest are ids of the forest. */
  lemma ChildOfFoundWithin(cs: seq<Node>, id: string, c: Node)
    requires FindIn(id, cs).Some? && c in FindIn(id, cs).value.children
    ensures forall x :: x in IdSet(c) ==> x in IdsOf(cs)
  {
    var p := FindIn(id, cs).value;
    MemberIsSubtree(p.children, c);
    assert c in Subtrees(p);
    SubtreeClosedOf(cs, p);
    SubtreeClosedOf(cs, c);
    MultisetWithin(Ids(c), IdsOf(cs));
  }

  // ---------------------------------------------------------------------
  // Pushing and filtering commute
  // ---------------------------------------------------------------------

  /** No node of `t` with id `d` has `x` among its ids. */
  ghost predicate NotBelow(x: string, d: string, t: Node)
  {
    forall s :: s in Subtrees(t) && s.id == d ==> x !in Ids(s)
  }

  ghost predicate NotBelowOf(x: string, d: string, cs: seq<Node>)
  {
    forall s :: s in SubtreesOf(cs) && s.id == d ==> x !in Ids(s)
  }

  /** A push adds exactly the ids of the pushed tree, when its target exists. */
  lemma MemAfterPush(t: Node, a: string, c: Node, x: string)
    ensures x in Ids(EditAt(t, a, Push(c))) <==> x in Ids(t) || (a in Ids(t) && x in Ids(c))
  {
    if a in Ids(t) {
      IdsAfterPush(t, a, c);
      assert multiset(Ids(EditAt(t, a, Push(c))))[x] == multiset(Ids(t))[x] + multiset(Ids(c))[x];
    } else {
      EditAbsent(t, a, Push(c));
    }
  }

  /** A filter only removes ids. */
  lemma {:induction false} IdsAfterDropWithin(t: Node, b: string, d: string)
    ensures multiset(Ids(EditAt(t, b, Drop(d)))) <= multiset(Ids(t))
    decreases t
  {
    if t.id == b {
      IdsOfWithoutWithin(t.children, d);
    } else {
      IdsOfAfterDropWithin(t.children, b, d);
    }
  }

  lemma {:induction false} IdsOfAfterDropWithin(cs: seq<Node>, b: string, d: string)
    ensures multiset(IdsOf(EditFirst(cs, b, Drop(d)))) <= multiset(IdsOf(cs))
    decreases cs
  {
    var r := EditFirst(cs, b, Drop(d));
    if cs != [] {
      if b in Ids(cs[0]) {
        assert r[1..] == cs[1..];
        IdsAfterDropWithin(cs[0], b, d);
      } else {
        assert r[1..] == EditFirst(cs[1..], b, Drop(d));
        IdsOfAfterDropWithin(cs[1..], b, d);
      }
    }
  }

  lemma {:induction false} IdsOfWithoutWithin(cs: seq<Node>, d: string)
    ensures multiset(IdsOf(Without(cs, d))) <= multiset(IdsOf(cs))
    decreases cs
  {
    if cs != [] {
      IdsOfWithoutWithin(cs[1..], d);
      if cs[0].id != d {
        assert ([cs[0]] + Without(cs[1..], d))[1..] == Without(cs[1..], d);
      }
    }
  }

  /** A filter of `d` keeps every id that no node with id `d` carries along. */
  lemma {:induction false} KeptByDrop(t: Node, b: string, d: string, x: string)
    requires x in Ids(t) && NotBelow(x, d, t)
    ensures x in Ids(EditAt(t, b, Drop(d)))
    decreases t
  {
    if x != t.id {
      if t.id == b {
        KeptByWithout(t.children, d, x);
      } else {
        KeptByDropOf(t.children, b, d, x);
      }
    }
  }

  lemma {:induction false} KeptByDropOf(cs: seq<Node>, b: string, d: string, x: string)
    requires x in IdsOf(cs) && NotBelowOf(x, d, cs)
    ensures x in IdsOf(EditFirst(cs, b, Drop(d)))
    decreases cs
  {
    var r := EditFirst(cs, b, Drop(d));
    if b in Ids(cs[0]) {
      assert r[1..] == cs[1..];
      if x in Ids(cs[0]) {
        KeptByDrop(cs[0], b, d, x);
      }
    } else {
      assert r[1..] == EditFirst(cs[1..], b, Drop(d));
      if x !in Ids(cs[0]) {
        KeptByDropOf(cs[1..], b, d, x);
      }
    }
  }

  lemma {:induction false} KeptByWithout(cs: seq<Node>, d: string, x: string)
    requires x in IdsOf(cs) && NotBelowOf(x, d, cs)
    ensures x in IdsOf(Without(cs, d))
    decreases cs
  {
    var w := Without(cs[1..], d);
    if cs[0].id == d {
      assert cs[0] in Subtrees(cs[0]);
      KeptByWithout(cs[1..], d, x);
    } else {
      assert ([cs[0]] + w)[1..] == w;
      if x !in Ids(cs[0]) {
        KeptByWithout(cs[1..], d, x);
      }
    }
  }

  /** Appending a tree without id `b` at the end does not move the first `b`. */
  lemma {:induction false} EditFirstPushLast(cs: seq<Node>, b: string, e: Edit, c: Node)
    requires b !in Ids(c)
    ensures EditFirst(cs + [c], b, e) == EditFirst(cs, b, e) + [c]
    decreases cs
  {
    if cs == [] {
      assert [c][1..] == [];
    } else {
      assert (cs + [c])[1..] == cs[1..] + [c];
      EditFirstPushLast(cs[1..], b, e, c);
    }
  }

  /** Filtering `d` out and pushing below a node not under any `d` child commute. */
  lemma {:induction false} WithoutEditFirst(cs: seq<Node>, a: string, c: Node, d: string)
    requires NotBelowOf(a, d, cs)
    ensures Without(EditFirst(cs, a, Push(c)), d) == EditFirst(Without(cs, d), a, Push(c))
    decreases cs
  {
    if cs != [] {
      var x, rest := cs[0], cs[1..];
      var w := Without(rest, d);
      assert x in Subtrees(x);
      if x.id == d {
        assert EditFirst(cs, a, Push(c)) == [x] + EditFirst(rest, a, Push(c));
        WithoutEditFirst(rest, a, c, d);
      } else if a in Ids(x) {
        assert ([EditAt(x, a, Push(c))] + rest)[1..] == rest;
        assert ([x] + w)[0] == x && ([x] + w)[1..] == w;
      } else {
        var r := EditFirst(rest, a, Push(c));
        assert ([x] + r)[1..] == r;
        assert ([x] + w)[0] == x && ([x] + w)[1..] == w;
        WithoutEditFirst(rest, a, c, d);
      }
    }
  }

  /**
   * changeNode pushes and then filters (src/app/page.tsx:93-96); under these
   * conditions the result is the same as filtering first and pushing after.
   */
  lemma {:induction false} PushDropCommute(t: Node, a: string, c: Node, b: string, d: string)
    requires a != b && b !in Ids(c) && NotBelow(a, d, t)
    ensures EditAt(EditAt(t, a, Push(c)), b, Drop(d)) == EditAt(EditAt(t, b, Drop(d)), a, Push(c))
    decreases t
  {
    var cs := t.children;
    if t.id == a {
      EditFirstPushLast(cs, b, Drop(d), c);
    } else if t.id == b {
      WithoutEditFirst(cs, a, c, d);
    } else {
      PushDropCommuteOf(cs, a, c, b, d);
    }
  }

  lemma {:induction false} PushDropCommuteOf(cs: seq<Node>, a: string, c: Node, b: string, d: string)
    requires a != b && b !in Ids(c) && NotBelowOf(a, d, cs)
    ensures EditFirst(EditFirst(cs, a, Push(c)), b, Drop(d)) == EditFirst(EditFirst(cs, b, Drop(d)), a, Push(c))
    decreases cs
  {
    if cs != [] {
      var x, rest := cs[0], cs[1..];
      var pushed, dropped := EditAt(x, a, Push(c)), EditAt(x, b, Drop(d));
      MemAfterPush(x, a, c, b);
      if a in Ids(x) {
        KeptByDrop(x, b, d, a);
      } else {
        IdsAfterDropWithin(x, b, d);
        assert multiset(Ids(dropped))[a] == 0;
      }
      if a in Ids(x) && b in Ids(x) {
        PushDropCommute(x, a, c, b, d);
        assert ([pushed] + rest)[0] == pushed && ([pushed] + rest)[1..] == rest;
        assert ([dropped] + rest)[0] == dropped && ([dropped] + rest)[1..] == rest;
      } else if a in Ids(x) {
        assert ([pushed] + rest)[0] == pushed && ([pushed] + rest)[1..] == rest;
        var r := EditFirst(rest, b, Drop(d));
        assert ([x] + r)[0] == x && ([x] + r)[1..] == r;
      } else if b in Ids(x) {
        var r := EditFirst(rest, a, Push(c));
        assert ([x] + r)[0] == x && ([x] + r)[1..] == r;
        assert ([dropped] + rest)[0] == dropped && ([dropped] + rest)[1..] == rest;
      } else {
        var r1, r2 := EditFirst(rest, a, Push(c)), EditFirst(rest, b, Drop(d));
        assert ([x] + r1)[0] == x && ([x] + r1)[1..] == r1;
        assert ([x] + r2)[0] == x && ([x] + r2)[1..] == r2;
        PushDropCommuteOf(rest, a, c, b, d);
      }
    }
  }
}
