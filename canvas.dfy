/**
 * The canvas: the tree operations behind its handlers (look-up, removal,
 * insertion into a div, text edit, sibling reorder) and the drag-end handler
 * that combines them. Every tree operation builds a new document; the handlers
 * hand it to the App component's `setElements`.
 */
module Canvas {
  import opened Elements
  import opened ArrayMoves
  import App
  import SettingsPanel

  // ---------------------------------------------------------------------
  // findElementById

  /** `findElementById(items, id)`: the same depth-first search as the App component's `findById`. */
  method FindElementById(items: seq<Node>, id: string) returns (r: Option<Node>)
    ensures r == Lookup(items, id)
    ensures r.None? <==> id !in Ids(items)
    ensures r.Some? ==> r.value.id == id && r.value in Preorder(items)
  {
    r := App.FindById(items, Some(id));
    if r.Some? {
      LookupInPreorder(items, id);
    }
  }

  // ---------------------------------------------------------------------
  // removeElementById

  /** Drops every node whose id is `id`, with its subtree, at every depth. */
  function RemoveById(items: seq<Node>, id: string): (r: seq<Node>)
    ensures |r| <= |items|
    ensures forall i :: 0 <= i < |r| ==> r[i].id != id
    decreases SeqSize(items)
  {
    if items == [] then []
    else
      var el := items[0];
      var rest := RemoveById(items[1..], id);
      if el.id == id then rest
      else if el.children.ChildList? then [el.(children := ChildList(RemoveById(Kids(el), id)))] + rest
      else [el] + rest
  }

  lemma {:induction false} RemoveByIdCons(items: seq<Node>, id: string)
    requires items != []
    ensures items[0].id == id ==> RemoveById(items, id) == RemoveById(items[1..], id)
    ensures items[0].id != id ==>
      var r := RemoveById(items, id);
      && r != [] && r[1..] == RemoveById(items[1..], id)
      && Label(TagOf(r[0])) == Label(TagOf(items[0]))
      && Kids(r[0]) == RemoveById(Kids(items[0]), id)
  {
    if items[0].id != id && items[0].children.NoChildren? {
      assert Kids(items[0]) == [];
    }
  }

  /** After the removal no node, at any depth, carries the id. */
  lemma {:induction false} RemoveByIdGone(items: seq<Node>, id: string)
    ensures id !in Ids(RemoveById(items, id))
    decreases SeqSize(items)
  {
    if items != [] {
      var r := RemoveById(items, id);
      RemoveByIdCons(items, id);
      RemoveByIdGone(items[1..], id);
      if items[0].id != id {
        RemoveByIdGone(Kids(items[0]), id);
        IdsCons(r);
      }
    }
  }

  /** Removing an id no node carries changes nothing. */
  lemma {:induction false} RemoveByIdAbsent(items: seq<Node>, id: string)
    requires id !in Ids(items)
    ensures RemoveById(items, id) == items
    decreases SeqSize(items)
  {
    if items != [] {
      IdsCons(items);
      RemoveByIdAbsent(Kids(items[0]), id);
      RemoveByIdAbsent(items[1..], id);
    }
  }

  /** The removal never adds ids. */
  lemma {:induction false} RemoveByIdShrinks(items: seq<Node>, id: string)
    ensures multiset(Ids(RemoveById(items, id))) <= multiset(Ids(items))
    decreases SeqSize(items)
  {
    if items != [] {
      var r := RemoveById(items, id);
      RemoveByIdCons(items, id);
      RemoveByIdShrinks(items[1..], id);
      IdsConsMultiset(items);
      if items[0].id != id {
        RemoveByIdShrinks(Kids(items[0]), id);
        IdsConsMultiset(r);
      }
    }
  }

  /**
   * With unique ids, the removal takes out exactly the subtree of the node
   * carrying the id: every other id stays, once.
   */
  lemma {:induction false} RemoveByIdTakesSubtree(items: seq<Node>, id: string)
    requires UniqueIds(items) && Lookup(items, id).Some?
    ensures multiset(Ids(RemoveById(items, id))) + multiset(Ids([Lookup(items, id).value])) == multiset(Ids(items))
    decreases SeqSize(items)
  {
    assert items != [];
    var el := items[0];
    LookupCons(items, id);
    UniqueCons(items);
    if el.id == id {
      RemoveAtRoot(items, id);
    } else if Lookup(Kids(el), id).Some? {
      assert id in multiset(Ids(Kids(el)));
      RemoveByIdTakesSubtree(Kids(el), id);
      RemoveBelow(items, id);
    } else {
      RemoveByIdTakesSubtree(items[1..], id);
      RemoveLater(items, id);
    }
  }

  lemma {:induction false} RemoveAtRoot(items: seq<Node>, id: string)
    requires items != [] && items[0].id == id && id !in Ids(items[1..])
    ensures multiset(Ids(RemoveById(items, id))) + multiset(Ids([items[0]])) == multiset(Ids(items))
  {
    RemoveByIdCons(items, id);
    RemoveByIdAbsent(items[1..], id);
    CutFirst(items);
  }

  lemma {:induction false} RemoveBelow(items: seq<Node>, id: string)
    requires items != [] && items[0].id != id && id !in Ids(items[1..])
    requires Lookup(Kids(items[0]), id).Some?
    requires multiset(Ids(RemoveById(Kids(items[0]), id))) + multiset(Ids([Lookup(Kids(items[0]), id).value])) ==
      multiset(Ids(Kids(items[0])))
    ensures multiset(Ids(RemoveById(items, id))) + multiset(Ids([Lookup(Kids(items[0]), id).value])) ==
      multiset(Ids(items))
  {
    var r := RemoveById(items, id);
    RemoveByIdCons(items, id);
    RemoveByIdAbsent(items[1..], id);
    IdsConsMultiset(items);
    IdsConsMultiset(r);
    ReplacePart(multiset{items[0].id}, multiset(Ids(Kids(items[0]))), multiset(Ids(Kids(r[0]))), multiset(Ids(items[1..])),
      multiset(Ids([Lookup(Kids(items[0]), id).value])), multiset{});
  }

  lemma {:induction false} RemoveLater(items: seq<Node>, id: string)
    requires items != [] && items[0].id != id && id !in Ids(Kids(items[0]))
    requires Lookup(items[1..], id).Some?
    requires multiset(Ids(RemoveById(items[1..], id))) + multiset(Ids([Lookup(items[1..], id).value])) ==
      multiset(Ids(items[1..]))
    ensures multiset(Ids(RemoveById(items, id))) + multiset(Ids([Lookup(items[1..], id).value])) ==
      multiset(Ids(items))
  {
    var r := RemoveById(items, id);
    RemoveByIdCons(items, id);
    RemoveByIdAbsent(Kids(items[0]), id);
    IdsConsMultiset(items);
    IdsConsMultiset(r);
    ReplacePart(multiset{items[0].id}, multiset(Ids(items[1..])), multiset(Ids(r[1..])), multiset(Ids(Kids(items[0]))),
      multiset(Ids([Lookup(items[1..], id).value])), multiset{});
  }

  /**
   * The nodes that stay keep their id, type, props and whether they have a
   * children array, and their preorder order: their labels (tags without the
   * child count) are the original labels with some deleted.
   */
  lemma {:induction false} RemoveByIdKeepsOrder(items: seq<Node>, id: string) returns (mask: seq<bool>)
    ensures |mask| == |Labels(items)| && Labels(RemoveById(items, id)) == Keep(Labels(items), mask)
    decreases SeqSize(items)
  {
    if items == [] {
      mask := [];
    } else {
      var el := items[0];
      var r := RemoveById(items, id);
      RemoveByIdCons(items, id);
      LabelsCons(items);
      var head := [Label(TagOf(el))] + Labels(Kids(el));
      var mRest := RemoveByIdKeepsOrder(items[1..], id);
      if el.id == id {
        KeepNone(head);
        mask := Falses(|head|) + mRest;
        KeepAppend(head, Falses(|head|), Labels(items[1..]), mRest);
      } else {
        var mKids := RemoveByIdKeepsOrder(Kids(el), id);
        LabelsCons(r);
        assert Keep([Label(TagOf(el))], [true]) == [Label(TagOf(el))];
        KeepAppend([Label(TagOf(el))], [true], Labels(Kids(el)), mKids);
        mask := [true] + mKids + mRest;
        KeepAppend(head, [true] + mKids, Labels(items[1..]), mRest);
      }
    }
  }

  /** The removal keeps the surviving nodes, in order, unchanged apart from their children. */
  lemma {:induction false} RemoveByIdSubsequence(items: seq<Node>, id: string)
    ensures IsSubsequence(Labels(RemoveById(items, id)), Labels(items))
  {
    var mask := RemoveByIdKeepsOrder(items, id);
  }

  /** A node without children that survives the removal is a node of the original document, unchanged. */
  lemma {:induction false} RemoveByIdKeepsLeaves(items: seq<Node>, id: string)
    ensures forall n :: n in Preorder(RemoveById(items, id)) && n.children.NoChildren? ==> n in Preorder(items)
    decreases SeqSize(items)
  {
    if items != [] {
      var el := items[0];
      var r := RemoveById(items, id);
      RemoveByIdCons(items, id);
      RemoveByIdKeepsLeaves(items[1..], id);
      assert Preorder(items) == [el] + Preorder(Kids(el)) + Preorder(items[1..]);
      if el.id != id {
        RemoveByIdKeepsLeaves(Kids(el), id);
        assert Preorder(r) == [r[0]] + Preorder(Kids(r[0])) + Preorder(r[1..]);
        if r[0].children.NoChildren? {
          assert r[0] == el;
        }
      }
    }
  }

  /** The removal keeps a document well-formed. */
  lemma {:induction false} RemoveByIdWellFormed(items: seq<Node>, id: string)
    requires WellFormed(items)
    ensures WellFormed(RemoveById(items, id))
  {
    var r := RemoveById(items, id);
    RemoveByIdShrinks(items, id);
    forall y ensures multiset(Ids(r))[y] <= 1 {
      assert multiset(Ids(r))[y] <= multiset(Ids(items))[y];
    }
    var mask := RemoveByIdKeepsOrder(items, id);
    ChildrenOnDivsTags(items);
    ChildrenOnDivsTags(r);
    forall k | 0 <= k < |Tags(r)| ensures Tags(r)[k].hasChildren <==> Tags(r)[k].kind == Div {
      assert Labels(r)[k] == Label(Tags(r)[k]);
      assert Labels(r)[k] in multiset(Labels(items));
      var j :| 0 <= j < |Labels(items)| && Labels(items)[j] == Labels(r)[k];
      assert Labels(items)[j] == Label(Tags(items)[j]);
    }
  }

  /** A node with its `i`-th child taken out. */
  function WithoutChild(p: Node, i: nat): Node
    requires i < |Kids(p)|
  {
    p.(children := ChildList(Kids(p)[..i] + Kids(p)[i + 1..]))
  }

  /**
   * Removing the node n that carries `id` drops n from the roots, when n is
   * the `i`-th root, or replaces n's parent, when there is one, by itself
   * without its `i`-th child, which is n.
   */
  ghost predicate RemovedAs(items: seq<Node>, id: string, n: Node, parent: Option<Node>, i: nat)
  {
    && (parent.None? ==> i < |items| && items[i] == n && RemoveById(items, id) == items[..i] + items[i + 1..])
    && (parent.Some? ==>
          && Lookup(items, parent.value.id) == parent && i < |Kids(parent.value)| && Kids(parent.value)[i] == n
          && RemoveById(items, id) == App.UpdateRecursive(items, WithoutChild(parent.value, i)))
  }

  /**
   * With unique ids, removing the node n that carries `id` either drops n
   * from the roots, when n is the `i`-th root, or replaces n's parent p,
   * wherever p sits, by p without its `i`-th child, which is n. So every
   * other node keeps its place and its nesting.
   */
  lemma {:induction false} RemoveByIdIsUpdate(items: seq<Node>, id: string) returns (parent: Option<Node>, i: nat)
    requires UniqueIds(items) && Lookup(items, id).Some?
    ensures RemovedAs(items, id, Lookup(items, id).value, parent, i)
    decreases SeqSize(items)
  {
    App.SplicedParts(items, id);
    if items[0].id == id {
      parent, i := RemovedFirst(items, id);
    } else if Lookup(Kids(items[0]), id).Some? {
      var p', i' := RemoveByIdIsUpdate(Kids(items[0]), id);
      parent, i := RemovedInFirst(items, id, p', i');
    } else {
      var p', i' := RemoveByIdIsUpdate(items[1..], id);
      parent, i := RemovedAfterFirst(items, id, p', i');
    }
  }

  lemma {:induction false} RemovedFirst(items: seq<Node>, id: string) returns (parent: Option<Node>, i: nat)
    requires UniqueIds(items) && items != [] && items[0].id == id && Lookup(items, id).Some?
    ensures parent == None && i == 0 && RemovedAs(items, id, Lookup(items, id).value, parent, i)
  {
    parent, i := None, 0;
    LookupCons(items, id);
    RemovedHere(items, id);
  }

  lemma {:induction false} RemovedInFirst(items: seq<Node>, id: string, p': Option<Node>, i': nat)
    returns (parent: Option<Node>, i: nat)
    requires UniqueIds(items) && items != [] && items[0].id != id
    requires Lookup(Kids(items[0]), id).Some? && Lookup(items, id).Some?
    requires RemovedAs(Kids(items[0]), id, Lookup(Kids(items[0]), id).value, p', i')
    ensures RemovedAs(items, id, Lookup(items, id).value, parent, i)
  {
    LookupCons(items, id);
    UniqueCons(items);
    if p'.None? {
      parent, i := Some(items[0]), i';
      LookupCons(items, items[0].id);
      RemovedChild(items, id, i');
    } else {
      parent, i := p', i';
      RemovedBelow(items, id, p'.value, i');
    }
  }

  lemma {:induction false} RemovedAfterFirst(items: seq<Node>, id: string, p': Option<Node>, i': nat)
    returns (parent: Option<Node>, i: nat)
    requires UniqueIds(items) && items != [] && items[0].id != id
    requires Lookup(Kids(items[0]), id).None? && Lookup(items[1..], id).Some? && Lookup(items, id).Some?
    requires RemovedAs(items[1..], id, Lookup(items[1..], id).value, p', i')
    ensures RemovedAs(items, id, Lookup(items, id).value, parent, i)
  {
    LookupCons(items, id);
    if p'.None? {
      parent, i := None, i' + 1;
      RemovedRootLater(items, id, i');
    } else {
      parent, i := p', i';
      RemovedLater(items, id, p'.value, i');
    }
  }

  lemma {:induction false} RemovedHere(items: seq<Node>, id: string)
    requires UniqueIds(items) && items != [] && items[0].id == id
    ensures RemoveById(items, id) == items[..0] + items[1..]
  {
    UniqueCons(items);
    RemoveByIdCons(items, id);
    RemoveByIdAbsent(items[1..], id);
    assert items[..0] + items[1..] == items[1..];
  }

  lemma {:induction false} RemovedChild(items: seq<Node>, id: string, i: nat)
    requires UniqueIds(items) && items != [] && items[0].id != id && id in Ids(Kids(items[0]))
    requires i < |Kids(items[0])| && RemoveById(Kids(items[0]), id) == Kids(items[0])[..i] + Kids(items[0])[i + 1..]
    ensures RemoveById(items, id) == App.UpdateRecursive(items, WithoutChild(items[0], i))
  {
    var el := items[0];
    var u := WithoutChild(el, i);
    var a, b := RemoveById(items, id), App.UpdateRecursive(items, u);
    UniqueCons(items);
    assert id in multiset(Ids(Kids(el)));
    RemoveByIdCons(items, id);
    RemoveByIdAbsent(items[1..], id);
    App.UpdateRecursiveCons(items, u);
    App.UpdateRecursiveAbsent(items[1..], u);
    SameNode(a[0], b[0]);
    assert a == [a[0]] + a[1..] && b == [b[0]] + b[1..];
  }

  lemma {:induction false} RemovedBelow(items: seq<Node>, id: string, p: Node, i: nat)
    requires UniqueIds(items) && items != [] && items[0].id != id && id in Ids(Kids(items[0]))
    requires Lookup(Kids(items[0]), p.id) == Some(p) && i < |Kids(p)|
    requires RemoveById(Kids(items[0]), id) == App.UpdateRecursive(Kids(items[0]), WithoutChild(p, i))
    ensures Lookup(items, p.id) == Some(p)
    ensures RemoveById(items, id) == App.UpdateRecursive(items, WithoutChild(p, i))
  {
    var el := items[0];
    var u := WithoutChild(p, i);
    var a, b := RemoveById(items, id), App.UpdateRecursive(items, u);
    UniqueCons(items);
    assert id in multiset(Ids(Kids(el)));
    assert p.id in multiset(Ids(Kids(el)));
    LookupCons(items, p.id);
    RemoveByIdCons(items, id);
    RemoveByIdAbsent(items[1..], id);
    App.UpdateRecursiveCons(items, u);
    App.UpdateRecursiveAbsent(items[1..], u);
    SameNode(a[0], b[0]);
    assert a == [a[0]] + a[1..] && b == [b[0]] + b[1..];
  }

  lemma {:induction false} RemovedRootLater(items: seq<Node>, id: string, i: nat)
    requires items != [] && items[0].id != id && id !in Ids(Kids(items[0]))
    requires i < |items[1..]| && RemoveById(items[1..], id) == items[1..][..i] + items[1..][i + 1..]
    ensures RemoveById(items, id) == items[..i + 1] + items[i + 2..]
  {
    var el := items[0];
    var a := RemoveById(items, id);
    RemoveByIdCons(items, id);
    RemoveByIdAbsent(Kids(el), id);
    SameNode(a[0], el);
    assert a == [a[0]] + a[1..];
    assert items[..i + 1] == [el] + items[1..][..i];
    assert items[i + 2..] == items[1..][i + 1..];
  }

  lemma {:induction false} RemovedLater(items: seq<Node>, id: string, p: Node, i: nat)
    requires UniqueIds(items) && items != [] && items[0].id != id && id !in Ids(Kids(items[0]))
    requires Lookup(items[1..], p.id) == Some(p) && i < |Kids(p)|
    requires RemoveById(items[1..], id) == App.UpdateRecursive(items[1..], WithoutChild(p, i))
    ensures Lookup(items, p.id) == Some(p)
    ensures RemoveById(items, id) == App.UpdateRecursive(items, WithoutChild(p, i))
  {
    var el := items[0];
    var u := WithoutChild(p, i);
    var a, b := RemoveById(items, id), App.UpdateRecursive(items, u);
    UniqueCons(items);
    assert p.id in multiset(Ids(items[1..]));
    LookupCons(items, p.id);
    RemoveByIdCons(items, id);
    RemoveByIdAbsent(Kids(el), id);
    App.UpdateRecursiveCons(items, u);
    App.UpdateRecursiveAbsent(Kids(el), u);
    SameNode(a[0], el);
    SameNode(b[0], el);
    assert a == [a[0]] + a[1..] && b == [b[0]] + b[1..];
  }

  /**
   * The preorder tags `g` of a document and `w` of the document after a
   * removal: the stretch of the root n that starts at position k is gone,
   * and every tag before and after it stays.
   */
  ghost predicate RootCut(items: seq<Node>, n: Node, k: nat, w: seq<Tag>)
  {
    var g := Tags(items);
    && k + Count([n]) <= Count(items) && Preorder(items)[k] == n
    && g == g[..k] + Tags([n]) + g[k + Count([n])..]
    && w == g[..k] + g[k + Count([n])..]
  }

  /**
   * As `RootCut`, for a node n that is the `i`-th child of p, whose stretch
   * starts at position k: n's stretch is gone, p's child count drops by one,
   * and every other tag stays.
   */
  ghost predicate ChildCut(items: seq<Node>, p: Node, i: nat, n: Node, k: nat, w: seq<Tag>)
  {
    var g := Tags(items);
    && k + Count([p]) <= Count(items) && Preorder(items)[k] == p && i < |Kids(p)| && Kids(p)[i] == n
    && g == g[..k] + [TagOf(p)] + Tags(Kids(p)[..i]) + Tags([n]) + Tags(Kids(p)[i + 1..]) + g[k + Count([p])..]
    && w == g[..k] + [TagOf(p).(arity := |Kids(p)| - 1)] + Tags(Kids(p)[..i]) + Tags(Kids(p)[i + 1..]) + g[k + Count([p])..]
  }

  /**
   * With unique ids, the removal changes the preorder tags of the whole
   * document only where the removed node n was: n's subtree leaves, and the
   * child count of n's parent p, if n has one, drops by one. Every other tag,
   * before and after, stays where it was, so (by `TagsDetermine`) every other
   * node keeps its parent and its place among its siblings.
   */
  lemma {:induction false} RemoveByIdSplices(items: seq<Node>, id: string) returns (parent: Option<Node>, i: nat, k: nat)
    requires UniqueIds(items) && Lookup(items, id).Some?
    ensures parent.None? ==> RootCut(items, Lookup(items, id).value, k, Tags(RemoveById(items, id)))
    ensures parent.Some? ==> ChildCut(items, parent.value, i, Lookup(items, id).value, k, Tags(RemoveById(items, id)))
  {
    var n := Lookup(items, id).value;
    parent, i := RemoveByIdIsUpdate(items, id);
    assert RemovedAs(items, id, n, parent, i);
    if parent.None? {
      k := RootRemoved(items, i, id, n);
    } else {
      k := ChildRemoved(items, parent.value, i, id, n);
    }
  }

  lemma {:induction false} RootRemoved(items: seq<Node>, i: nat, id: string, n: Node) returns (k: nat)
    requires i < |items| && items[i] == n && RemoveById(items, id) == items[..i] + items[i + 1..]
    ensures RootCut(items, n, k, Tags(RemoveById(items, id)))
  {
    var l, r := items[..i], items[i + 1..];
    assert items == l + [n] + r;
    PreorderAppend3(l, [n], r, items);
    assert Preorder([n]) == [n] + Preorder(Kids(n)) + Preorder([n][1..]);
    k := Count(l);
    TagsAppend(l + [n], r);
    TagsAppend(l, [n]);
    TagsAppend(l, r);
    Cut(Tags(items), Tags(l), Tags([n]), Tags(r));
  }

  lemma {:induction false} ChildRemoved(items: seq<Node>, p: Node, i: nat, id: string, n: Node) returns (k: nat)
    requires UniqueIds(items) && Lookup(items, p.id) == Some(p) && i < |Kids(p)| && Kids(p)[i] == n
    requires RemoveById(items, id) == App.UpdateRecursive(items, WithoutChild(p, i))
    ensures ChildCut(items, p, i, n, k, Tags(RemoveById(items, id)))
  {
    var u := WithoutChild(p, i);
    assert u.id == p.id;
    k := App.UpdateRecursiveSplices(items, u);
    var g, m, w := Tags(items), Count([p]), Tags(RemoveById(items, id));
    assert App.SplicedAt(items, u, p, k);
    assert g == g[..k] + Tags([p]) + g[k + m..] && w == g[..k] + Tags([u]) + g[k + m..];
    ChildRemovedTags(p, i, n);
    Dropped(g, w, g[..k], g[k + m..], TagOf(p), TagOf(p).(arity := |Kids(p)| - 1),
      Tags(Kids(p)[..i]), Tags([n]), Tags(Kids(p)[i + 1..]));
  }

  /** The tags of p's subtree, and of p's subtree without its `i`-th child n. */
  lemma {:induction false} ChildRemovedTags(p: Node, i: nat, n: Node)
    requires i < |Kids(p)| && Kids(p)[i] == n
    ensures Tags([p]) == [TagOf(p)] + (Tags(Kids(p)[..i]) + Tags([n]) + Tags(Kids(p)[i + 1..]))
    ensures Tags([WithoutChild(p, i)]) == [TagOf(p).(arity := |Kids(p)| - 1)] + (Tags(Kids(p)[..i]) + Tags(Kids(p)[i + 1..]))
  {
    var u := WithoutChild(p, i);
    var l, r := Kids(p)[..i], Kids(p)[i + 1..];
    App.OneTags(p);
    App.OneTags(u);
    assert Kids(p) == l + [n] + r;
    TagsAppend(l + [n], r);
    TagsAppend(l, [n]);
    TagsAppend(l, r);
  }

  lemma {:induction false} Cut<T>(g: seq<T>, p: seq<T>, o: seq<T>, q: seq<T>)
    requires g == p + o + q
    ensures g[..|p|] == p && g[|p| + |o|..] == q
  {
  }

  lemma {:induction false} Dropped<T>(g: seq<T>, w: seq<T>, h: seq<T>, t: seq<T>, x: T, y: T, a: seq<T>, o: seq<T>, b: seq<T>)
    requires g == h + ([x] + (a + o + b)) + t && w == h + ([y] + (a + b)) + t
    ensures g == h + [x] + a + o + b + t && w == h + [y] + a + b + t
  {
  }

  // ---------------------------------------------------------------------
  // insertElementInto

  /** Appends `element` to the children of every outermost "div" whose id is `targetId`. */
  function InsertElementInto(items: seq<Node>, targetId: string, element: Node): (r: seq<Node>)
    ensures |r| == |items|
    decreases SeqSize(items)
  {
    if items == [] then []
    else
      var el := items[0];
      var el' :=
        if el.id == targetId && el.kind == Div then el.(children := ChildList(Kids(el) + [element]))
        else if el.children.ChildList? then el.(children := ChildList(InsertElementInto(Kids(el), targetId, element)))
        else el;
      [el'] + InsertElementInto(items[1..], targetId, element)
  }

  /** The canvas's insertion and the App component's `addToParent` are the same operation. */
  lemma {:induction false} InsertElementIntoIsAddToParent(items: seq<Node>, targetId: string, element: Node)
    ensures InsertElementInto(items, targetId, element) == App.AddToParent(items, targetId, element)
    decreases SeqSize(items)
  {
    if items != [] {
      InsertElementIntoIsAddToParent(Kids(items[0]), targetId, element);
      InsertElementIntoIsAddToParent(items[1..], targetId, element);
    }
  }

  // ---------------------------------------------------------------------
  // handleTextChange / updateText

  /**
   * Sets `props.text` on every outermost node carrying `id`; the other nodes are
   * copied, a node without children getting an explicitly undefined
   * `children`, which is the same as having none.
   */
  function UpdateText(items: seq<Node>, id: string, newText: string): (r: seq<Node>)
    ensures |r| == |items|
    decreases SeqSize(items)
  {
    if items == [] then []
    else
      var el := items[0];
      var el' :=
        if el.id == id then el.(props := el.props["text" := Str(newText)])
        else el.(children := if el.children.ChildList? then ChildList(UpdateText(Kids(el), id, newText)) else NoChildren);
      [el'] + UpdateText(items[1..], id, newText)
  }

  /** A text change for an id no node carries changes nothing. */
  lemma {:induction false} UpdateTextAbsent(items: seq<Node>, id: string, newText: string)
    requires id !in Ids(items)
    ensures UpdateText(items, id, newText) == items
    decreases SeqSize(items)
  {
    if items != [] {
      IdsCons(items);
      UpdateTextAbsent(Kids(items[0]), id, newText);
      UpdateTextAbsent(items[1..], id, newText);
    }
  }

  /**
   * With unique ids, editing the text in place on the canvas gives the same
   * document as the settings panel's text field: `handleChange("text", ...)`
   * on the node, handed to `updateElement`.
   */
  lemma {:induction false} UpdateTextIsPanelEdit(items: seq<Node>, id: string, newText: string)
    requires UniqueIds(items) && Lookup(items, id).Some?
    ensures UpdateText(items, id, newText) ==
      App.UpdateRecursive(items, SettingsPanel.HandleChange(Lookup(items, id).value, "text", Str(newText)))
    decreases SeqSize(items)
  {
    assert items != [];
    var el := items[0];
    var u := SettingsPanel.HandleChange(Lookup(items, id).value, "text", Str(newText));
    LookupCons(items, id);
    UniqueCons(items);
    App.UpdateRecursiveCons(items, u);
    if el.id == id {
      UpdateTextAbsent(items[1..], id, newText);
      App.UpdateRecursiveAbsent(items[1..], u);
    } else if Lookup(Kids(el), id).Some? {
      assert id in multiset(Ids(Kids(el)));
      UpdateTextIsPanelEdit(Kids(el), id, newText);
      UpdateTextAbsent(items[1..], id, newText);
      App.UpdateRecursiveAbsent(items[1..], u);
    } else {
      UpdateTextAbsent(Kids(el), id, newText);
      App.UpdateRecursiveAbsent(Kids(el), u);
      UpdateTextIsPanelEdit(items[1..], id, newText);
      if el.children.NoChildren? {
        assert Kids(el) == [];
      }
    }
  }

  /**
   * A text change touches `props.text` of the edited node and nothing else in
   * the document, and keeps the document well-formed.
   */
  lemma {:induction false} UpdateTextChangesOnlyText(items: seq<Node>, id: string, newText: string)
    requires WellFormed(items)
    ensures WellFormed(UpdateText(items, id, newText))
    ensures Lookup(items, id).Some? ==>
      var n := Lookup(items, id).value;
      Tags(UpdateText(items, id, newText)) == Retag(Tags(items), id, TagOf(n).(props := n.props["text" := Str(newText)]))
    ensures Lookup(items, id).None? ==> UpdateText(items, id, newText) == items
  {
    if Lookup(items, id).Some? {
      var n := Lookup(items, id).value;
      UpdateTextIsPanelEdit(items, id, newText);
      LookupInPreorder(items, id);
      LookupUnique(items, n);
      App.PanelEditChangesOnlyThatField(items, n, "text", Str(newText));
    } else {
      UpdateTextAbsent(items, id, newText);
    }
  }

  // ---------------------------------------------------------------------
  // handleReorder

  /** `items.findIndex(el => el.id === id)`: the first root position carrying `id`, or -1. */
  function IndexOf(items: seq<Node>, id: string): (r: int)
    ensures -1 <= r < |items|
    ensures r == -1 <==> forall k :: 0 <= k < |items| ==> items[k].id != id
    ensures r >= 0 ==> items[r].id == id && forall k :: 0 <= k < r ==> items[k].id != id
  {
    if items == [] then -1
    else if items[0].id == id then 0
    else
      var k := IndexOf(items[1..], id);
      assert forall j :: 1 <= j < |items| ==> items[j] == items[1..][j - 1];
      if k == -1 then -1 else k + 1
  }

  /**
   * `reorderInArray(items)`: the item carrying `activeId` is moved to the
   * position of the item carrying `overId`. When `activeId` is missing,
   * findIndex's -1 makes the move take the last item instead.
   */
  function ReorderInArray(items: seq<Node>, activeId: string, overId: string): (r: seq<Node>)
    requires |items| > 0
    ensures |r| == |items| && multiset(r) == multiset(items)
    ensures IndexOf(items, activeId) >= 0 && IndexOf(items, overId) >= 0 ==>
      r[IndexOf(items, overId)] == items[IndexOf(items, activeId)]
    ensures IndexOf(items, activeId) == -1 ==>
      r[MovedTo(|items|, IndexOf(items, overId))] == items[|items| - 1]
  {
    ArrayMove(items, IndexOf(items, activeId), IndexOf(items, overId))
  }

  /**
   * Every node carrying the parent id has a non-empty children array: the
   * source reorders `el.children || []`, and `arrayMove` on an empty array
   * yields `[undefined]`, which is not a document.
   */
  ghost predicate ParentsHaveChildren(items: seq<Node>, parentId: string)
  {
    forall n :: n in Preorder(items) && n.id == parentId ==> Kids(n) != []
  }

  /** `updateInTree(items)`: reorders the children of every outermost node carrying `parentId`. */
  function UpdateInTree(items: seq<Node>, parentId: string, activeId: string, overId: string): (r: seq<Node>)
    requires ParentsHaveChildren(items, parentId)
    ensures |r| == |items|
    decreases SeqSize(items)
  {
    if items == [] then []
    else
      var el := items[0];
      var el' :=
        if el.id == parentId then el.(children := ChildList(ReorderInArray(Kids(el), activeId, overId)))
        else el.(children := if el.children.ChildList? then ChildList(UpdateInTree(Kids(el), parentId, activeId, overId)) else NoChildren);
      [el'] + UpdateInTree(items[1..], parentId, activeId, overId)
  }

  lemma {:induction false} UpdateInTreeCons(items: seq<Node>, parentId: string, activeId: string, overId: string)
    requires items != [] && ParentsHaveChildren(items, parentId)
    ensures var r := UpdateInTree(items, parentId, activeId, overId);
      && r != [] && r[1..] == UpdateInTree(items[1..], parentId, activeId, overId)
      && TagOf(r[0]) == TagOf(items[0])
      && Kids(r[0]) == if items[0].id == parentId then ReorderInArray(Kids(items[0]), activeId, overId)
                       else UpdateInTree(Kids(items[0]), parentId, activeId, overId)
  {
    var el := items[0];
    assert el in Preorder(items);
    if el.id != parentId && el.children.NoChildren? {
      assert Kids(el) == [];
    }
  }

  /** Without a node carrying the parent id, the document is left as it is. */
  lemma {:induction false} UpdateInTreeAbsent(items: seq<Node>, parentId: string, activeId: string, overId: string)
    requires parentId !in Ids(items)
    ensures ParentsHaveChildren(items, parentId)
    ensures UpdateInTree(items, parentId, activeId, overId) == items
    decreases SeqSize(items)
  {
    forall n | n in Preorder(items) && n.id == parentId ensures false {
      IdInIds(items, n);
    }
    if items != [] {
      IdsCons(items);
      UpdateInTreeAbsent(Kids(items[0]), parentId, activeId, overId);
      UpdateInTreeAbsent(items[1..], parentId, activeId, overId);
    }
  }

  /** The node carrying the parent id now has its children reordered. */
  lemma {:induction false} UpdateInTreeReorders(items: seq<Node>, parentId: string, activeId: string, overId: string)
    requires ParentsHaveChildren(items, parentId) && Lookup(items, parentId).Some?
    ensures var n := Lookup(items, parentId).value;
      && Kids(n) != []
      && Lookup(UpdateInTree(items, parentId, activeId, overId), parentId) ==
         Some(n.(children := ChildList(ReorderInArray(Kids(n), activeId, overId))))
    decreases SeqSize(items)
  {
    assert items != [];
    var el := items[0];
    var r := UpdateInTree(items, parentId, activeId, overId);
    LookupCons(items, parentId);
    LookupInPreorder(items, parentId);
    UpdateInTreeCons(items, parentId, activeId, overId);
    LookupCons(r, parentId);
    if el.id != parentId {
      if Lookup(Kids(el), parentId).Some? {
        UpdateInTreeReorders(Kids(el), parentId, activeId, overId);
      } else {
        UpdateInTreeAbsent(Kids(el), parentId, activeId, overId);
        UpdateInTreeReorders(items[1..], parentId, activeId, overId);
      }
    }
  }

  /**
   * The roots stay in place with their id, type and props; a root whose subtree
   * does not hold the parent id is untouched.
   */
  lemma {:induction false} UpdateInTreeKeepsRoots(items: seq<Node>, parentId: string, activeId: string, overId: string)
    requires ParentsHaveChildren(items, parentId)
    ensures var r := UpdateInTree(items, parentId, activeId, overId);
      && |r| == |items|
      && forall i :: 0 <= i < |items| ==>
        && TagOf(r[i]) == TagOf(items[i])
        && (parentId !in Ids([items[i]]) ==> r[i] == items[i])
    decreases |items|
  {
    if items != [] {
      var r := UpdateInTree(items, parentId, activeId, overId);
      UpdateInTreeCons(items, parentId, activeId, overId);
      assert Preorder(items) == [items[0]] + Preorder(Kids(items[0])) + Preorder(items[1..]);
      UpdateInTreeKeepsRoots(items[1..], parentId, activeId, overId);
      if parentId !in Ids([items[0]]) {
        IdsCons([items[0]]);
        UpdateInTreeAbsent(Kids(items[0]), parentId, activeId, overId);
        SameNode(r[0], items[0]);
      }
      forall i | 1 <= i < |items| ensures parentId !in Ids([items[i]]) ==> r[i] == items[i] {
        assert items[i] == items[1..][i - 1];
      }
    }
  }

  /** Reordering siblings keeps every node: the ids of the document are the same multiset. */
  lemma {:induction false} UpdateInTreeKeepsIds(items: seq<Node>, parentId: string, activeId: string, overId: string)
    requires ParentsHaveChildren(items, parentId)
    ensures multiset(Ids(UpdateInTree(items, parentId, activeId, overId))) == multiset(Ids(items))
    decreases SeqSize(items)
  {
    if items != [] {
      var el := items[0];
      var r := UpdateInTree(items, parentId, activeId, overId);
      UpdateInTreeCons(items, parentId, activeId, overId);
      IdsConsMultiset(items);
      IdsConsMultiset(r);
      UpdateInTreeKeepsIds(items[1..], parentId, activeId, overId);
      if el.id == parentId {
        PermutationKeepsNodes(Kids(el), Kids(r[0]));
      } else {
        UpdateInTreeKeepsIds(Kids(el), parentId, activeId, overId);
      }
    }
  }

  /** Reordering siblings keeps exactly the divs having children arrays. */
  lemma {:induction false} UpdateInTreeChildrenOnDivs(items: seq<Node>, parentId: string, activeId: string, overId: string)
    requires ParentsHaveChildren(items, parentId) && ChildrenOnDivs(items)
    ensures ChildrenOnDivs(UpdateInTree(items, parentId, activeId, overId))
    decreases SeqSize(items)
  {
    if items != [] {
      var el := items[0];
      var r := UpdateInTree(items, parentId, activeId, overId);
      UpdateInTreeCons(items, parentId, activeId, overId);
      ChildrenOnDivsCons(items);
      ChildrenOnDivsCons(r);
      UpdateInTreeChildrenOnDivs(items[1..], parentId, activeId, overId);
      if el.id == parentId {
        PermutationKeepsChildrenOnDivs(Kids(el), Kids(r[0]));
      } else {
        UpdateInTreeChildrenOnDivs(Kids(el), parentId, activeId, overId);
      }
    }
  }

  /**
   * With unique ids, reordering in the tree is replacing the node n carrying
   * the parent id, wherever it sits, by itself with its children reordered.
   */
  lemma {:induction false} UpdateInTreeIsUpdate(items: seq<Node>, parentId: string, activeId: string, overId: string)
    requires ParentsHaveChildren(items, parentId) && UniqueIds(items) && Lookup(items, parentId).Some?
    ensures var n := Lookup(items, parentId).value;
      && Kids(n) != []
      && UpdateInTree(items, parentId, activeId, overId) ==
        App.UpdateRecursive(items, n.(children := ChildList(ReorderInArray(Kids(n), activeId, overId))))
    decreases SeqSize(items)
  {
    LookupInPreorder(items, parentId);
    App.SplicedParts(items, parentId);
    LookupCons(items, parentId);
    assert Preorder(items) == [items[0]] + Preorder(Kids(items[0])) + Preorder(items[1..]);
    if items[0].id == parentId {
      ReorderedHere(items, parentId, activeId, overId);
    } else if Lookup(Kids(items[0]), parentId).Some? {
      UpdateInTreeIsUpdate(Kids(items[0]), parentId, activeId, overId);
      ReorderedBelow(items, parentId, activeId, overId);
    } else {
      UpdateInTreeIsUpdate(items[1..], parentId, activeId, overId);
      ReorderedLater(items, parentId, activeId, overId);
    }
  }

  lemma {:induction false} ReorderedHere(items: seq<Node>, parentId: string, activeId: string, overId: string)
    requires ParentsHaveChildren(items, parentId) && UniqueIds(items) && items != [] && items[0].id == parentId
    ensures Kids(items[0]) != []
    ensures UpdateInTree(items, parentId, activeId, overId) ==
      App.UpdateRecursive(items, items[0].(children := ChildList(ReorderInArray(Kids(items[0]), activeId, overId))))
  {
    assert items[0] in Preorder(items);
    var u := items[0].(children := ChildList(ReorderInArray(Kids(items[0]), activeId, overId)));
    var a, b := UpdateInTree(items, parentId, activeId, overId), App.UpdateRecursive(items, u);
    UniqueCons(items);
    UpdateInTreeCons(items, parentId, activeId, overId);
    App.UpdateRecursiveCons(items, u);
    UpdateInTreeAbsent(items[1..], parentId, activeId, overId);
    App.UpdateRecursiveAbsent(items[1..], u);
    SameNode(a[0], b[0]);
    assert a == [a[0]] + a[1..] && b == [b[0]] + b[1..];
  }

  lemma {:induction false} ReorderedBelow(items: seq<Node>, parentId: string, activeId: string, overId: string)
    requires ParentsHaveChildren(items, parentId) && UniqueIds(items) && items != [] && items[0].id != parentId
    requires Lookup(Kids(items[0]), parentId).Some?
    requires ParentsHaveChildren(Kids(items[0]), parentId)
    requires var n := Lookup(Kids(items[0]), parentId).value;
      && Kids(n) != []
      && UpdateInTree(Kids(items[0]), parentId, activeId, overId) ==
        App.UpdateRecursive(Kids(items[0]), n.(children := ChildList(ReorderInArray(Kids(n), activeId, overId))))
    ensures var n := Lookup(Kids(items[0]), parentId).value;
      UpdateInTree(items, parentId, activeId, overId) ==
        App.UpdateRecursive(items, n.(children := ChildList(ReorderInArray(Kids(n), activeId, overId))))
  {
    var n := Lookup(Kids(items[0]), parentId).value;
    var u := n.(children := ChildList(ReorderInArray(Kids(n), activeId, overId)));
    var a, b := UpdateInTree(items, parentId, activeId, overId), App.UpdateRecursive(items, u);
    UniqueCons(items);
    assert parentId in multiset(Ids(Kids(items[0])));
    UpdateInTreeCons(items, parentId, activeId, overId);
    App.UpdateRecursiveCons(items, u);
    UpdateInTreeAbsent(items[1..], parentId, activeId, overId);
    App.UpdateRecursiveAbsent(items[1..], u);
    SameNode(a[0], b[0]);
    assert a == [a[0]] + a[1..] && b == [b[0]] + b[1..];
  }

  lemma {:induction false} ReorderedLater(items: seq<Node>, parentId: string, activeId: string, overId: string)
    requires ParentsHaveChildren(items, parentId) && items != [] && items[0].id != parentId
    requires Lookup(Kids(items[0]), parentId).None? && Lookup(items[1..], parentId).Some?
    requires ParentsHaveChildren(items[1..], parentId)
    requires var n := Lookup(items[1..], parentId).value;
      && Kids(n) != []
      && UpdateInTree(items[1..], parentId, activeId, overId) ==
        App.UpdateRecursive(items[1..], n.(children := ChildList(ReorderInArray(Kids(n), activeId, overId))))
    ensures var n := Lookup(items[1..], parentId).value;
      UpdateInTree(items, parentId, activeId, overId) ==
        App.UpdateRecursive(items, n.(children := ChildList(ReorderInArray(Kids(n), activeId, overId))))
  {
    var n := Lookup(items[1..], parentId).value;
    var u := n.(children := ChildList(ReorderInArray(Kids(n), activeId, overId)));
    var a, b := UpdateInTree(items, parentId, activeId, overId), App.UpdateRecursive(items, u);
    UpdateInTreeCons(items, parentId, activeId, overId);
    App.UpdateRecursiveCons(items, u);
    UpdateInTreeAbsent(Kids(items[0]), parentId, activeId, overId);
    App.UpdateRecursiveAbsent(Kids(items[0]), u);
    SameNode(a[0], b[0]);
    assert a == [a[0]] + a[1..] && b == [b[0]] + b[1..];
  }

  /**
   * With unique ids, reordering the children of the node n carrying the parent
   * id changes the preorder tags of the whole document only within n's
   * subtree, where n keeps its tag and its children's subtrees come in the new
   * order. Every tag before n and after its subtree stays.
   */
  lemma {:induction false} UpdateInTreeSplices(items: seq<Node>, parentId: string, activeId: string, overId: string)
    returns (k: nat)
    requires ParentsHaveChildren(items, parentId) && UniqueIds(items) && Lookup(items, parentId).Some?
    ensures var n := Lookup(items, parentId).value;
      && Kids(n) != []
      && k + Count([n]) <= Count(items) && Preorder(items)[k] == n
      && Tags(items) == Tags(items)[..k] + [TagOf(n)] + Tags(Kids(n)) + Tags(items)[k + Count([n])..]
      && Tags(UpdateInTree(items, parentId, activeId, overId)) ==
        Tags(items)[..k] + [TagOf(n)] + Tags(ReorderInArray(Kids(n), activeId, overId)) + Tags(items)[k + Count([n])..]
  {
    var n := Lookup(items, parentId).value;
    UpdateInTreeIsUpdate(items, parentId, activeId, overId);
    var u := n.(children := ChildList(ReorderInArray(Kids(n), activeId, overId)));
    k := App.UpdateRecursiveSplices(items, u);
    assert App.SplicedAt(items, u, n, k);
    App.OneTags(n);
    App.OneTags(u);
    assert TagOf(u) == TagOf(n);
    var g, m := Tags(items), Count([n]);
    Around(g, g[..k], TagOf(n), Tags(Kids(n)), g[k + m..]);
    Around(Tags(App.UpdateRecursive(items, u)), g[..k], TagOf(n), Tags(Kids(u)), g[k + m..]);
  }

  lemma {:induction false} Around<T>(w: seq<T>, p: seq<T>, x: T, a: seq<T>, q: seq<T>)
    requires w == p + ([x] + a) + q
    ensures w == p + [x] + a + q
  {
  }

  /** `handleReorder`'s new document: in the tree under a truthy parent id, else among the roots. */
  function Reorder(items: seq<Node>, activeId: string, overId: string, parentId: Option<string>): (r: seq<Node>)
    requires Present(parentId) ==> ParentsHaveChildren(items, parentId.value)
    requires !Present(parentId) ==> |items| > 0
    ensures |r| == |items|
    ensures !Present(parentId) ==> multiset(r) == multiset(items)
  {
    if Present(parentId) then UpdateInTree(items, parentId.value, activeId, overId)
    else ReorderInArray(items, activeId, overId)
  }

  /** A reorder keeps every node and keeps the document well-formed. */
  lemma {:induction false} ReorderKeepsDocument(items: seq<Node>, activeId: string, overId: string, parentId: Option<string>)
    requires Present(parentId) ==> ParentsHaveChildren(items, parentId.value)
    requires !Present(parentId) ==> |items| > 0
    ensures multiset(Ids(Reorder(items, activeId, overId, parentId))) == multiset(Ids(items))
    ensures WellFormed(items) ==> WellFormed(Reorder(items, activeId, overId, parentId))
  {
    var r := Reorder(items, activeId, overId, parentId);
    if Present(parentId) {
      UpdateInTreeKeepsIds(items, parentId.value, activeId, overId);
      if WellFormed(items) {
        UpdateInTreeChildrenOnDivs(items, parentId.value, activeId, overId);
      }
    } else {
      PermutationKeepsNodes(items, r);
      PermutationKeepsChildrenOnDivs(items, r);
    }
  }

  // ---------------------------------------------------------------------
  // handleDragEnd

  /** An id that is there and truthy (`active?.id` / `over?.id`). */
  predicate Present(id: Option<string>)
  {
    id.Some? && id.value != ""
  }

  /** The drag names two different present ids and the dragged one is in the document. */
  predicate DragApplies(elements: seq<Node>, active: Option<string>, over: Option<string>)
  {
    Present(active) && Present(over) && active != over && Lookup(elements, active.value).Some?
  }

  /** The drop target, looked up after the dragged node was removed, is a div. */
  predicate OverIsDiv(elements: seq<Node>, activeId: string, overId: string)
  {
    var overEl := Lookup(RemoveById(elements, activeId), overId);
    overEl.Some? && overEl.value.kind == Div
  }

  /**
   * The fallback of `handleDragEnd` calls `arrayMove` on the document left after
   * the removal; on an empty one it would put `undefined` in the root list.
   */
  predicate DragEndDefined(elements: seq<Node>, active: Option<string>, over: Option<string>)
  {
    DragApplies(elements, active, over) && !OverIsDiv(elements, active.value, over.value) ==>
      RemoveById(elements, active.value) != []
  }

  /**
   * `handleDragEnd` as written: the dragged node is removed from the document,
   * then appended to the drop target when that is a div; otherwise the roots
   * of the reduced document are passed to `arrayMove` with the index of the
   * dragged node, which is no longer among them.
   */
  function DragEnd(elements: seq<Node>, active: Option<string>, over: Option<string>): (r: seq<Node>)
    requires DragEndDefined(elements, active, over)
    ensures !DragApplies(elements, active, over) ==> r == elements
    ensures DragApplies(elements, active, over) && !OverIsDiv(elements, active.value, over.value) ==>
      multiset(r) == multiset(RemoveById(elements, active.value))
  {
    if !DragApplies(elements, active, over) then elements
    else
      var activeEl := Lookup(elements, active.value).value;
      var newTree := RemoveById(elements, active.value);
      if OverIsDiv(elements, active.value, over.value) then InsertElementInto(newTree, over.value, activeEl)
      else ReorderInArray(newTree, active.value, over.value)
  }

  /** A drag whose ids are missing or equal, or whose dragged id is unknown, changes nothing. */
  lemma {:induction false} DragEndIgnored(elements: seq<Node>, active: Option<string>, over: Option<string>)
    requires !Present(active) || !Present(over) || active == over || active.value !in Ids(elements)
    ensures DragEndDefined(elements, active, over)
    ensures DragEnd(elements, active, over) == elements
    ensures DragEndFixed(elements, active, over) == elements
  {
  }

  /**
   * With unique ids, the dragged node leaves the document with its whole
   * subtree, the rest is well-formed, and the dragged node is well-formed on
   * its own and shares no id with the rest.
   */
  lemma {:induction false} CutOut(elements: seq<Node>, a: string)
    requires WellFormed(elements) && Lookup(elements, a).Some?
    ensures var n := Lookup(elements, a).value;
      var rest := RemoveById(elements, a);
      && multiset(Ids(rest)) + multiset(Ids([n])) == multiset(Ids(elements))
      && multiset(Ids(rest)) !! multiset(Ids([n]))
      && WellFormed(rest) && WellFormed([n])
      && a !in Ids(rest)
  {
    var n := Lookup(elements, a).value;
    CutOutIds(elements, a);
    RemoveByIdWellFormed(elements, a);
    RemoveByIdGone(elements, a);
    LookupInPreorder(elements, a);
    SubtreeInPreorder(elements, n);
    assert UniqueIds([n]) by {
      forall y ensures multiset(Ids([n]))[y] <= 1 {
        assert multiset(Ids(elements))[y] <= 1;
      }
    }
  }

  /** The ids of the removed subtree and of the rest split the ids of a document with unique ids. */
  lemma {:induction false} CutOutIds(elements: seq<Node>, a: string)
    requires UniqueIds(elements) && Lookup(elements, a).Some?
    ensures var n := Lookup(elements, a).value;
      var rest := RemoveById(elements, a);
      && multiset(Ids(rest)) + multiset(Ids([n])) == multiset(Ids(elements))
      && multiset(Ids(rest)) !! multiset(Ids([n]))
  {
    var n := Lookup(elements, a).value;
    var rest := RemoveById(elements, a);
    RemoveByIdTakesSubtree(elements, a);
    forall y ensures multiset(Ids(rest))[y] + multiset(Ids([n]))[y] <= 1 {
      assert multiset(Ids(elements))[y] <= 1;
    }
    assert multiset(Ids(rest)) !! multiset(Ids([n])) by {
      forall y | y in multiset(Ids(rest)) ensures y !in multiset(Ids([n])) {
        assert multiset(Ids(rest))[y] + multiset(Ids([n]))[y] <= 1;
      }
    }
  }

  /**
   * Dropping onto a div: the dragged node becomes the div's last child, every
   * node is kept exactly once, the document stays well-formed, and the div is
   * not inside the dragged node (no cycle is made).
   */
  lemma {:induction false} DragEndIntoDiv(elements: seq<Node>, active: Option<string>, over: Option<string>)
    requires WellFormed(elements) && DragApplies(elements, active, over)
    requires OverIsDiv(elements, active.value, over.value)
    ensures DragEndDefined(elements, active, over)
    ensures var n := Lookup(elements, active.value).value;
      var d := Lookup(RemoveById(elements, active.value), over.value).value;
      var r := DragEnd(elements, active, over);
      && over.value !in Ids([n])
      && Lookup(r, over.value) == Some(d.(children := ChildList(Kids(d) + [n])))
      && multiset(Ids(r)) == multiset(Ids(elements))
      && WellFormed(r)
  {
    var a, o := active.value, over.value;
    var n := Lookup(elements, a).value;
    var rest := RemoveById(elements, a);
    CutOut(elements, a);
    InsertElementIntoIsAddToParent(rest, o, n);
    LookupDivHasDiv(rest, o);
    HasDivIds(rest, o);
    assert o in multiset(Ids(rest));
    App.AddToParentAppends(rest, o, n);
    App.AddToParentIds(rest, o, n);
    App.AddToParentWellFormed(rest, o, n);
  }

  /**
   * Dropping onto a div, in the whole document: next to the document with the
   * dragged subtree removed, only the div's tag changes (one more child), and
   * the dragged subtree's tags enter right after the div's old subtree. Every
   * tag before the div and after its subtree stays in place.
   */
  lemma {:induction false} DragEndIntoDivSplices(elements: seq<Node>, active: Option<string>, over: Option<string>)
    returns (k: nat)
    requires WellFormed(elements) && DragApplies(elements, active, over)
    requires OverIsDiv(elements, active.value, over.value)
    ensures DragEndDefined(elements, active, over)
    ensures var n := Lookup(elements, active.value).value;
      var rest := RemoveById(elements, active.value);
      var d := Lookup(rest, over.value).value;
      && k + Count([d]) <= Count(rest) && Preorder(rest)[k] == d
      && Tags(rest) == Tags(rest)[..k] + [TagOf(d)] + Tags(Kids(d)) + Tags(rest)[k + Count([d])..]
      && Tags(DragEnd(elements, active, over)) ==
        Tags(rest)[..k] + [Tag(over.value, Div, d.props, true, |Kids(d)| + 1)] + Tags(Kids(d)) + Tags([n])
        + Tags(rest)[k + Count([d])..]
  {
    var a, o := active.value, over.value;
    var n := Lookup(elements, a).value;
    var rest := RemoveById(elements, a);
    CutOut(elements, a);
    assert DragEnd(elements, active, over) == InsertElementInto(rest, o, n);
    InsertElementIntoIsAddToParent(rest, o, n);
    assert UniqueIds(rest) && Lookup(rest, o).Some? && Lookup(rest, o).value.kind == Div;
    k := App.AddToParentSplices(rest, o, n);
  }

  /**
   * Finding: dropping onto anything but a div loses the dragged node. It was
   * removed before the fallback looks for it among the roots, so the index is
   * -1 and `arrayMove` moves the last root instead; the dragged node and its
   * subtree are gone from the document.
   */
  lemma {:induction false} DragEndFallbackLosesActive(elements: seq<Node>, active: Option<string>, over: Option<string>)
    requires WellFormed(elements) && DragApplies(elements, active, over) && DragEndDefined(elements, active, over)
    requires !OverIsDiv(elements, active.value, over.value)
    ensures var r := DragEnd(elements, active, over);
      && active.value !in Ids(r)
      && multiset(Ids(r)) + multiset(Ids([Lookup(elements, active.value).value])) == multiset(Ids(elements))
      && Count(r) < Count(elements)
  {
    var a := active.value;
    var n := Lookup(elements, a).value;
    var rest := RemoveById(elements, a);
    var r := DragEnd(elements, active, over);
    CutOutIds(elements, a);
    PermutationKeepsNodes(rest, r);
    assert a in Ids([n]) by {
      IdsCons([n]);
    }
    LoseOne(Ids(r), Ids(elements), Ids([n]), a);
    TagIds(r);
    TagIds(elements);
  }

  /** Counting: a sum with a part holding `x` is longer than the other part. */
  lemma {:induction false} LoseOne(r: seq<string>, e: seq<string>, p: seq<string>, x: string)
    requires multiset(r) + multiset(p) == multiset(e) && multiset(r) !! multiset(p)
    requires x in p
    ensures x !in r && |r| < |e|
  {
    assert x in multiset(p);
    assert |multiset(r)| + |multiset(p)| == |multiset(e)|;
  }

  /** Three text roots a, b, c: dragging a onto b leaves [c, b]. */
  lemma {:induction false} DragEndLosesExample()
    ensures var a, b, c := App.NewElement("a", Text), App.NewElement("b", Text), App.NewElement("c", Text);
      DragEndDefined([a, b, c], Some("a"), Some("b")) && DragEnd([a, b, c], Some("a"), Some("b")) == [c, b]
  {
    var a, b, c := App.NewElement("a", Text), App.NewElement("b", Text), App.NewElement("c", Text);
    var els := [a, b, c];
    assert Kids(a) == [] && Kids(b) == [] && Kids(c) == [];
    assert els[1..] == [b, c] && els[1..][1..] == [c] && [c][1..] == [];
    assert Preorder([c]) == [c];
    assert Preorder([b, c]) == [b, c];
    assert Preorder(els) == els;
    assert Lookup(els, "a") == Some(a);
    assert RemoveById([c], "a") == [c];
    assert RemoveById([b, c], "a") == [b, c];
    assert RemoveById(els, "a") == [b, c];
    assert Lookup([b, c], "b") == Some(b);
    assert !OverIsDiv(els, "a", "b");
    assert DragApplies(els, Some("a"), Some("b"));
    assert ReorderInArray([b, c], "a", "b") == [c, b] by {
      assert IndexOf([b, c], "a") == -1;
      assert IndexOf([b, c], "b") == 0;
      MoveLastToFront(b, c);
    }
  }

  lemma {:induction false} MoveLastToFront<T>(x: T, y: T)
    ensures ArrayMove([x, y], -1, 0) == [y, x]
  {
    var r := ArrayMove([x, y], -1, 0);
    assert MovedFrom(2, -1) == 1 && MovedTo(2, 0) == 0;
    assert r[0] == y && r[1] == x;
  }


  /**
   * `handleDragEnd` as evidently intended: the fallback moves the dragged root
   * to the drop target's place among the roots of the original document, and
   * leaves the document alone when either is not a root.
   */
  function DragEndFixed(elements: seq<Node>, active: Option<string>, over: Option<string>): (r: seq<Node>)
    ensures !DragApplies(elements, active, over) ==> r == elements
    ensures DragApplies(elements, active, over) && !OverIsDiv(elements, active.value, over.value) ==>
      multiset(r) == multiset(elements)
  {
    if !DragApplies(elements, active, over) then elements
    else
      var activeEl := Lookup(elements, active.value).value;
      var newTree := RemoveById(elements, active.value);
      if OverIsDiv(elements, active.value, over.value) then InsertElementInto(newTree, over.value, activeEl)
      else RootMove(elements, active.value, over.value)
  }

  /**
   * The corrected fallback: moves the root carrying `activeId` to the place of
   * the root carrying `overId`, and changes nothing when either is not a root.
   */
  function RootMove(elements: seq<Node>, activeId: string, overId: string): (r: seq<Node>)
    ensures multiset(r) == multiset(elements) && |r| == |elements|
    ensures IndexOf(elements, activeId) >= 0 && IndexOf(elements, overId) >= 0 ==>
      r[IndexOf(elements, overId)] == elements[IndexOf(elements, activeId)]
    ensures IndexOf(elements, activeId) == -1 || IndexOf(elements, overId) == -1 ==> r == elements
  {
    var from, to := IndexOf(elements, activeId), IndexOf(elements, overId);
    if from >= 0 && to >= 0 then ArrayMove(elements, from, to) else elements
  }

  /** The corrected drag never loses or duplicates a node and keeps the document well-formed. */
  lemma {:induction false} DragEndFixedKeepsDocument(elements: seq<Node>, active: Option<string>, over: Option<string>)
    requires WellFormed(elements)
    ensures multiset(Ids(DragEndFixed(elements, active, over))) == multiset(Ids(elements))
    ensures WellFormed(DragEndFixed(elements, active, over))
  {
    if DragApplies(elements, active, over) {
      if OverIsDiv(elements, active.value, over.value) {
        DragEndIntoDiv(elements, active, over);
      } else {
        var r := DragEndFixed(elements, active, over);
        PermutationKeepsNodes(elements, r);
        PermutationKeepsWellFormed(elements, r);
      }
    }
  }

  /** Three text roots a, b, c: the corrected drag of a onto b gives [b, a, c]. */
  lemma {:induction false} DragEndFixedExample()
    ensures var a, b, c := App.NewElement("a", Text), App.NewElement("b", Text), App.NewElement("c", Text);
      DragEndFixed([a, b, c], Some("a"), Some("b")) == [b, a, c]
  {
    var a, b, c := App.NewElement("a", Text), App.NewElement("b", Text), App.NewElement("c", Text);
    var els := [a, b, c];
    assert Kids(a) == [] && Kids(b) == [] && Kids(c) == [];
    assert els[1..] == [b, c] && els[1..][1..] == [c] && [c][1..] == [];
    assert Preorder([c]) == [c];
    assert Preorder([b, c]) == [b, c];
    assert Preorder(els) == els;
    assert Lookup(els, "a") == Some(a);
    assert RemoveById([c], "a") == [c];
    assert RemoveById([b, c], "a") == [b, c];
    assert RemoveById(els, "a") == [b, c];
    assert Lookup([b, c], "b") == Some(b);
    assert IndexOf(els, "a") == 0;
    assert IndexOf(els, "b") == 1;
    assert !OverIsDiv(els, "a", "b");
    assert DragApplies(els, Some("a"), Some("b"));
    assert RootMove(els, "a", "b") == [b, a, c] by {
      MoveFirstOntoSecond(a, b, c);
    }
  }

  lemma {:induction false} MoveFirstOntoSecond<T>(x: T, y: T, z: T)
    ensures ArrayMove([x, y, z], 0, 1) == [y, x, z]
  {
    var r := ArrayMove([x, y, z], 0, 1);
    assert MovedFrom(3, 0) == 0 && MovedTo(3, 1) == 1;
    assert r[0] == y && r[1] == x && r[2] == z;
  }

  // ---------------------------------------------------------------------
  // The handlers, which replace the App component's document

  /** `handleTextChange(id, newText)`. */
  method HandleTextChange(app: App.AppState, id: string, newText: string)
    modifies app`elements
    ensures app.elements == UpdateText(old(app.elements), id, newText)
    ensures old(app.Valid()) ==> app.Valid()
  {
    if app.Valid() {
      UpdateTextChangesOnlyText(app.elements, id, newText);
    }
    app.elements := UpdateText(app.elements, id, newText);
  }

  /** `handleReorder(activeId, overId, parentId)`. */
  method HandleReorder(app: App.AppState, activeId: string, overId: string, parentId: Option<string>)
    requires Present(parentId) ==> ParentsHaveChildren(app.elements, parentId.value)
    requires !Present(parentId) ==> |app.elements| > 0
    modifies app`elements
    ensures app.elements == Reorder(old(app.elements), activeId, overId, parentId)
    ensures multiset(Ids(app.elements)) == multiset(Ids(old(app.elements)))
    ensures old(app.Valid()) ==> app.Valid()
  {
    ReorderKeepsDocument(app.elements, activeId, overId, parentId);
    app.elements := Reorder(app.elements, activeId, overId, parentId);
  }

  /** `handleDragEnd({active, over})`, with the corrected fallback. */
  method HandleDragEnd(app: App.AppState, active: Option<string>, over: Option<string>)
    modifies app`elements
    ensures app.elements == DragEndFixed(old(app.elements), active, over)
    ensures old(app.Valid()) ==> app.Valid() && multiset(Ids(app.elements)) == multiset(Ids(old(app.elements)))
  {
    if app.Valid() {
      DragEndFixedKeepsDocument(app.elements, active, over);
    }
    if !Present(active) || !Present(over) || active == over {
      return;
    }
    var activeEl := FindElementById(app.elements, active.value);
    if activeEl.None? {
      return;
    }
    var newTree := RemoveById(app.elements, active.value);
    var overEl := FindElementById(newTree, over.value);
    if overEl.Some? && overEl.value.kind == Div {
      newTree := InsertElementInto(newTree, over.value, activeEl.value);
    } else {
      var from, to := IndexOf(app.elements, active.value), IndexOf(app.elements, over.value);
      newTree := if from >= 0 && to >= 0 then ArrayMove(app.elements, from, to) else app.elements;
    }
    app.elements := newTree;
  }
}
