/**
 * The page builder's top-level state: the document (`elements`) and the
 * selected element id (`selectedId`), with the operations that add an element,
 * replace an element, and look one up.
 */
module App {
  import opened Elements
  import SettingsPanel

  /** The default `props.text` of a new element of each type. */
  function DefaultText(kind: Kind): string
  {
    if kind == Text then "טקסט חדש" else if kind == Button then "כפתור" else ""
  }

  /** The element `addElement` builds; `id` stands for the generated id. */
  function NewElement(id: string, kind: Kind): (r: Node)
    ensures r.id == id && r.kind == kind && Kids(r) == []
    ensures r.children.ChildList? <==> kind == Div
  {
    Node(id, kind,
      map["text" := Str(DefaultText(kind)), "backgroundColor" := Str("#ffffff"), "fontFamily" := Str("inherit")],
      if kind == Div then ChildList([]) else NoChildren)
  }

  /** The defaults of a new element: three props, and an empty children array exactly for a div. */
  lemma {:induction false} NewElementDefaults(id: string, kind: Kind)
    ensures var e := NewElement(id, kind);
      && e.id == id && e.kind == kind
      && e.props.Keys == {"text", "backgroundColor", "fontFamily"}
      && e.props["text"] == Str(if kind == Text then "טקסט חדש" else if kind == Button then "כפתור" else "")
      && e.props["backgroundColor"] == Str("#ffffff")
      && e.props["fontFamily"] == Str("inherit")
      && (e.children == ChildList([]) <==> kind == Div)
      && (kind != Div ==> e.children == NoChildren)
  {
  }

  /** A new element is a one-node well-formed document. */
  lemma {:induction false} NewElementWellFormed(id: string, kind: Kind)
    ensures Preorder([NewElement(id, kind)]) == [NewElement(id, kind)]
    ensures Ids([NewElement(id, kind)]) == [id]
    ensures Count([NewElement(id, kind)]) == 1
    ensures WellFormed([NewElement(id, kind)])
  {
    var e := NewElement(id, kind);
    assert Kids(e) == [];
    assert [e][1..] == [];
    assert Preorder([e]) == [e];
  }

  // ---------------------------------------------------------------------
  // addToParent

  /** Appends `newEl` to the children of every outermost "div" whose id is `parentId`. */
  function AddToParent(list: seq<Node>, parentId: string, newEl: Node): (r: seq<Node>)
    ensures |r| == |list|
    decreases SeqSize(list)
  {
    if list == [] then []
    else
      var el := list[0];
      var el' :=
        if el.id == parentId && el.kind == Div then el.(children := ChildList(Kids(el) + [newEl]))
        else if el.children.ChildList? then el.(children := ChildList(AddToParent(Kids(el), parentId, newEl)))
        else el;
      [el'] + AddToParent(list[1..], parentId, newEl)
  }

  /** Without a "div" carrying the parent id, the document is left as it is. */
  lemma {:induction false} AddToParentNoTarget(list: seq<Node>, parentId: string, newEl: Node)
    requires !HasDiv(list, parentId)
    ensures AddToParent(list, parentId, newEl) == list
    decreases SeqSize(list)
  {
    if list != [] {
      HasDivCons(list, parentId);
      AddToParentNoTarget(Kids(list[0]), parentId, newEl);
      AddToParentNoTarget(list[1..], parentId, newEl);
    }
  }

  /** Unfolds AddToParent at the first root. */
  lemma {:induction false} AddToParentCons(list: seq<Node>, parentId: string, newEl: Node)
    requires list != []
    ensures var r := AddToParent(list, parentId, newEl);
      && r != [] && r[1..] == AddToParent(list[1..], parentId, newEl)
      && r[0].id == list[0].id && r[0].kind == list[0].kind && r[0].props == list[0].props
      && r[0].children.ChildList? == (list[0].children.ChildList? || (list[0].id == parentId && list[0].kind == Div))
      && Kids(r[0]) == if list[0].id == parentId && list[0].kind == Div then Kids(list[0]) + [newEl]
                       else AddToParent(Kids(list[0]), parentId, newEl)
  {
    var el := list[0];
    if !(el.id == parentId && el.kind == Div) && el.children.NoChildren? {
      assert Kids(el) == [];
    }
  }

  /**
   * When the first node carrying the parent id is a "div", the node carrying
   * that id in the result is that div with `newEl` appended as its last child.
   */
  lemma {:induction false} AddToParentAppends(list: seq<Node>, parentId: string, newEl: Node)
    requires Lookup(list, parentId).Some? && Lookup(list, parentId).value.kind == Div
    ensures var n := Lookup(list, parentId).value;
      Lookup(AddToParent(list, parentId, newEl), parentId) == Some(n.(children := ChildList(Kids(n) + [newEl])))
    decreases SeqSize(list)
  {
    var r := AddToParent(list, parentId, newEl);
    var el := list[0];
    LookupCons(list, parentId);
    AddToParentCons(list, parentId, newEl);
    LookupCons(r, parentId);
    if el.id == parentId {
    } else if Lookup(Kids(el), parentId).Some? {
      AddToParentAppends(Kids(el), parentId, newEl);
    } else {
      LookupNoneNoDiv(Kids(el), parentId);
      AddToParentNoTarget(Kids(el), parentId, newEl);
      AddToParentAppends(list[1..], parentId, newEl);
    }
  }

  lemma {:induction false} LookupNoneNoDiv(items: seq<Node>, id: string)
    requires Lookup(items, id).None?
    ensures !HasDiv(items, id)
  {
    if HasDiv(items, id) {
      HasDivIds(items, id);
    }
  }

  /** Every root keeps its id, type and props; a root without the target div in its subtree is untouched. */
  lemma {:induction false} AddToParentKeepsRoots(list: seq<Node>, parentId: string, newEl: Node)
    ensures var r := AddToParent(list, parentId, newEl);
      && |r| == |list|
      && forall i :: 0 <= i < |list| ==>
        && r[i].id == list[i].id && r[i].kind == list[i].kind && r[i].props == list[i].props
        && (!HasDiv([list[i]], parentId) ==> r[i] == list[i])
    decreases |list|
  {
    if list != [] {
      var r := AddToParent(list, parentId, newEl);
      AddToParentCons(list, parentId, newEl);
      AddToParentKeepsRoots(list[1..], parentId, newEl);
      if !HasDiv([list[0]], parentId) {
        HasDivCons([list[0]], parentId);
        AddToParentNoTarget(Kids(list[0]), parentId, newEl);
        AddToParentNoTarget([list[0]], parentId, newEl);
        assert [list[0]][1..] == [];
      }
      forall i | 1 <= i < |list| ensures !HasDiv([list[i]], parentId) ==> r[i] == list[i] {
        assert list[i] == list[1..][i - 1];
      }
    }
  }

  /** With unique ids, the new subtree's ids are added exactly once when the target div exists. */
  lemma {:induction false} AddToParentIds(list: seq<Node>, parentId: string, newEl: Node)
    requires UniqueIds(list)
    ensures multiset(Ids(AddToParent(list, parentId, newEl))) ==
      multiset(Ids(list)) + (if HasDiv(list, parentId) then multiset(Ids([newEl])) else multiset{})
  {
    if HasDiv(list, parentId) {
      HasDivLookup(list, parentId);
      var n := Lookup(list, parentId).value;
      var u := n.(children := ChildList(Kids(n) + [newEl]));
      AddToParentIsUpdate(list, parentId, newEl);
      UpdateRecursiveIds(list, u);
      OneIds(n);
      OneIds(u);
      assert Kids(u) == Kids(n) + [newEl];
      IdsAppend(Kids(n), [newEl]);
      var o := multiset(Ids([n]));
      assert multiset(Ids([u])) == o + multiset(Ids([newEl]));
      CancelSubtree(multiset(Ids(AddToParent(list, parentId, newEl))), o, multiset(Ids(list)), multiset(Ids([newEl])));
    } else {
      AddToParentNoTarget(list, parentId, newEl);
    }
  }

  lemma {:induction false} CancelSubtree<T>(a: multiset<T>, o: multiset<T>, l: multiset<T>, e: multiset<T>)
    requires a + o == l + (o + e)
    ensures a == l + e
  {
    forall y ensures a[y] == (l + e)[y] {
      assert (a + o)[y] == (l + (o + e))[y];
    }
  }

  /** The ids of a one-node forest: the node's id, then its subtree's. */
  lemma {:induction false} OneIds(n: Node)
    ensures Ids([n]) == [n.id] + Ids(Kids(n))
  {
    IdsCons([n]);
    assert [n][1..] == [];
    assert Preorder([]) == [];
  }

  lemma {:induction false} NoIdNoDiv(items: seq<Node>, id: string)
    requires id !in Ids(items)
    ensures !HasDiv(items, id)
  {
    if HasDiv(items, id) {
      HasDivIds(items, id);
    }
  }

  /** The appended node ends up in the document when the target div exists. */
  lemma {:induction false} AddToParentContains(list: seq<Node>, parentId: string, newEl: Node)
    requires HasDiv(list, parentId)
    ensures newEl in Preorder(AddToParent(list, parentId, newEl))
    decreases SeqSize(list)
  {
    var r := AddToParent(list, parentId, newEl);
    var el := list[0];
    HasDivCons(list, parentId);
    AddToParentCons(list, parentId, newEl);
    assert Preorder(r) == [r[0]] + Preorder(Kids(r[0])) + Preorder(r[1..]);
    if el.id == parentId && el.kind == Div {
      PreorderAppend(Kids(el), [newEl]);
      assert Preorder([newEl]) == [newEl] + Preorder(Kids(newEl)) + Preorder([]);
    } else if HasDiv(Kids(el), parentId) {
      AddToParentContains(Kids(el), parentId, newEl);
    } else {
      AddToParentContains(list[1..], parentId, newEl);
    }
  }

  /** Only "div" nodes get a children array, before and after. */
  lemma {:induction false} AddToParentChildrenOnDivs(list: seq<Node>, parentId: string, newEl: Node)
    requires ChildrenOnDivs(list) && ChildrenOnDivs([newEl])
    ensures ChildrenOnDivs(AddToParent(list, parentId, newEl))
    decreases SeqSize(list)
  {
    if list != [] {
      var r := AddToParent(list, parentId, newEl);
      var el := list[0];
      AddToParentCons(list, parentId, newEl);
      ChildrenOnDivsCons(list);
      ChildrenOnDivsCons(r);
      AddToParentChildrenOnDivs(list[1..], parentId, newEl);
      if el.id == parentId && el.kind == Div {
        ChildrenOnDivsAppend(Kids(el), [newEl]);
      } else {
        AddToParentChildrenOnDivs(Kids(el), parentId, newEl);
      }
    }
  }

  /**
   * Adding a well-formed element with fresh ids under a parent keeps the document
   * well-formed, and grows it by exactly the new subtree when the parent is a div.
   */
  lemma {:induction false} AddToParentWellFormed(list: seq<Node>, parentId: string, newEl: Node)
    requires WellFormed(list) && WellFormed([newEl])
    requires multiset(Ids(list)) !! multiset(Ids([newEl]))
    ensures WellFormed(AddToParent(list, parentId, newEl))
    ensures Count(AddToParent(list, parentId, newEl)) ==
      Count(list) + (if HasDiv(list, parentId) then Count([newEl]) else 0)
  {
    var r := AddToParent(list, parentId, newEl);
    AddToParentIds(list, parentId, newEl);
    AddToParentChildrenOnDivs(list, parentId, newEl);
    forall y ensures multiset(Ids(r))[y] <= 1 {
      assert multiset(Ids(list))[y] <= 1 && multiset(Ids([newEl]))[y] <= 1;
      if y in multiset(Ids(list)) {
        assert y !in multiset(Ids([newEl]));
      }
    }
    assert |Ids(r)| == |multiset(Ids(r))|;
    assert |Ids(list)| == |multiset(Ids(list))|;
    assert |Ids([newEl])| == |multiset(Ids([newEl]))|;
  }

  // ---------------------------------------------------------------------
  // updateElement / updateRecursive

  /** Replaces, wholesale, every outermost node whose id is `updated.id`. */
  function UpdateRecursive(list: seq<Node>, updated: Node): (r: seq<Node>)
    ensures |r| == |list|
    decreases SeqSize(list)
  {
    if list == [] then []
    else
      var el := list[0];
      var el' :=
        if el.id == updated.id then updated
        else if el.children.ChildList? then el.(children := ChildList(UpdateRecursive(Kids(el), updated)))
        else el;
      [el'] + UpdateRecursive(list[1..], updated)
  }

  lemma {:induction false} UpdateRecursiveCons(list: seq<Node>, updated: Node)
    requires list != []
    ensures var r := UpdateRecursive(list, updated);
      && r != [] && r[1..] == UpdateRecursive(list[1..], updated)
      && (list[0].id == updated.id ==> r[0] == updated)
      && (list[0].id != updated.id ==>
            && r[0].id == list[0].id && r[0].kind == list[0].kind && r[0].props == list[0].props
            && r[0].children.ChildList? == list[0].children.ChildList?
            && Kids(r[0]) == UpdateRecursive(Kids(list[0]), updated))
  {
    if list[0].id != updated.id && list[0].children.NoChildren? {
      assert Kids(list[0]) == [];
    }
  }

  /** A node id that occurs nowhere leaves the document unchanged. */
  lemma {:induction false} UpdateRecursiveAbsent(list: seq<Node>, updated: Node)
    requires updated.id !in Ids(list)
    ensures UpdateRecursive(list, updated) == list
    decreases SeqSize(list)
  {
    if list != [] {
      IdsCons(list);
      UpdateRecursiveAbsent(Kids(list[0]), updated);
      UpdateRecursiveAbsent(list[1..], updated);
    }
  }

  /** After the update, looking the id up finds the new node itself. */
  lemma {:induction false} UpdateRecursiveReplaces(list: seq<Node>, updated: Node)
    requires updated.id in Ids(list)
    ensures Lookup(UpdateRecursive(list, updated), updated.id) == Some(updated)
    decreases SeqSize(list)
  {
    var r := UpdateRecursive(list, updated);
    var el := list[0];
    IdsCons(list);
    UpdateRecursiveCons(list, updated);
    LookupCons(r, updated.id);
    if el.id != updated.id {
      if updated.id in Ids(Kids(el)) {
        UpdateRecursiveReplaces(Kids(el), updated);
      } else {
        UpdateRecursiveAbsent(Kids(el), updated);
        UpdateRecursiveReplaces(list[1..], updated);
      }
    }
  }

  /** Every root keeps its position and id; a root whose subtree lacks the id is untouched. */
  lemma {:induction false} UpdateRecursiveKeepsRoots(list: seq<Node>, updated: Node)
    ensures var r := UpdateRecursive(list, updated);
      && |r| == |list|
      && forall i :: 0 <= i < |list| ==>
        && r[i].id == list[i].id
        && (list[i].id != updated.id ==> r[i].kind == list[i].kind && r[i].props == list[i].props)
        && (updated.id !in Ids([list[i]]) ==> r[i] == list[i])
    decreases |list|
  {
    if list != [] {
      var r := UpdateRecursive(list, updated);
      UpdateRecursiveCons(list, updated);
      UpdateRecursiveKeepsRoots(list[1..], updated);
      if updated.id !in Ids([list[0]]) {
        UpdateRecursiveAbsent([list[0]], updated);
        assert [list[0]][1..] == [];
      }
      forall i | 1 <= i < |list| ensures updated.id !in Ids([list[i]]) ==> r[i] == list[i] {
        assert list[i] == list[1..][i - 1];
      }
    }
  }

  /**
   * With unique ids, the replaced node's subtree leaves the document and the
   * new node's subtree enters it; every other id stays.
   */
  lemma {:induction false} UpdateRecursiveIds(list: seq<Node>, updated: Node)
    requires UniqueIds(list) && Lookup(list, updated.id).Some?
    ensures multiset(Ids(UpdateRecursive(list, updated))) + multiset(Ids([Lookup(list, updated.id).value])) ==
      multiset(Ids(list)) + multiset(Ids([updated]))
    decreases SeqSize(list)
  {
    assert list != [];
    var el := list[0];
    LookupCons(list, updated.id);
    UniqueCons(list);
    if el.id == updated.id {
      UpdateIdsAtRoot(list, updated);
    } else if Lookup(Kids(el), updated.id).Some? {
      assert updated.id in multiset(Ids(Kids(el)));
      UpdateRecursiveIds(Kids(el), updated);
      UpdateIdsBelow(list, updated);
    } else {
      UpdateRecursiveIds(list[1..], updated);
      UpdateIdsLater(list, updated);
    }
  }

  lemma {:induction false} UpdateIdsAtRoot(list: seq<Node>, u: Node)
    requires list != [] && list[0].id == u.id && u.id !in Ids(list[1..])
    ensures multiset(Ids(UpdateRecursive(list, u))) + multiset(Ids([list[0]])) ==
      multiset(Ids(list)) + multiset(Ids([u]))
  {
    var r := UpdateRecursive(list, u);
    UpdateRecursiveCons(list, u);
    UpdateRecursiveAbsent(list[1..], u);
    CutFirst(r);
    CutFirst(list);
  }

  lemma {:induction false} UpdateIdsBelow(list: seq<Node>, u: Node)
    requires list != [] && list[0].id != u.id && u.id !in Ids(list[1..])
    requires Lookup(Kids(list[0]), u.id).Some?
    requires multiset(Ids(UpdateRecursive(Kids(list[0]), u))) + multiset(Ids([Lookup(Kids(list[0]), u.id).value])) ==
      multiset(Ids(Kids(list[0]))) + multiset(Ids([u]))
    ensures multiset(Ids(UpdateRecursive(list, u))) + multiset(Ids([Lookup(Kids(list[0]), u.id).value])) ==
      multiset(Ids(list)) + multiset(Ids([u]))
  {
    var r := UpdateRecursive(list, u);
    UpdateRecursiveCons(list, u);
    UpdateRecursiveAbsent(list[1..], u);
    IdsConsMultiset(list);
    IdsConsMultiset(r);
    ReplacePart(multiset{list[0].id}, multiset(Ids(Kids(list[0]))), multiset(Ids(Kids(r[0]))), multiset(Ids(list[1..])),
      multiset(Ids([Lookup(Kids(list[0]), u.id).value])), multiset(Ids([u])));
  }

  lemma {:induction false} UpdateIdsLater(list: seq<Node>, u: Node)
    requires list != [] && list[0].id != u.id && u.id !in Ids(Kids(list[0]))
    requires Lookup(list[1..], u.id).Some?
    requires multiset(Ids(UpdateRecursive(list[1..], u))) + multiset(Ids([Lookup(list[1..], u.id).value])) ==
      multiset(Ids(list[1..])) + multiset(Ids([u]))
    ensures multiset(Ids(UpdateRecursive(list, u))) + multiset(Ids([Lookup(list[1..], u.id).value])) ==
      multiset(Ids(list)) + multiset(Ids([u]))
  {
    var r := UpdateRecursive(list, u);
    UpdateRecursiveCons(list, u);
    UpdateRecursiveAbsent(Kids(list[0]), u);
    IdsConsMultiset(list);
    IdsConsMultiset(r);
    ReplacePart(multiset{list[0].id}, multiset(Ids(list[1..])), multiset(Ids(r[1..])), multiset(Ids(Kids(list[0]))),
      multiset(Ids([Lookup(list[1..], u.id).value])), multiset(Ids([u])));
  }

  /**
   * With unique ids, replacing a node by one with the same children changes the
   * preorder tags at that node only: every other node keeps its id, type, props
   * and children array, in the same order.
   */
  lemma {:induction false} UpdateRecursiveRetags(list: seq<Node>, updated: Node)
    requires UniqueIds(list)
    requires Lookup(list, updated.id).Some? && Lookup(list, updated.id).value.children == updated.children
    ensures Tags(UpdateRecursive(list, updated)) == Retag(Tags(list), updated.id, TagOf(updated))
    decreases SeqSize(list)
  {
    assert list != [];
    var el := list[0];
    LookupCons(list, updated.id);
    UniqueCons(list);
    if el.id == updated.id {
      RetagAtRoot(list, updated);
    } else if Lookup(Kids(el), updated.id).Some? {
      assert updated.id in multiset(Ids(Kids(el)));
      UpdateRecursiveRetags(Kids(el), updated);
      RetagBelow(list, updated);
    } else {
      UpdateRecursiveRetags(list[1..], updated);
      RetagLater(list, updated);
    }
  }

  lemma {:induction false} RetagAtRoot(list: seq<Node>, u: Node)
    requires list != [] && list[0].id == u.id && list[0].children == u.children
    requires u.id !in Ids(Kids(list[0])) && u.id !in Ids(list[1..])
    ensures Tags(UpdateRecursive(list, u)) == Retag(Tags(list), u.id, TagOf(u))
  {
    var r := UpdateRecursive(list, u);
    UpdateRecursiveCons(list, u);
    UpdateRecursiveAbsent(list[1..], u);
    assert Kids(u) == Kids(list[0]);
    TagsCons(r);
    RetagCons(list, u.id, TagOf(u));
    RetagNoId(Kids(list[0]), u.id, TagOf(u));
    RetagNoId(list[1..], u.id, TagOf(u));
  }

  lemma {:induction false} RetagBelow(list: seq<Node>, u: Node)
    requires list != [] && list[0].id != u.id && u.id !in Ids(list[1..])
    requires Tags(UpdateRecursive(Kids(list[0]), u)) == Retag(Tags(Kids(list[0])), u.id, TagOf(u))
    ensures Tags(UpdateRecursive(list, u)) == Retag(Tags(list), u.id, TagOf(u))
  {
    var r := UpdateRecursive(list, u);
    UpdateRecursiveCons(list, u);
    UpdateRecursiveAbsent(list[1..], u);
    assert TagOf(r[0]) == TagOf(list[0]);
    TagsCons(r);
    RetagCons(list, u.id, TagOf(u));
    RetagNoId(list[1..], u.id, TagOf(u));
  }

  lemma {:induction false} RetagLater(list: seq<Node>, u: Node)
    requires list != [] && list[0].id != u.id && u.id !in Ids(Kids(list[0]))
    requires Tags(UpdateRecursive(list[1..], u)) == Retag(Tags(list[1..]), u.id, TagOf(u))
    ensures Tags(UpdateRecursive(list, u)) == Retag(Tags(list), u.id, TagOf(u))
  {
    var r := UpdateRecursive(list, u);
    UpdateRecursiveCons(list, u);
    UpdateRecursiveAbsent(Kids(list[0]), u);
    assert TagOf(r[0]) == TagOf(list[0]);
    TagsCons(r);
    RetagCons(list, u.id, TagOf(u));
    RetagNoId(Kids(list[0]), u.id, TagOf(u));
  }

  /**
   * Replacing a node of a well-formed document by one with the same type and
   * the same children keeps the ids, in order, and keeps the document well-formed.
   */
  lemma {:induction false} UpdateRecursiveKeepsShape(list: seq<Node>, updated: Node)
    requires WellFormed(list) && Lookup(list, updated.id).Some?
    requires Lookup(list, updated.id).value.children == updated.children
    requires Lookup(list, updated.id).value.kind == updated.kind
    ensures Ids(UpdateRecursive(list, updated)) == Ids(list)
    ensures WellFormed(UpdateRecursive(list, updated))
  {
    var r := UpdateRecursive(list, updated);
    UpdateRecursiveRetags(list, updated);
    LookupInPreorder(list, updated.id);
    RetagKeepsIds(list, r, updated.id, TagOf(updated));
    RetagKeepsChildrenOnDivs(list, r, updated.id, TagOf(updated));
  }

  /**
   * An edit made in the settings panel to the selected node changes, in the whole
   * document, only that node's `props[field]`, and keeps the document well-formed.
   */
  lemma {:induction false} PanelEditChangesOnlyThatField(list: seq<Node>, selected: Node, field: string, value: PropVal)
    requires WellFormed(list) && Lookup(list, selected.id) == Some(selected)
    ensures Tags(UpdateRecursive(list, SettingsPanel.HandleChange(selected, field, value))) ==
      Retag(Tags(list), selected.id, TagOf(selected).(props := selected.props[field := value]))
    ensures WellFormed(UpdateRecursive(list, SettingsPanel.HandleChange(selected, field, value)))
  {
    var u := SettingsPanel.HandleChange(selected, field, value);
    UpdateRecursiveRetags(list, u);
    UpdateRecursiveKeepsShape(list, u);
  }


  // ---------------------------------------------------------------------
  // Whole-document frames: one subtree spliced in the preorder tags

  /**
   * Node `n` sits at position k of the preorder of `list`, and replacing it by
   * `u` replaces, in the preorder tags, exactly n's stretch (which starts at k)
   * by the tags of u's subtree: every tag before and after it stays.
   */
  ghost predicate SplicedAt(list: seq<Node>, u: Node, n: Node, k: nat)
  {
    && k < Count(list) && k + Count([n]) <= Count(list) && Preorder(list)[k] == n
    && Tags(list) == Tags(list)[..k] + Tags([n]) + Tags(list)[k + Count([n])..]
    && Tags(UpdateRecursive(list, u)) == Tags(list)[..k] + Tags([u]) + Tags(list)[k + Count([n])..]
  }

  /**
   * With unique ids, replacing the node n that carries `updated.id` replaces,
   * in the preorder tags, exactly n's stretch by the tags of `updated`'s
   * subtree. Every tag before and after that stretch stays, and by
   * `TagsDetermine` so does every node outside n's subtree, with its place and
   * its number of children.
   */
  lemma {:induction false} UpdateRecursiveSplices(list: seq<Node>, updated: Node) returns (k: nat)
    requires UniqueIds(list) && Lookup(list, updated.id).Some?
    ensures SplicedAt(list, updated, Lookup(list, updated.id).value, k)
    decreases SeqSize(list)
  {
    SplicedParts(list, updated.id);
    if list[0].id == updated.id {
      k := SplicedHere(list, updated);
    } else if Lookup(Kids(list[0]), updated.id).Some? {
      var k' := UpdateRecursiveSplices(Kids(list[0]), updated);
      k := SplicedBelow(list, updated, k');
    } else {
      var k' := UpdateRecursiveSplices(list[1..], updated);
      k := SplicedLater(list, updated, k');
    }
  }

  /** The facts about the parts of `list` that the recursion of `UpdateRecursiveSplices` needs. */
  lemma {:induction false} SplicedParts(list: seq<Node>, id: string)
    requires UniqueIds(list) && Lookup(list, id).Some?
    ensures list != [] && UniqueIds(Kids(list[0])) && UniqueIds(list[1..])
    ensures list[0].id != id && Lookup(Kids(list[0]), id).None? ==> Lookup(list[1..], id).Some?
  {
    LookupCons(list, id);
    UniqueCons(list);
  }

  lemma {:induction false} SplicedHere(list: seq<Node>, u: Node) returns (k: nat)
    requires UniqueIds(list) && list != [] && list[0].id == u.id && Lookup(list, u.id).Some?
    ensures k == 0 && SplicedAt(list, u, Lookup(list, u.id).value, k)
  {
    k := 0;
    LookupCons(list, u.id);
    UniqueCons(list);
    SpliceAtRoot(list, u);
  }

  lemma {:induction false} SplicedBelow(list: seq<Node>, u: Node, k': nat) returns (k: nat)
    requires UniqueIds(list) && list != [] && list[0].id != u.id
    requires Lookup(Kids(list[0]), u.id).Some? && Lookup(list, u.id).Some?
    requires SplicedAt(Kids(list[0]), u, Lookup(Kids(list[0]), u.id).value, k')
    ensures k == 1 + k' && SplicedAt(list, u, Lookup(list, u.id).value, k)
  {
    k := 1 + k';
    LookupCons(list, u.id);
    UniqueCons(list);
    assert u.id in multiset(Ids(Kids(list[0])));
    SpliceBelow(list, u, Lookup(Kids(list[0]), u.id).value, k');
  }

  lemma {:induction false} SplicedLater(list: seq<Node>, u: Node, k': nat) returns (k: nat)
    requires list != [] && list[0].id != u.id && Lookup(Kids(list[0]), u.id).None?
    requires Lookup(list[1..], u.id).Some? && Lookup(list, u.id).Some?
    requires SplicedAt(list[1..], u, Lookup(list[1..], u.id).value, k')
    ensures k == 1 + Count(Kids(list[0])) + k' && SplicedAt(list, u, Lookup(list, u.id).value, k)
  {
    k := 1 + Count(Kids(list[0])) + k';
    var n := Lookup(list[1..], u.id).value;
    LookupCons(list, u.id);
    assert Lookup(list, u.id).value == n;
    assert u.id !in Ids(Kids(list[0]));
    SpliceLater(list, u, n, k');
  }

  lemma {:induction false} SpliceAtRoot(list: seq<Node>, u: Node)
    requires list != [] && list[0].id == u.id && u.id !in Ids(list[1..])
    ensures SplicedAt(list, u, list[0], 0)
  {
    var r := UpdateRecursive(list, u);
    UpdateRecursiveCons(list, u);
    UpdateRecursiveAbsent(list[1..], u);
    assert list == [list[0]] + list[1..];
    assert r == [u] + list[1..];
    TagsAppend([list[0]], list[1..]);
    TagsAppend([u], list[1..]);
    TagIds([list[0]]);
    SpliceAtStart(Tags(list), Tags(r), Tags([list[0]]), Tags([u]), Tags(list[1..]));
  }

  lemma {:induction false} SpliceBelow(list: seq<Node>, u: Node, n: Node, k': nat)
    requires list != [] && list[0].id != u.id && u.id !in Ids(list[1..])
    requires SplicedAt(Kids(list[0]), u, n, k')
    ensures SplicedAt(list, u, n, 1 + k')
  {
    var r := UpdateRecursive(list, u);
    UpdateRecursiveCons(list, u);
    UpdateRecursiveAbsent(list[1..], u);
    assert TagOf(r[0]) == TagOf(list[0]);
    TagsCons(list);
    TagsCons(r);
    TagIds([n]);
    TagIds(list);
    IndexInParts(Preorder(list), list[0], Preorder(Kids(list[0])), Preorder(list[1..]));
    SpliceAfterHead(Tags(list), Tags(r), TagOf(list[0]), Tags(Kids(list[0])), Tags(Kids(r[0])), Tags(list[1..]),
      k', Tags([n]), Tags([u]));
  }

  lemma {:induction false} SpliceLater(list: seq<Node>, u: Node, n: Node, k': nat)
    requires list != [] && list[0].id != u.id && u.id !in Ids(Kids(list[0]))
    requires SplicedAt(list[1..], u, n, k')
    ensures SplicedAt(list, u, n, 1 + Count(Kids(list[0])) + k')
  {
    SpliceLaterTags(list, u, Tags([n]), k');
    TagIds([n]);
    IndexInParts(Preorder(list), list[0], Preorder(Kids(list[0])), Preorder(list[1..]));
  }

  lemma {:induction false} SpliceLaterTags(list: seq<Node>, u: Node, o: seq<Tag>, k': nat)
    requires list != [] && list[0].id != u.id && u.id !in Ids(Kids(list[0]))
    requires k' + |o| <= |Tags(list[1..])|
    requires Tags(list[1..]) == Tags(list[1..])[..k'] + o + Tags(list[1..])[k' + |o|..]
    requires Tags(UpdateRecursive(list[1..], u)) == Tags(list[1..])[..k'] + Tags([u]) + Tags(list[1..])[k' + |o|..]
    ensures var k := 1 + Count(Kids(list[0])) + k';
      && k + |o| <= |Tags(list)|
      && Tags(list) == Tags(list)[..k] + o + Tags(list)[k + |o|..]
      && Tags(UpdateRecursive(list, u)) == Tags(list)[..k] + Tags([u]) + Tags(list)[k + |o|..]
  {
    var h := [TagOf(list[0])] + Tags(Kids(list[0]));
    TagsCons(list);
    TagsLater(list, u);
    TagIds(Kids(list[0]));
    SpliceAfterPrefix(Tags(list), Tags(UpdateRecursive(list, u)), h, Tags(list[1..]), Tags(UpdateRecursive(list[1..], u)),
      k', o, Tags([u]), 1 + Count(Kids(list[0])) + k');
  }

  /** Replacing a node that is not in the first root's subtree leaves that subtree's tags in front. */
  lemma {:induction false} TagsLater(list: seq<Node>, u: Node)
    requires list != [] && list[0].id != u.id && u.id !in Ids(Kids(list[0]))
    ensures Tags(UpdateRecursive(list, u)) == [TagOf(list[0])] + Tags(Kids(list[0])) + Tags(UpdateRecursive(list[1..], u))
  {
    var r := UpdateRecursive(list, u);
    UpdateRecursiveCons(list, u);
    UpdateRecursiveAbsent(Kids(list[0]), u);
    assert TagOf(r[0]) == TagOf(list[0]);
    TagsCons(r);
  }

  /**
   * With unique ids, adding under the "div" that carries `parentId` is
   * replacing that div, wherever it sits, by itself with `newEl` appended to
   * its children.
   */
  lemma {:induction false} AddToParentIsUpdate(list: seq<Node>, parentId: string, newEl: Node)
    requires UniqueIds(list) && Lookup(list, parentId).Some? && Lookup(list, parentId).value.kind == Div
    ensures var n := Lookup(list, parentId).value;
      AddToParent(list, parentId, newEl) == UpdateRecursive(list, n.(children := ChildList(Kids(n) + [newEl])))
    decreases SeqSize(list)
  {
    var n := Lookup(list, parentId).value;
    var u := n.(children := ChildList(Kids(n) + [newEl]));
    var a, b := AddToParent(list, parentId, newEl), UpdateRecursive(list, u);
    SplicedParts(list, parentId);
    LookupCons(list, parentId);
    AddToParentCons(list, parentId, newEl);
    UpdateRecursiveCons(list, u);
    if list[0].id == parentId {
      AddedHere(list, parentId, newEl);
    } else if Lookup(Kids(list[0]), parentId).Some? {
      AddToParentIsUpdate(Kids(list[0]), parentId, newEl);
      AddedBelow(list, parentId, newEl);
    } else {
      AddToParentIsUpdate(list[1..], parentId, newEl);
      AddedLater(list, parentId, newEl);
    }
  }

  lemma {:induction false} AddedHere(list: seq<Node>, parentId: string, newEl: Node)
    requires UniqueIds(list) && list != [] && list[0].id == parentId && list[0].kind == Div
    ensures AddToParent(list, parentId, newEl) ==
      UpdateRecursive(list, list[0].(children := ChildList(Kids(list[0]) + [newEl])))
  {
    var u := list[0].(children := ChildList(Kids(list[0]) + [newEl]));
    var a, b := AddToParent(list, parentId, newEl), UpdateRecursive(list, u);
    UniqueCons(list);
    AddToParentCons(list, parentId, newEl);
    UpdateRecursiveCons(list, u);
    NoIdNoDiv(list[1..], parentId);
    AddToParentNoTarget(list[1..], parentId, newEl);
    UpdateRecursiveAbsent(list[1..], u);
    SameNode(a[0], b[0]);
    assert a == [a[0]] + a[1..] && b == [b[0]] + b[1..];
  }

  lemma {:induction false} AddedBelow(list: seq<Node>, parentId: string, newEl: Node)
    requires UniqueIds(list) && list != [] && list[0].id != parentId
    requires Lookup(Kids(list[0]), parentId).Some?
    requires var n := Lookup(Kids(list[0]), parentId).value;
      AddToParent(Kids(list[0]), parentId, newEl) == UpdateRecursive(Kids(list[0]), n.(children := ChildList(Kids(n) + [newEl])))
    ensures var n := Lookup(Kids(list[0]), parentId).value;
      AddToParent(list, parentId, newEl) == UpdateRecursive(list, n.(children := ChildList(Kids(n) + [newEl])))
  {
    var n := Lookup(Kids(list[0]), parentId).value;
    var u := n.(children := ChildList(Kids(n) + [newEl]));
    var a, b := AddToParent(list, parentId, newEl), UpdateRecursive(list, u);
    UniqueCons(list);
    assert parentId in multiset(Ids(Kids(list[0])));
    AddToParentCons(list, parentId, newEl);
    UpdateRecursiveCons(list, u);
    NoIdNoDiv(list[1..], parentId);
    AddToParentNoTarget(list[1..], parentId, newEl);
    UpdateRecursiveAbsent(list[1..], u);
    SameNode(a[0], b[0]);
    assert a == [a[0]] + a[1..] && b == [b[0]] + b[1..];
  }

  lemma {:induction false} AddedLater(list: seq<Node>, parentId: string, newEl: Node)
    requires list != [] && list[0].id != parentId
    requires Lookup(Kids(list[0]), parentId).None? && Lookup(list[1..], parentId).Some?
    requires var n := Lookup(list[1..], parentId).value;
      AddToParent(list[1..], parentId, newEl) == UpdateRecursive(list[1..], n.(children := ChildList(Kids(n) + [newEl])))
    ensures var n := Lookup(list[1..], parentId).value;
      AddToParent(list, parentId, newEl) == UpdateRecursive(list, n.(children := ChildList(Kids(n) + [newEl])))
  {
    var n := Lookup(list[1..], parentId).value;
    var u := n.(children := ChildList(Kids(n) + [newEl]));
    var a, b := AddToParent(list, parentId, newEl), UpdateRecursive(list, u);
    AddToParentCons(list, parentId, newEl);
    UpdateRecursiveCons(list, u);
    LookupNoneNoDiv(Kids(list[0]), parentId);
    AddToParentNoTarget(Kids(list[0]), parentId, newEl);
    UpdateRecursiveAbsent(Kids(list[0]), u);
    SameNode(a[0], b[0]);
    assert a == [a[0]] + a[1..] && b == [b[0]] + b[1..];
  }

  /**
   * With unique ids, adding under the "div" n carrying `parentId` changes the
   * preorder tags of the whole document only at n, whose child count grows by
   * one, and right after n's old subtree, where the tags of `newEl`'s subtree
   * enter. Every tag before n and after its subtree stays.
   */
  lemma {:induction false} AddToParentSplices(list: seq<Node>, parentId: string, newEl: Node) returns (k: nat)
    requires UniqueIds(list) && Lookup(list, parentId).Some? && Lookup(list, parentId).value.kind == Div
    ensures var n := Lookup(list, parentId).value;
      && k + Count([n]) <= Count(list) && Preorder(list)[k] == n
      && Tags(list) == Tags(list)[..k] + [TagOf(n)] + Tags(Kids(n)) + Tags(list)[k + Count([n])..]
      && Tags(AddToParent(list, parentId, newEl)) ==
        Tags(list)[..k] + [Tag(parentId, Div, n.props, true, |Kids(n)| + 1)] + Tags(Kids(n)) + Tags([newEl])
        + Tags(list)[k + Count([n])..]
  {
    var n := Lookup(list, parentId).value;
    var u := n.(children := ChildList(Kids(n) + [newEl]));
    AddToParentIsUpdate(list, parentId, newEl);
    k := UpdateRecursiveSplices(list, u);
    assert SplicedAt(list, u, n, k);
    OneTags(n);
    OneTags(u);
    TagsAppend(Kids(n), [newEl]);
    assert Kids(u) == Kids(n) + [newEl];
    assert TagOf(u) == Tag(parentId, Div, n.props, true, |Kids(n)| + 1);
    var g, m := Tags(list), Count([n]);
    Grouped(g, Tags(UpdateRecursive(list, u)), g[..k], g[k + m..], Tags([n]), Tags([u]),
      TagOf(n), TagOf(u), Tags(Kids(n)), Tags(Kids(u)), Tags([newEl]));
  }

  lemma {:induction false} Grouped<T>(g: seq<T>, r: seq<T>, p: seq<T>, q: seq<T>, o: seq<T>, o': seq<T>,
                                      x: T, y: T, a: seq<T>, a': seq<T>, b: seq<T>)
    requires g == p + o + q && r == p + o' + q
    requires o == [x] + a && o' == [y] + a' && a' == a + b
    ensures g == p + [x] + a + q && r == p + [y] + a + b + q
  {
  }

  /** The tags of a one-node forest: the node's tag, then its subtree's. */
  lemma {:induction false} OneTags(n: Node)
    ensures Tags([n]) == [TagOf(n)] + Tags(Kids(n))
  {
    TagsCons([n]);
    assert [n][1..] == [];
    TagsEmpty([]);
  }

  // ---------------------------------------------------------------------
  // findById

  /** `findById(list, id)`; `id` is None for a `null` selection, which matches no node. */
  method FindById(list: seq<Node>, id: Option<string>) returns (r: Option<Node>)
    ensures r == if id.Some? then Lookup(list, id.value) else None
    decreases SeqSize(list)
  {
    var i := 0;
    while i < |list|
      invariant 0 <= i <= |list|
      invariant id.Some? ==> Lookup(list[..i], id.value).None?
    {
      var el := list[i];
      SizeOfElement(list, i);
      if Some(el.id) == id {
        LookupAt(list, i, id.value);
        return Some(el);
      }
      if el.children.ChildList? {
        var found := FindById(el.children.nodes, id);
        if found.Some? {
          LookupAt(list, i, id.value);
          return found;
        }
      }
      LookupStep(list, i, id);
      i := i + 1;
    }
    if id.Some? {
      assert list[..i] == list;
    }
    return None;
  }

  /** A root is no bigger than the root sequence holding it. */
  lemma {:induction false} SizeOfElement(list: seq<Node>, i: nat)
    requires i < |list|
    ensures SeqSize(Kids(list[i])) < SeqSize(list)
    decreases i
  {
    if i > 0 {
      assert list[i] == list[1..][i - 1];
      SizeOfElement(list[1..], i - 1);
    }
  }

  /** Lookup when no root before `i` holds the id: decided at root `i`. */
  lemma {:induction false} LookupAt(list: seq<Node>, i: nat, id: string)
    requires i < |list| && Lookup(list[..i], id).None?
    ensures Lookup(list, id) ==
      if list[i].id == id then Some(list[i])
      else if Lookup(Kids(list[i]), id).Some? then Lookup(Kids(list[i]), id)
      else Lookup(list[i + 1..], id)
  {
    SplitAt(list, i);
    LookupAppend(list[..i], list[i..], id);
    LookupCons(list[i..], id);
  }

  lemma {:induction false} SplitAt(list: seq<Node>, i: nat)
    requires i < |list|
    ensures list == list[..i] + list[i..]
    ensures list[i..][0] == list[i] && list[i..][1..] == list[i + 1..]
  {
  }

  lemma {:induction false} LookupStep(list: seq<Node>, i: nat, id: Option<string>)
    requires i < |list|
    requires id.Some? ==> Lookup(list[..i], id.value).None?
    requires id.Some? ==> list[i].id != id.value && Lookup(Kids(list[i]), id.value).None?
    ensures id.Some? ==> Lookup(list[..i + 1], id.value).None?
  {
    if id.Some? {
      assert list[..i + 1] == list[..i] + [list[i]];
      LookupAppend(list[..i], [list[i]], id.value);
      LookupCons([list[i]], id.value);
    }
  }

  // ---------------------------------------------------------------------
  // The state of the App component

  /** Whether the currently selected id names a "div" of the document. */
  predicate SelectedIsDiv(elements: seq<Node>, selectedId: Option<string>)
  {
    selectedId.Some? && Lookup(elements, selectedId.value).Some? && Lookup(elements, selectedId.value).value.kind == Div
  }

  class AppState {
    var elements: seq<Node>
    var selectedId: Option<string>

    ghost predicate Valid()
      reads this
    {
      WellFormed(elements)
    }

    /** The initial state: an empty document and no selection. */
    constructor ()
      ensures Valid() && elements == [] && selectedId == None
    {
      elements := [];
      selectedId := None;
    }

    /**
     * `addElement(type)`: a div goes at the end of the root; any other type goes
     * at the end of the selected div's children, or at the end of the root when
     * the selection is not a div. The new element becomes the selection.
     * `freshId` stands for the generated id, which must not occur yet.
     */
    method AddElement(kind: Kind, freshId: string)
      requires Valid() && freshId !in Ids(elements)
      modifies this
      ensures Valid()
      ensures selectedId == Some(freshId)
      ensures Count(elements) == Count(old(elements)) + 1
      ensures Lookup(elements, freshId) == Some(NewElement(freshId, kind))
      ensures kind == Div || !SelectedIsDiv(old(elements), old(selectedId)) ==>
        elements == old(elements) + [NewElement(freshId, kind)]
      ensures kind != Div && SelectedIsDiv(old(elements), old(selectedId)) ==>
        var parent := Lookup(old(elements), old(selectedId).value).value;
        && elements == AddToParent(old(elements), old(selectedId).value, NewElement(freshId, kind))
        && Lookup(elements, parent.id) == Some(parent.(children := ChildList(Kids(parent) + [NewElement(freshId, kind)])))
    {
      var newElement := NewElement(freshId, kind);
      NewElementWellFormed(freshId, kind);
      var selectedElement := FindById(elements, selectedId);
      if kind == Div {
        AppendRoot(elements, newElement);
        elements := elements + [newElement];
      } else if selectedElement.Some? && selectedElement.value.kind == Div {
        var parentId := selectedId.value;
        LookupDivHasDiv(elements, parentId);
        AddToParentWellFormed(elements, parentId, newElement);
        AddToParentAppends(elements, parentId, newElement);
        AddToParentContains(elements, parentId, newElement);
        elements := AddToParent(elements, parentId, newElement);
        LookupUnique(elements, newElement);
      } else {
        AppendRoot(elements, newElement);
        elements := elements + [newElement];
      }
      selectedId := Some(newElement.id);
    }

    /**
     * `updateElement(updated)`: the node with `updated.id` is replaced by
     * `updated`. An unknown id changes nothing; a replacement with the same
     * type and children keeps the document well-formed.
     */
    method UpdateElement(updated: Node)
      modifies this`elements
      ensures elements == UpdateRecursive(old(elements), updated)
      ensures Lookup(old(elements), updated.id).None? ==> elements == old(elements)
      ensures old(Valid()) ==>
        var n := Lookup(old(elements), updated.id);
        (n.Some? ==> n.value.kind == updated.kind && n.value.children == updated.children) ==> Valid()
    {
      if Lookup(elements, updated.id).None? {
        UpdateRecursiveAbsent(elements, updated);
      } else if Valid() && Lookup(elements, updated.id).value.kind == updated.kind
                && Lookup(elements, updated.id).value.children == updated.children {
        UpdateRecursiveKeepsShape(elements, updated);
      }
      elements := UpdateRecursive(elements, updated);
    }

    /** `setSelectedId(id)`, passed to the canvas as `onSelectElement`. */
    method SelectElement(id: string)
      modifies this`selectedId
      ensures selectedId == Some(id)
    {
      selectedId := Some(id);
    }
  }

  /** Appending a fresh element at the root keeps the document well-formed and finds it by id. */
  lemma {:induction false} AppendRoot(elements: seq<Node>, e: Node)
    requires WellFormed(elements) && e.id !in Ids(elements)
    requires Preorder([e]) == [e] && (e.children.ChildList? <==> e.kind == Div)
    ensures WellFormed(elements + [e])
    ensures Count(elements + [e]) == Count(elements) + 1
    ensures Lookup(elements + [e], e.id) == Some(e)
  {
    PreorderAppend(elements, [e]);
    IdsAppend(elements, [e]);
    assert Ids([e]) == [e.id];
    UniqueAppend(elements, [e]);
    ChildrenOnDivsAppend(elements, [e]);
    LookupAppend(elements, [e], e.id);
  }
}
