/**
 * The element tree of the page builder: nodes, the document (an ordered
 * sequence of root nodes), its depth-first preorder, lookup by id, and the
 * well-formedness invariants (unique ids, children only on "div" nodes).
 */
module Elements {

  datatype Option<+T> = None | Some(value: T)

  /** The `type` field of an element: "div", "text", "image" or "button". */
  datatype Kind = Div | Text | Image | Button

  /** A value in an element's `props` object. */
  datatype PropVal = Str(s: string) | Int(i: int) | Bool(b: bool)

  type Props = map<string, PropVal>

  /** The optional `children` array of an element: `undefined` or an array. */
  datatype Children = NoChildren | ChildList(nodes: seq<Node>)

  /** `{id, type, props, children?}` */
  datatype Node = Node(id: string, kind: Kind, props: Props, children: Children)

  /** Number of nodes in the subtree rooted at `n`; the termination measure of every traversal. */
  function Size(n: Node): nat
    decreases n, 1
  {
    1 + SizeFrom(n, 0)
  }

  function SizeFrom(n: Node, i: nat): nat
    decreases n, 0, if n.children.ChildList? then |n.children.nodes| - i else 0
  {
    if n.children.NoChildren? || i >= |n.children.nodes| then 0
    else
      assert n.children.nodes[i] in n.children.nodes;
      Size(n.children.nodes[i]) + SizeFrom(n, i + 1)
  }

  function SeqSize(items: seq<Node>): nat
  {
    if items == [] then 0 else Size(items[0]) + SeqSize(items[1..])
  }

  lemma {:induction false} SizeFromIsSeqSize(n: Node, i: nat)
    requires n.children.ChildList? && i <= |n.children.nodes|
    ensures SizeFrom(n, i) == SeqSize(n.children.nodes[i..])
    decreases |n.children.nodes| - i
  {
    if i < |n.children.nodes| {
      SizeFromIsSeqSize(n, i + 1);
      assert n.children.nodes[i..][1..] == n.children.nodes[i + 1..];
    }
  }

  /** `el.children || []`: the children of a node, smaller than the node itself. */
  function Kids(n: Node): (r: seq<Node>)
    ensures SeqSize(r) < Size(n)
  {
    if n.children.ChildList? then
      SizeFromIsSeqSize(n, 0);
      assert n.children.nodes[0..] == n.children.nodes;
      n.children.nodes
    else []
  }

  /** JavaScript truthiness of a props entry (an absent key reads as `undefined`). */
  predicate Truthy(v: Option<PropVal>)
  {
    match v
    case None => false
    case Some(Str(s)) => s != ""
    case Some(Int(i)) => i != 0
    case Some(Bool(b)) => b
  }

  /** `props[key]`, None when the key is absent. */
  function Get(props: Props, key: string): Option<PropVal>
  {
    if key in props then Some(props[key]) else None
  }

  /** Every node of the document in depth-first preorder. */
  function Preorder(items: seq<Node>): seq<Node>
    decreases SeqSize(items)
  {
    if items == [] then []
    else [items[0]] + Preorder(Kids(items[0])) + Preorder(items[1..])
  }

  function IdsOf(ns: seq<Node>): seq<string>
  {
    seq(|ns|, i requires 0 <= i < |ns| => ns[i].id)
  }

  /** The ids of all nodes, at every depth, in preorder. */
  function Ids(items: seq<Node>): seq<string>
  {
    IdsOf(Preorder(items))
  }

  /** Number of nodes at every depth. */
  function Count(items: seq<Node>): nat
  {
    |Preorder(items)|
  }

  /**
   * What a node carries besides its children: id, type, props, whether it has a
   * children array, and how many children it has. The tags of a document in
   * preorder determine the document (`TagsDetermine`).
   */
  datatype Tag = Tag(id: string, kind: Kind, props: Props, hasChildren: bool, arity: nat)

  function TagOf(n: Node): Tag
  {
    Tag(n.id, n.kind, n.props, n.children.ChildList?, |Kids(n)|)
  }

  /** A tag without the child count: what a node keeps when a descendant is removed. */
  function Label(g: Tag): Tag
  {
    g.(arity := 0)
  }

  function LabelsOf(gs: seq<Tag>): seq<Tag>
  {
    seq(|gs|, i requires 0 <= i < |gs| => Label(gs[i]))
  }

  function TagsOf(ns: seq<Node>): seq<Tag>
  {
    seq(|ns|, i requires 0 <= i < |ns| => TagOf(ns[i]))
  }

  /** The tags of all nodes, at every depth, in preorder. */
  function Tags(items: seq<Node>): seq<Tag>
  {
    TagsOf(Preorder(items))
  }

  /** `gs` with the tag of every node carrying `id` replaced by `g`. */
  function Retag(gs: seq<Tag>, id: string, g: Tag): seq<Tag>
  {
    seq(|gs|, i requires 0 <= i < |gs| => if gs[i].id == id then g else gs[i])
  }

  /** Some node, at any depth, has this id and is a "div". */
  ghost predicate HasDiv(items: seq<Node>, id: string)
  {
    exists n :: n in Preorder(items) && n.id == id && n.kind == Div
  }

  /** The first node of `ns` carrying `id`. */
  function FirstWithId(ns: seq<Node>, id: string): (r: Option<Node>)
    ensures r.None? <==> id !in IdsOf(ns)
    ensures r.Some? ==> r.value in ns && r.value.id == id
  {
    if ns == [] then None
    else
      assert IdsOf(ns) == [ns[0].id] + IdsOf(ns[1..]);
      if ns[0].id == id then Some(ns[0]) else FirstWithId(ns[1..], id)
  }

  /** The first node in depth-first preorder whose id is `id`. */
  function Lookup(items: seq<Node>, id: string): (r: Option<Node>)
    ensures r.None? <==> id !in Ids(items)
    ensures r.Some? ==> r.value in Preorder(items) && r.value.id == id
  {
    FirstWithId(Preorder(items), id)
  }

  ghost predicate UniqueIds(items: seq<Node>)
  {
    forall y :: multiset(Ids(items))[y] <= 1
  }

  ghost predicate ChildrenOnDivs(items: seq<Node>)
  {
    forall n :: n in Preorder(items) ==> (n.children.ChildList? <==> n.kind == Div)
  }

  ghost predicate WellFormed(items: seq<Node>)
  {
    UniqueIds(items) && ChildrenOnDivs(items)
  }

  // ---------------------------------------------------------------------
  // Structural facts about the preorder

  lemma {:induction false} IdsOfAppend(a: seq<Node>, b: seq<Node>)
    ensures IdsOf(a + b) == IdsOf(a) + IdsOf(b)
  {
    assert forall i :: 0 <= i < |a + b| ==> IdsOf(a + b)[i] == (IdsOf(a) + IdsOf(b))[i];
  }

  lemma {:induction false} PreorderAppend(a: seq<Node>, b: seq<Node>)
    ensures Preorder(a + b) == Preorder(a) + Preorder(b)
    decreases a
  {
    if a == [] {
      assert a + b == b;
    } else {
      assert (a + b)[0] == a[0];
      assert (a + b)[1..] == a[1..] + b;
      PreorderAppend(a[1..], b);
    }
  }

  lemma {:induction false} IdsAppend(a: seq<Node>, b: seq<Node>)
    ensures Ids(a + b) == Ids(a) + Ids(b)
  {
    PreorderAppend(a, b);
    IdsOfAppend(Preorder(a), Preorder(b));
  }

  /** Unfolds one root: its id, then its subtree, then the following roots. */
  lemma {:induction false} IdsCons(items: seq<Node>)
    requires items != []
    ensures Ids(items) == [items[0].id] + Ids(Kids(items[0])) + Ids(items[1..])
  {
    IdsOfAppend([items[0]] + Preorder(Kids(items[0])), Preorder(items[1..]));
    IdsOfAppend([items[0]], Preorder(Kids(items[0])));
  }

  lemma {:induction false} FirstWithIdAppend(a: seq<Node>, b: seq<Node>, id: string)
    ensures FirstWithId(a + b, id) == if FirstWithId(a, id).Some? then FirstWithId(a, id) else FirstWithId(b, id)
    decreases a
  {
    if a != [] {
      assert (a + b)[1..] == a[1..] + b;
      FirstWithIdAppend(a[1..], b, id);
    } else {
      assert a + b == b;
    }
  }

  /** Lookup through one root: the root itself, then its subtree, then the later roots. */
  lemma {:induction false} LookupCons(items: seq<Node>, id: string)
    requires items != []
    ensures Lookup(items, id) ==
      if items[0].id == id then Some(items[0])
      else if Lookup(Kids(items[0]), id).Some? then Lookup(Kids(items[0]), id)
      else Lookup(items[1..], id)
  {
    var x := items[0];
    FirstWithIdAppend([x] + Preorder(Kids(x)), Preorder(items[1..]), id);
    FirstWithIdAppend([x], Preorder(Kids(x)), id);
  }

  lemma {:induction false} LookupAppend(a: seq<Node>, b: seq<Node>, id: string)
    ensures Lookup(a + b, id) == if Lookup(a, id).Some? then Lookup(a, id) else Lookup(b, id)
  {
    PreorderAppend(a, b);
    FirstWithIdAppend(Preorder(a), Preorder(b), id);
  }

  /** Splitting the uniqueness of ids at the first root. */
  lemma {:induction false} UniqueCons(items: seq<Node>)
    requires items != []
    ensures UniqueIds(items) <==>
      && items[0].id !in Ids(Kids(items[0]))
      && items[0].id !in Ids(items[1..])
      && UniqueIds(Kids(items[0]))
      && UniqueIds(items[1..])
      && multiset(Ids(Kids(items[0]))) !! multiset(Ids(items[1..]))
  {
    IdsCons(items);
    var x, k, r := items[0].id, Ids(Kids(items[0])), Ids(items[1..]);
    assert multiset(Ids(items)) == multiset{x} + multiset(k) + multiset(r);
    if UniqueIds(items) {
      assert multiset(Ids(items))[x] <= 1;
      forall y ensures multiset(k)[y] <= 1 && multiset(r)[y] <= 1 {
        assert multiset(Ids(items))[y] <= 1;
      }
      forall y | y in multiset(k) ensures y !in multiset(r) {
        assert multiset(Ids(items))[y] <= 1;
      }
    }
  }

  lemma {:induction false} UniqueAppend(a: seq<Node>, b: seq<Node>)
    ensures UniqueIds(a + b) <==> UniqueIds(a) && UniqueIds(b) && multiset(Ids(a)) !! multiset(Ids(b))
  {
    IdsAppend(a, b);
    assert multiset(Ids(a + b)) == multiset(Ids(a)) + multiset(Ids(b));
    if UniqueIds(a + b) {
      forall y ensures multiset(Ids(a))[y] <= 1 && multiset(Ids(b))[y] <= 1 {
        assert multiset(Ids(a + b))[y] <= 1;
      }
      forall y | y in multiset(Ids(a)) ensures y !in multiset(Ids(b)) {
        assert multiset(Ids(a + b))[y] <= 1;
      }
    }
  }

  lemma {:induction false} ChildrenOnDivsCons(items: seq<Node>)
    requires items != []
    ensures ChildrenOnDivs(items) <==>
      && (items[0].children.ChildList? <==> items[0].kind == Div)
      && ChildrenOnDivs(Kids(items[0]))
      && ChildrenOnDivs(items[1..])
  {
  }

  lemma {:induction false} ChildrenOnDivsAppend(a: seq<Node>, b: seq<Node>)
    ensures ChildrenOnDivs(a + b) <==> ChildrenOnDivs(a) && ChildrenOnDivs(b)
  {
    PreorderAppend(a, b);
  }

  // ---------------------------------------------------------------------
  // Lookup

  /**
   * Lookup finds the FIRST preorder node with the id: the node it returns
   * carries the id, sits at some preorder position k, and no node before
   * position k carries it; it finds nothing exactly when no node at any
   * depth carries the id.
   */
  lemma {:induction false} FirstWithIdIsFirst(ns: seq<Node>, id: string)
    ensures FirstWithId(ns, id).None? <==> forall k :: 0 <= k < |ns| ==> ns[k].id != id
    ensures FirstWithId(ns, id).Some? ==>
      exists k :: 0 <= k < |ns| && ns[k] == FirstWithId(ns, id).value && ns[k].id == id
        && id !in IdsOf(ns[..k])
    decreases ns
  {
    if ns != [] {
      FirstWithIdIsFirst(ns[1..], id);
      if ns[0].id == id {
        assert ns[..0] == [];
        assert ns[0] == FirstWithId(ns, id).value && id !in IdsOf(ns[..0]);
      } else if FirstWithId(ns[1..], id).Some? {
        var k :| 0 <= k < |ns[1..]| && ns[1..][k] == FirstWithId(ns[1..], id).value && ns[1..][k].id == id
          && id !in IdsOf(ns[1..][..k]);
        assert ns[..k + 1] == [ns[0]] + ns[1..][..k];
        IdsOfAppend([ns[0]], ns[1..][..k]);
        assert ns[k + 1] == ns[1..][k];
        assert ns[k + 1] == FirstWithId(ns, id).value && id !in IdsOf(ns[..k + 1]);
      } else {
        assert forall k :: 1 <= k < |ns| ==> ns[k] == ns[1..][k - 1];
      }
    }
  }

  /** With unique ids, any node carrying the id is the one Lookup returns. */
  lemma {:induction false} LookupUnique(items: seq<Node>, n: Node)
    requires UniqueIds(items)
    requires n in Preorder(items)
    ensures Lookup(items, n.id) == Some(n)
    decreases SeqSize(items)
  {
    var x := items[0];
    LookupCons(items, n.id);
    UniqueCons(items);
    IdsCons(items);
    if n == x {
    } else if n in Preorder(Kids(x)) {
      LookupUnique(Kids(x), n);
      IdInIds(Kids(x), n);
    } else {
      assert n in Preorder(items[1..]);
      LookupUnique(items[1..], n);
      IdInIds(items[1..], n);
      assert n.id in multiset(Ids(items[1..]));
      assert n.id !in multiset(Ids(Kids(x)));
    }
  }

  lemma {:induction false} IdInIds(items: seq<Node>, n: Node)
    requires n in Preorder(items)
    ensures n.id in Ids(items)
  {
    var p := Preorder(items);
    var k :| 0 <= k < |p| && p[k] == n;
    assert IdsOf(p)[k] == n.id;
  }

  lemma {:induction false} LookupInPreorder(items: seq<Node>, id: string)
    requires Lookup(items, id).Some?
    ensures Lookup(items, id).value in Preorder(items)
    ensures Lookup(items, id).value.id == id
  {
  }

  lemma {:induction false} TagsOfAppend(a: seq<Node>, b: seq<Node>)
    ensures TagsOf(a + b) == TagsOf(a) + TagsOf(b)
  {
    assert forall i :: 0 <= i < |a + b| ==> TagsOf(a + b)[i] == (TagsOf(a) + TagsOf(b))[i];
  }

  lemma {:induction false} TagsAppend(a: seq<Node>, b: seq<Node>)
    ensures Tags(a + b) == Tags(a) + Tags(b)
  {
    PreorderAppend(a, b);
    TagsOfAppend(Preorder(a), Preorder(b));
  }

  lemma {:induction false} TagsCons(items: seq<Node>)
    requires items != []
    ensures Tags(items) == [TagOf(items[0])] + Tags(Kids(items[0])) + Tags(items[1..])
  {
    TagsOfAppend([items[0]] + Preorder(Kids(items[0])), Preorder(items[1..]));
    TagsOfAppend([items[0]], Preorder(Kids(items[0])));
  }

  lemma {:induction false} RetagAppend(a: seq<Tag>, b: seq<Tag>, id: string, g: Tag)
    ensures Retag(a + b, id, g) == Retag(a, id, g) + Retag(b, id, g)
  {
  }

  lemma {:induction false} RetagAbsent(gs: seq<Tag>, id: string, g: Tag)
    requires forall i :: 0 <= i < |gs| ==> gs[i].id != id
    ensures Retag(gs, id, g) == gs
  {
  }

  lemma {:induction false} HasDivCons(items: seq<Node>, id: string)
    requires items != []
    ensures HasDiv(items, id) <==>
      (items[0].id == id && items[0].kind == Div) || HasDiv(Kids(items[0]), id) || HasDiv(items[1..], id)
  {
    var p := Preorder(items);
    assert p == [items[0]] + Preorder(Kids(items[0])) + Preorder(items[1..]);
    if HasDiv(items, id) {
      var n :| n in p && n.id == id && n.kind == Div;
    }
  }

  lemma {:induction false} HasDivIds(items: seq<Node>, id: string)
    requires HasDiv(items, id)
    ensures id in Ids(items)
  {
    var n :| n in Preorder(items) && n.id == id && n.kind == Div;
    IdInIds(items, n);
  }

  /** With unique ids, the node carrying the id of some div is that div. */
  lemma {:induction false} HasDivLookup(items: seq<Node>, id: string)
    requires UniqueIds(items) && HasDiv(items, id)
    ensures Lookup(items, id).Some? && Lookup(items, id).value.kind == Div
  {
    var n :| n in Preorder(items) && n.id == id && n.kind == Div;
    LookupUnique(items, n);
  }

  /** The first node with a given id is a div, so some div has that id. */
  lemma {:induction false} LookupDivHasDiv(items: seq<Node>, id: string)
    requires Lookup(items, id).Some? && Lookup(items, id).value.kind == Div
    ensures HasDiv(items, id)
  {
  }

  // ---------------------------------------------------------------------
  // Subsequences: the entries kept by a mask, in their order

  function Keep<T>(s: seq<T>, mask: seq<bool>): (r: seq<T>)
    requires |mask| == |s|
    ensures multiset(r) <= multiset(s)
  {
    if s == [] then []
    else
      assert s == [s[0]] + s[1..];
      (if mask[0] then [s[0]] else []) + Keep(s[1..], mask[1..])
  }

  /** `a` is `b` with some entries deleted and the rest in their order. */
  ghost predicate IsSubsequence<T>(a: seq<T>, b: seq<T>)
  {
    exists mask: seq<bool> :: |mask| == |b| && a == Keep(b, mask)
  }

  lemma {:induction false} KeepAppend<T>(s1: seq<T>, m1: seq<bool>, s2: seq<T>, m2: seq<bool>)
    requires |m1| == |s1| && |m2| == |s2|
    ensures Keep(s1 + s2, m1 + m2) == Keep(s1, m1) + Keep(s2, m2)
    decreases |s1|
  {
    if s1 == [] {
      assert s1 + s2 == s2 && m1 + m2 == m2;
    } else {
      var s, m := s1 + s2, m1 + m2;
      var head := if m1[0] then [s1[0]] else [];
      assert s[0] == s1[0] && m[0] == m1[0];
      assert s[1..] == s1[1..] + s2 && m[1..] == m1[1..] + m2;
      KeepAppend(s1[1..], m1[1..], s2, m2);
      assert Keep(s, m) == head + Keep(s1[1..] + s2, m1[1..] + m2);
      assert Keep(s1, m1) == head + Keep(s1[1..], m1[1..]);
    }
  }

  function Falses(n: nat): (m: seq<bool>)
    ensures |m| == n
  {
    if n == 0 then [] else [false] + Falses(n - 1)
  }

  lemma {:induction false} KeepNone<T>(s: seq<T>)
    ensures Keep(s, Falses(|s|)) == []
    decreases |s|
  {
    if s != [] {
      KeepNone(s[1..]);
    }
  }

  // ---------------------------------------------------------------------
  // Reordering siblings keeps the nodes

  lemma {:induction false} MultisetCancel<T>(a: seq<T>, b: seq<T>, x: T)
    requires multiset(a) + multiset{x} == multiset(b) + multiset{x}
    ensures multiset(a) == multiset(b)
  {
    assert forall y :: multiset(a)[y] == multiset(b)[y] by {
      forall y ensures multiset(a)[y] == multiset(b)[y] {
        assert (multiset(a) + multiset{x})[y] == (multiset(b) + multiset{x})[y];
      }
    }
  }

  lemma {:induction false} PreorderAppend3(l: seq<Node>, m: seq<Node>, r: seq<Node>, b: seq<Node>)
    requires b == l + m + r
    ensures Preorder(b) == Preorder(l) + Preorder(m) + Preorder(r)
  {
    PreorderAppend(l + m, r);
    PreorderAppend(l, m);
  }

  /** Taking the roots `m` out of a root sequence takes exactly their subtrees out of the preorder. */
  lemma {:induction false} CutPreorder(l: seq<Node>, m: seq<Node>, r: seq<Node>)
    ensures multiset(Preorder(l + m + r)) == multiset(Preorder(m)) + multiset(Preorder(l + r))
  {
    PreorderAppend3(l, m, r, l + m + r);
    PreorderAppend(l, r);
  }

  lemma {:induction false} CutIds(l: seq<Node>, m: seq<Node>, r: seq<Node>)
    ensures multiset(Ids(l + m + r)) == multiset(Ids(m)) + multiset(Ids(l + r))
  {
    IdsAppend(l + m, r);
    IdsAppend(l, m);
    IdsAppend(l, r);
  }

  lemma {:induction false} RemoveOne<T>(b: seq<T>, i: nat)
    requires i < |b|
    ensures b == b[..i] + [b[i]] + b[i + 1..]
    ensures multiset(b) == multiset(b[..i] + b[i + 1..]) + multiset{b[i]}
  {
    assert b == b[..i] + [b[i]] + b[i + 1..];
  }

  lemma {:induction false} CutFirst(a: seq<Node>)
    requires a != []
    ensures multiset(Preorder(a)) == multiset(Preorder([a[0]])) + multiset(Preorder(a[1..]))
    ensures multiset(Ids(a)) == multiset(Ids([a[0]])) + multiset(Ids(a[1..]))
  {
    assert a == [a[0]] + a[1..];
    PreorderAppend([a[0]], a[1..]);
    IdsAppend([a[0]], a[1..]);
  }

  /** Two root sequences that are permutations of each other hold the same nodes and ids. */
  lemma {:induction false} PermutationKeepsNodes(a: seq<Node>, b: seq<Node>)
    requires multiset(a) == multiset(b)
    ensures multiset(Preorder(a)) == multiset(Preorder(b))
    ensures multiset(Ids(a)) == multiset(Ids(b))
    decreases |a|
  {
    if a == [] {
      assert |b| == |multiset(b)| == 0;
    } else {
      var x := a[0];
      assert x in multiset(b);
      var i :| 0 <= i < |b| && b[i] == x;
      var l, r := b[..i], b[i + 1..];
      RemoveOne(b, i);
      RemoveOne(a, 0);
      assert a[..0] + a[1..] == a[1..];
      MultisetCancel(a[1..], l + r, x);
      PermutationKeepsNodes(a[1..], l + r);
      CutPreorder(l, [x], r);
      CutIds(l, [x], r);
      CutFirst(a);
    }
  }

  lemma {:induction false} PermutationKeepsWellFormed(a: seq<Node>, b: seq<Node>)
    requires multiset(a) == multiset(b)
    ensures WellFormed(a) <==> WellFormed(b)
    ensures Count(a) == Count(b)
  {
    PermutationKeepsNodes(a, b);
    assert forall n :: n in Preorder(a) <==> n in Preorder(b) by {
      forall n ensures n in Preorder(a) <==> n in Preorder(b) {
        assert n in Preorder(a) <==> n in multiset(Preorder(a));
        assert n in Preorder(b) <==> n in multiset(Preorder(b));
      }
    }
    assert |Preorder(a)| == |multiset(Preorder(a))| == |multiset(Preorder(b))| == |Preorder(b)|;
  }

  /** The multiset of ids, split at the first root. */
  lemma {:induction false} IdsConsMultiset(items: seq<Node>)
    requires items != []
    ensures multiset(Ids(items)) ==
      multiset{items[0].id} + multiset(Ids(Kids(items[0]))) + multiset(Ids(items[1..]))
  {
    IdsCons(items);
  }

  /** The tags hold, position by position, the ids of the preorder. */
  lemma {:induction false} TagIds(items: seq<Node>)
    ensures |Tags(items)| == |Ids(items)| == Count(items)
    ensures forall k :: 0 <= k < |Tags(items)| ==> Tags(items)[k].id == Ids(items)[k]
  {
  }

  /** Retagging with a tag that keeps the id keeps the id sequence. */
  lemma {:induction false} RetagKeepsIds(a: seq<Node>, b: seq<Node>, id: string, g: Tag)
    requires g.id == id && Tags(b) == Retag(Tags(a), id, g)
    ensures Ids(b) == Ids(a)
  {
    TagIds(a);
    TagIds(b);
    assert forall k :: 0 <= k < |Ids(b)| ==> Ids(b)[k] == Ids(a)[k];
  }

  /** Only divs have children arrays, read off the tags. */
  lemma {:induction false} ChildrenOnDivsTags(items: seq<Node>)
    ensures ChildrenOnDivs(items) <==>
      forall k :: 0 <= k < |Tags(items)| ==> (Tags(items)[k].hasChildren <==> Tags(items)[k].kind == Div)
  {
    var p := Preorder(items);
    if ChildrenOnDivs(items) {
      forall k | 0 <= k < |Tags(items)| ensures Tags(items)[k].hasChildren <==> Tags(items)[k].kind == Div {
        assert p[k] in p;
      }
    } else {
      var n :| n in p && !(n.children.ChildList? <==> n.kind == Div);
      var k :| 0 <= k < |p| && p[k] == n;
      assert Tags(items)[k] == TagOf(n);
    }
  }

  /** Retagging with a tag that is itself a div exactly when it has children keeps only divs having children. */
  lemma {:induction false} RetagKeepsChildrenOnDivs(a: seq<Node>, b: seq<Node>, id: string, g: Tag)
    requires ChildrenOnDivs(a) && (g.hasChildren <==> g.kind == Div)
    requires Tags(b) == Retag(Tags(a), id, g)
    ensures ChildrenOnDivs(b)
  {
    ChildrenOnDivsTags(a);
    ChildrenOnDivsTags(b);
  }

  /** Retag through the first root. */
  lemma {:induction false} RetagCons(items: seq<Node>, id: string, g: Tag)
    requires items != []
    ensures Retag(Tags(items), id, g) ==
      [if items[0].id == id then g else TagOf(items[0])] + Retag(Tags(Kids(items[0])), id, g) + Retag(Tags(items[1..]), id, g)
  {
    TagsCons(items);
    RetagParts(Tags(items), TagOf(items[0]), Tags(Kids(items[0])), Tags(items[1..]), id, g);
  }

  lemma {:induction false} RetagParts(gs: seq<Tag>, x: Tag, a: seq<Tag>, b: seq<Tag>, id: string, g: Tag)
    requires gs == [x] + a + b
    ensures Retag(gs, id, g) == [if x.id == id then g else x] + Retag(a, id, g) + Retag(b, id, g)
  {
    RetagAppend([x] + a, b, id, g);
    RetagAppend([x], a, id, g);
  }

  /** Retagging an id no node carries changes nothing. */
  lemma {:induction false} RetagNoId(items: seq<Node>, id: string, g: Tag)
    requires id !in Ids(items)
    ensures Retag(Tags(items), id, g) == Tags(items)
  {
    TagIds(items);
    RetagAbsent(Tags(items), id, g);
  }
  /** Multiset bookkeeping: replacing one part of a sum. */
  lemma {:induction false} ReplacePart<T>(x: multiset<T>, a: multiset<T>, a': multiset<T>, b: multiset<T>, p: multiset<T>, u: multiset<T>)
    requires a' + p == a + u
    ensures x + a' + b + p == x + a + b + u
    ensures x + b + a' + p == x + b + a + u
  {
    forall y ensures (x + a' + b + p)[y] == (x + a + b + u)[y] {
      assert (a' + p)[y] == (a + u)[y];
    }
    assert x + a' + b + p == x + a + b + u;
    assert x + b + a' + p == x + a' + b + p;
    assert x + b + a + u == x + a + b + u;
  }

  /** A node's whole subtree lies in the preorder of any document holding the node. */
  lemma {:induction false} SubtreeInPreorder(items: seq<Node>, n: Node)
    requires n in Preorder(items)
    ensures forall m :: m in Preorder([n]) ==> m in Preorder(items)
    decreases SeqSize(items)
  {
    var el := items[0];
    assert Preorder([n]) == [n] + Preorder(Kids(n)) + Preorder([n][1..]);
    assert [n][1..] == [];
    if n != el {
      if n in Preorder(Kids(el)) {
        SubtreeInPreorder(Kids(el), n);
      } else {
        SubtreeInPreorder(items[1..], n);
      }
    }
  }

  /** Reordering roots keeps the rule that exactly the divs have children arrays. */
  lemma {:induction false} PermutationKeepsChildrenOnDivs(a: seq<Node>, b: seq<Node>)
    requires multiset(a) == multiset(b)
    ensures ChildrenOnDivs(a) <==> ChildrenOnDivs(b)
  {
    PermutationKeepsNodes(a, b);
    forall n ensures n in Preorder(a) <==> n in Preorder(b) {
      assert n in Preorder(a) <==> n in multiset(Preorder(a));
      assert n in Preorder(b) <==> n in multiset(Preorder(b));
    }
  }

  // ---------------------------------------------------------------------
  // The preorder tags determine the document

  /** A node is determined by its tag and its children. */
  lemma {:induction false} SameNode(x: Node, y: Node)
    requires TagOf(x) == TagOf(y) && Kids(x) == Kids(y)
    ensures x == y
  {
  }

  lemma {:induction false} DropHead<T>(x: T, y: T, a: seq<T>, b: seq<T>)
    requires [x] + a == [y] + b
    ensures x == y && a == b
  {
    assert ([x] + a)[0] == x && ([y] + b)[0] == y;
    assert ([x] + a)[1..] == a && ([y] + b)[1..] == b;
  }

  lemma {:induction false} Regroup<T>(w: seq<T>, x: T, k: seq<T>, r: seq<T>, extra: seq<T>)
    requires w == [x] + k + r
    ensures w + extra == [x] + (k + (r + extra))
  {
  }

  /**
   * Root sequences of the same length whose tags are followed by `ra` and `rb`
   * and give the same sequence are equal, and so are `ra` and `rb`.
   */
  lemma {:induction false} TagsPrefix(a: seq<Node>, b: seq<Node>, ra: seq<Tag>, rb: seq<Tag>)
    requires |a| == |b| && Tags(a) + ra == Tags(b) + rb
    ensures a == b && ra == rb
    decreases SeqSize(a)
  {
    if a == [] {
      assert Tags(a) == [] && Tags(b) == [];
      assert Tags(a) + ra == ra && Tags(b) + rb == rb;
    } else {
      var x, y := a[0], b[0];
      TagsCons(a);
      TagsCons(b);
      Regroup(Tags(a), TagOf(x), Tags(Kids(x)), Tags(a[1..]), ra);
      Regroup(Tags(b), TagOf(y), Tags(Kids(y)), Tags(b[1..]), rb);
      DropHead(TagOf(x), TagOf(y), Tags(Kids(x)) + (Tags(a[1..]) + ra), Tags(Kids(y)) + (Tags(b[1..]) + rb));
      TagsPrefix(Kids(x), Kids(y), Tags(a[1..]) + ra, Tags(b[1..]) + rb);
      TagsPrefix(a[1..], b[1..], ra, rb);
      SameNode(x, y);
      assert a == [x] + a[1..] && b == [y] + b[1..];
    }
  }

  /**
   * The tags of a document in preorder, which record every node's id, type,
   * props, children array and number of children, determine the document: two
   * documents with the same tags are equal.
   */
  lemma {:induction false} TagsDetermine(a: seq<Node>, b: seq<Node>)
    requires Tags(a) == Tags(b)
    ensures a == b
    decreases SeqSize(a)
  {
    TagsEmpty(a);
    TagsEmpty(b);
    if a != [] {
      TagsHead(a, b);
      TagsPrefix(Kids(a[0]), Kids(b[0]), Tags(a[1..]), Tags(b[1..]));
      TagsDetermine(a[1..], b[1..]);
      SameNode(a[0], b[0]);
      assert a == [a[0]] + a[1..] && b == [b[0]] + b[1..];
    }
  }

  lemma {:induction false} TagsEmpty(a: seq<Node>)
    ensures Tags(a) == [] <==> a == []
  {
    if a != [] {
      TagsCons(a);
    }
  }

  lemma {:induction false} TagsHead(a: seq<Node>, b: seq<Node>)
    requires a != [] && b != [] && Tags(a) == Tags(b)
    ensures TagOf(a[0]) == TagOf(b[0])
    ensures Tags(Kids(a[0])) + Tags(a[1..]) == Tags(Kids(b[0])) + Tags(b[1..])
  {
    TagsCons(a);
    TagsCons(b);
    SameHead(Tags(a), TagOf(a[0]), Tags(Kids(a[0])), Tags(a[1..]), TagOf(b[0]), Tags(Kids(b[0])), Tags(b[1..]));
  }

  lemma {:induction false} SameHead<T>(w: seq<T>, x: T, k: seq<T>, r: seq<T>, y: T, k': seq<T>, r': seq<T>)
    requires w == [x] + k + r && w == [y] + k' + r'
    ensures x == y && k + r == k' + r'
  {
    assert w == [x] + (k + r) && w == [y] + (k' + r');
    DropHead(x, y, k + r, k' + r');
  }

  lemma {:induction false} LabelsOfAppend(a: seq<Tag>, b: seq<Tag>)
    ensures LabelsOf(a + b) == LabelsOf(a) + LabelsOf(b)
  {
  }

  /** The labels of all nodes, at every depth, in preorder. */
  function Labels(items: seq<Node>): seq<Tag>
  {
    LabelsOf(Tags(items))
  }

  lemma {:induction false} LabelsCons(items: seq<Node>)
    requires items != []
    ensures Labels(items) == [Label(TagOf(items[0]))] + Labels(Kids(items[0])) + Labels(items[1..])
  {
    TagsCons(items);
    LabelsOfAppend([TagOf(items[0])] + Tags(Kids(items[0])), Tags(items[1..]));
    LabelsOfAppend([TagOf(items[0])], Tags(Kids(items[0])));
  }

  // ---------------------------------------------------------------------
  // Splices: one stretch of a sequence replaced by another

  /** A stretch replaced at the front of `w`. */
  lemma {:induction false} SpliceAtStart<T>(w: seq<T>, w': seq<T>, o: seq<T>, m: seq<T>, t: seq<T>)
    requires w == o + t && w' == m + t
    ensures |o| <= |w|
    ensures w == w[..0] + o + w[|o|..] && w' == w[..0] + m + w[|o|..]
  {
    assert w[..0] == [] && w[|o|..] == t;
  }

  /** A stretch replaced at position `k` of the part `a` after the first entry `g`. */
  lemma {:induction false} SpliceAfterHead<T>(w: seq<T>, w': seq<T>, g: T, a: seq<T>, a': seq<T>, t: seq<T>,
                                              k: nat, o: seq<T>, m: seq<T>)
    requires w == [g] + a + t && w' == [g] + a' + t
    requires k + |o| <= |a| && a == a[..k] + o + a[k + |o|..] && a' == a[..k] + m + a[k + |o|..]
    ensures 1 + k + |o| <= |w|
    ensures w == w[..1 + k] + o + w[1 + k + |o|..] && w' == w[..1 + k] + m + w[1 + k + |o|..]
  {
    assert w[..1 + k] == [g] + a[..k];
    assert w[1 + k + |o|..] == a[k + |o|..] + t;
  }

  /** A stretch replaced at position `k` of the part `t` after the prefix `h`. */
  lemma {:induction false} SpliceAfterPrefix<T>(w: seq<T>, w': seq<T>, h: seq<T>, t: seq<T>, t': seq<T>,
                                                k: nat, o: seq<T>, m: seq<T>, at: nat)
    requires w == h + t && w' == h + t' && at == |h| + k
    requires k + |o| <= |t| && t == t[..k] + o + t[k + |o|..] && t' == t[..k] + m + t[k + |o|..]
    ensures at + |o| <= |w|
    ensures w == w[..at] + o + w[at + |o|..] && w' == w[..at] + m + w[at + |o|..]
  {
    assert w[..at] == h + t[..k];
    assert w[at + |o|..] == t[k + |o|..];
  }

  /** An entry of the last part of a three-part sequence. */
  lemma {:induction false} IndexInParts<T>(w: seq<T>, x: T, a: seq<T>, b: seq<T>)
    requires w == [x] + a + b
    ensures forall i :: 0 <= i < |a| ==> w[1 + i] == a[i]
    ensures forall i :: 0 <= i < |b| ==> w[1 + |a| + i] == b[i]
  {
  }
}
